/**
 * Cores that keep polling: every submission is called back, after a number of polls that depends only on
 * how many there were, whatever other cores do and however much is submitted meanwhile.
 */
module SmpLive {
  import opened Basics
  import opened SmpProtocol
  import opened SmpQueue
  import opened SmpPoll

  // ---------- Nothing goes back ----------

  predicate Grown(q: Queue, r: Queue) {
    && q.submitted <= r.submitted && Entered(q) <= Entered(r) && Begun(q) <= Begun(r) && |q.ran| <= |r.ran|
    && Sent(q) <= Sent(r) && Taken(q) <= Taken(r) && |q.done| <= |r.done|
  }

  ghost predicate Later(s: System, s': System) {
    && Square(s) && Square(s') && |s| == |s'|
    && forall t, f :: 0 <= t < |s| && 0 <= f < |s| ==> Grown(s[t][f], s'[t][f])
  }

  lemma ActionGrows(q: Queue, a: Action)
    requires Enabled(q, a)
    ensures Grown(q, Next(q, a))
  {}

  lemma GrownThen(q: Queue, r: Queue, t: Queue)
    requires Grown(q, r) && Grown(r, t)
    ensures Grown(q, t)
  {}

  lemma LaterThen(s: System, t: System, u: System)
    requires Later(s, t) && Later(t, u)
    ensures Later(s, u)
  {
    hide Grown;
    forall x, y | 0 <= x < |s| && 0 <= y < |s| ensures Grown(s[x][y], u[x][y]) {
      GrownThen(s[x][y], t[x][y], u[x][y]);
    }
  }

  lemma LaterSame(s: System)
    requires Square(s)
    ensures Later(s, s)
  {}

  lemma StepLater(s: System, st: Step)
    requires Square(s) && StepEnabled(s, st)
    ensures Later(s, StepNext(s, st))
  {
    hide Grown, Enabled, Next;
    var s' := StepNext(s, st);
    StepAt(s, st, Row(st), Column(st));
    forall x: nat, y: nat | x < |s| && y < |s| ensures Grown(s[x][y], s'[x][y]) {
      StepAt(s, st, x, y);
      SameGrown(s[x][y]);
      ActionGrows(s[Row(st)][Column(st)], st.action);
    }
  }

  lemma SameGrown(q: Queue)
    ensures Grown(q, q)
  {}

  lemma {:induction false} RunLater(s: System, steps: seq<Step>)
    requires Runs(s, steps)
    ensures Later(s, After(s, steps))
    decreases |steps|
  {
    hide Later, StepEnabled, StepNext, Square;
    if steps == [] {
      LaterSame(s);
    } else {
      StepLater(s, steps[0]);
      RunLater(StepNext(s, steps[0]), steps[1..]);
      LaterThen(s, StepNext(s, steps[0]), After(s, steps));
    }
  }

  // ---------- Polls in turn ----------

  /** A poll of core me from s to t. */
  ghost predicate IsPoll(s: System, t: System, me: nat) {
    SystemInv(s) && me < |s| && Idle(s, me) && Polled(s, t, me, |s|) && Later(s, t)
  }

  datatype Turn = Turn(core: nat, before: System, after: System)

  function CoreAt(i: nat, a: nat, b: nat): nat { if i % 2 == 0 then a else b }

  /**
   * The cores a and b poll in turn, a first, each when the other has finished. Anything may happen
   * during and between the polls.
   */
  ghost predicate InTurn(h: seq<Turn>, a: nat, b: nat) {
    && (forall i :: 0 <= i < |h| ==> IsPoll(h[i].before, h[i].after, h[i].core) && h[i].core == CoreAt(i, a, b))
    && (forall i :: 0 < i < |h| ==> Later(h[i - 1].after, h[i].before))
  }

  lemma OneMoreTurn(h: seq<Turn>, a: nat, b: nat, s: System, t: System)
    requires InTurn(h, a, b) && IsPoll(s, t, CoreAt(|h|, a, b)) && (h != [] ==> h[|h| - 1].after == s)
    ensures InTurn(h + [Turn(CoreAt(|h|, a, b), s, t)], a, b)
  {
    hide Later, IsPoll, CoreAt;
    PollSquare(s, t, CoreAt(|h|, a, b));
    LaterSame(s);
  }

  lemma NoTurns(a: nat, b: nat)
    ensures InTurn([], a, b)
  {}

  lemma PollSquare(s: System, t: System, me: nat)
    requires IsPoll(s, t, me)
    ensures Square(s)
  {}

  /** What the sender's poll does for a queue. */
  lemma SenderPoll(s: System, t: System, from: nat, to: nat)
    requires IsPoll(s, t, from) && to < |s| && to != from
    ensures from < |s| && |t| == |s| && |t[to]| == |s| && |s[to]| == |s|
    ensures Grown(s[to][from], t[to][from]) && |s[to][from].done| <= Begun(s[to][from])
    ensures |t[to][from].done| >= Sent(s[to][from]) && Requesting(s[to][from], t[to][from])
  {
    hide Grown;
    assert Served(s, t, from, to);
    Counted(s[to][from]);
    CountedWaiting(s[to][from]);
  }

  /** And the receiver's. */
  lemma ReceiverPoll(s: System, t: System, from: nat, to: nat)
    requires IsPoll(s, t, to) && from < |s| && to != from
    ensures |t| == |s| && |t[to]| == |s| && |s[to]| == |s|
    ensures Grown(s[to][from], t[to][from])
    ensures |t[to][from].ran| >= Entered(s[to][from]) && Answering(s[to][from], t[to][from])
  {
    hide Grown;
    assert Served(s, t, to, from);
    CountedWaiting(s[to][from]);
  }

  lemma LaterAt(s: System, t: System, x: nat, y: nat)
    requires Later(s, t) && x < |s| && y < |s|
    ensures |s| == |t| && |s[x]| == |t[x]| == |s| && Grown(s[x][y], t[x][y])
  {
    hide Grown;
  }

  /** With m submissions to answer and c called back at first, k exchanges bring it this far. */
  function Goal(m: nat, c: nat, k: nat): nat { Min(m, c + QUEUE_LENGTH * k) }

  lemma GoalGrows(m: nat, c: nat, k: nat)
    ensures Goal(m, c, k + 1) == Min(m, Goal(m, c, k) + QUEUE_LENGTH)
    ensures Goal(m, c, 0) <= c
  {}

  predicate Reached(q: Queue, goal: nat, next: nat) { |q.done| >= goal && Entered(q) >= next }

  /** One exchange: the receiver's poll and then the sender's. */
  lemma Exchange(s: System, t: System, u: System, v: System, w: System, from: nat, to: nat,
                 m: nat, goal: nat, next: nat)
    requires from < |s| && to < |s| && from != to && Square(s)
    requires Later(s, t) && IsPoll(t, u, to) && Later(u, v) && IsPoll(v, w, from)
    requires next == Min(m, goal + QUEUE_LENGTH) && m <= |s[to][from].submitted|
    requires Reached(s[to][from], goal, next)
    ensures Later(s, w) && Reached(w[to][from], next, Min(m, next + QUEUE_LENGTH))
  {
    hide Later, IsPoll;
    LaterAt(s, t, to, from);
    ReceiverPoll(t, u, from, to);
    LaterAt(u, v, to, from);
    SenderPoll(v, w, from, to);
    PollLater(t, u, to);
    PollLater(v, w, from);
    LaterThen(s, t, u);
    LaterThen(s, u, v);
    LaterThen(s, v, w);
  }

  lemma PollLater(s: System, t: System, me: nat)
    requires IsPoll(s, t, me)
    ensures Later(s, t)
  {}

  /**
   * After 2k + 1 polls in turn, the first and last by the sender, all that was submitted before the first
   * has been called back, or 128 k more than had been before.
   */
  lemma {:induction false} TurnsAnswer(h: seq<Turn>, from: nat, to: nat, k: nat)
    requires |h| == 2 * k + 1 && InTurn(h, from, to) && from != to && to < |h[0].before|
    ensures var s, t := h[0].before, h[2 * k].after;
            && Later(s, t) && from < |s| && |s[to]| == |t[to]| == |s| == |t|
            && var m, c := |s[to][from].submitted|, |s[to][from].done|;
               Reached(t[to][from], Goal(m, c, k), Goal(m, c, k + 1))
    decreases k
  {
    hide Later, IsPoll, Goal;
    var s := h[0].before;
    assert h[0].core == from;
    PollLater(s, h[0].after, from);
    SenderPoll(s, h[0].after, from, to);
    var m, c := |s[to][from].submitted|, |s[to][from].done|;
    GoalGrows(m, c, 0);
    GoalGrows(m, c, k);
    if k > 0 {
      var g := h[..2 * k - 1];
      TurnsAnswer(g, from, to, k - 1);
      GoalGrows(m, c, k - 1);
      var e := h[2 * k - 2].after;
      assert g[2 * (k - 1)] == h[2 * k - 2] && g[0] == h[0];
      assert h[2 * k - 1].core == to && h[2 * k].core == from;
      LaterAt(s, e, to, from);
      LaterSquare(s, e);
      Exchange(e, h[2 * k - 1].before, h[2 * k - 1].after, h[2 * k].before, h[2 * k].after, from, to, m,
               Goal(m, c, k - 1), Goal(m, c, k));
      LaterThen(s, e, h[2 * k].after);
      LaterAt(s, h[2 * k].after, to, from);
    }
  }

  lemma LaterSquare(s: System, t: System)
    requires Later(s, t)
    ensures Square(s) && Square(t) && |s| == |t|
  {}

  /** So with enough polls each of them has been called back, in the order of submission. */
  lemma EverySubmissionAnswered(h: seq<Turn>, from: nat, to: nat, k: nat)
    requires |h| == 2 * k + 1 && InTurn(h, from, to) && from != to && to < |h[0].before|
    requires from < |h[0].before| && |h[0].before[to]| == |h[0].before| && SystemInv(h[2 * k].after)
    requires |h[0].before[to][from].submitted| <= QUEUE_LENGTH * k
    ensures var s, t := h[0].before, h[2 * k].after;
            && |t| == |s| && |t[to]| == |s| && |t[to][from].done| >= |s[to][from].submitted|
            && Items(t[to][from].done[..|s[to][from].submitted|]) == s[to][from].submitted
  {
    hide Later, IsPoll, Inv, InTurn;
    TurnsAnswer(h, from, to, k);
    var s, t := h[0].before, h[2 * k].after;
    LaterAt(s, t, to, from);
    CalledInOrder(t[to][from], s[to][from].submitted);
  }

  lemma CalledInOrder(q: Queue, first: seq<Item>)
    requires Inv(q) && first <= q.submitted && |first| <= |q.done|
    ensures Items(q.done[..|first|]) == first
  {
    assert q.ran == q.done + (q.completing + q.completed + q.completedFifo);
    forall i | 0 <= i < |first| ensures Items(q.done[..|first|])[i] == first[i] {
      assert q.ran[i] == q.done[i] && Items(q.ran)[i] == q.ran[i].item && q.submitted[i] == Items(q.ran)[i];
    }
  }

  // ---------- Two cores that poll ----------

  lemma {:induction false} AsleepStaysIdle(s: System, steps: seq<Step>, b: nat)
    requires Runs(s, steps) && b < |s| && Idle(s, b) && Without(steps, {b})
    ensures b < |After(s, steps)| == |s| && Square(After(s, steps)) && Idle(After(s, steps), b)
    decreases |steps|
  {
    hide StepEnabled, StepNext;
    if steps != [] {
      PauseQuiet(s, steps[0], b, false);
      QuietKeepsIdle(s, StepNext(s, steps[0]), b);
      assert Without(steps[1..], {b});
      AsleepStaysIdle(StepNext(s, steps[0]), steps[1..], b);
    }
  }

  lemma QuietKeepsIdle(s: System, t: System, b: nat)
    requires Quiet(s, t, b, NONE, NONE) && Idle(s, b)
    ensures b < |t| == |s| && Idle(t, b)
  {}

  /** One poll of core me, with core idle doing nothing meanwhile. */
  method PollOnce(qs: seq<seq<MessageQueue>>, me: nat, idle: nat, run: Item -> int, others: nat -> seq<Step>)
    requires Grid(qs) && me < |qs| && idle < |qs| && me != idle && SystemInv(SystemOf(qs))
    requires Idle(SystemOf(qs), me) && Idle(SystemOf(qs), idle)
    modifies Objects(qs)
    ensures SystemInv(SystemOf(qs)) && Idle(SystemOf(qs), me) && Idle(SystemOf(qs), idle)
    ensures IsPoll(old(SystemOf(qs)), SystemOf(qs), me)
  {
    hide SystemOf, Inv, Polled, Later, Idle, Worked, Busy;
    ghost var s := SystemOf(qs);
    var core := new Core(qs, me, run, others, {idle});
    var got := core.PollQueues();
    RunLater(s, core.steps);
    AsleepStaysIdle(s, core.steps, idle);
    PolledIdles(s, SystemOf(qs), me);
  }

  lemma PolledIdles(s: System, t: System, me: nat)
    requires Polled(s, t, me, |s|)
    ensures Square(t) && me < |t| == |s| && Idle(t, me)
  {}

  /**
   * The two cores poll in turn, the sender k + 1 times and the receiver k times; all other cores act
   * as they like. Everything submitted from one to the other before is then called back, or 128 k more
   * items than before.
   */
  method PollInTurn(qs: seq<seq<MessageQueue>>, from: nat, to: nat, run: Item -> int, others: nat -> nat -> seq<Step>,
                    k: nat)
    returns (ghost h: seq<Turn>)
    requires Grid(qs) && from < |qs| && to < |qs| && from != to && SystemInv(SystemOf(qs))
    requires Idle(SystemOf(qs), from) && Idle(SystemOf(qs), to)
    modifies Objects(qs)
    ensures SystemInv(SystemOf(qs)) && |h| == 2 * k + 1 && InTurn(h, from, to)
    ensures h[0].before == old(SystemOf(qs)) && h[2 * k].after == SystemOf(qs)
    ensures |qs[to][from].done| >= Min(old(|qs[to][from].submitted|), old(|qs[to][from].done|) + QUEUE_LENGTH * k)
  {
    hide SystemInv, SystemOf, Idle, IsPoll, InTurn;
    NoTurns(from, to);
    ghost var s0 := SystemOf(qs);
    h := [];
    var i := 0;
    while i < 2 * k + 1
      invariant 0 <= i <= 2 * k + 1 && |h| == i && InTurn(h, from, to)
      invariant SystemInv(SystemOf(qs)) && Idle(SystemOf(qs), from) && Idle(SystemOf(qs), to)
      invariant i == 0 ==> SystemOf(qs) == s0
      invariant i > 0 ==> h[0].before == s0 && h[i - 1].after == SystemOf(qs)
    {
      ghost var s := SystemOf(qs);
      var me, idle := CoreAt(i, from, to), CoreAt(i + 1, from, to);
      PollOnce(qs, me, idle, run, others(i));
      OneMoreTurn(h, from, to, s, SystemOf(qs));
      h := h + [Turn(me, s, SystemOf(qs))];
      i := i + 1;
    }
    TurnsAnswer(h, from, to, k);
  }
}
