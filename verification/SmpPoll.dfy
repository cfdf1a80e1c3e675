/**
 * src/smp.cc: the poll of a core, with all other cores at work. After each of its atomic actions the
 * other cores take any steps they can on any queue, and a function or callback that has just run may
 * submit work of its own.
 */
module SmpPoll {
  import opened Basics
  import opened SmpProtocol
  import opened SmpQueue

  // ---------- How far the items of a queue have come ----------

  /** Requests that have entered the request ring. */
  function Entered(q: Queue): int { |q.submitted| - |q.pendingFifo| }

  /** Requests the receiver has popped. */
  function Begun(q: Queue): nat { |q.ran| + |q.inProcess| }

  /** Answers that have entered the response ring. */
  function Sent(q: Queue): int { |q.ran| - |q.completedFifo| }

  /** Answers the sender has popped. */
  function Taken(q: Queue): nat { |q.done| + |q.completing| }

  /** From q to r, all answers were sent, or as many as fill the ring. */
  predicate Answering(q: Queue, r: Queue) { r.completedFifo == [] || Sent(r) >= Taken(q) + QUEUE_LENGTH }

  /** All requests submitted before were put into the ring, or as many as fill it. */
  predicate Requesting(q: Queue, r: Queue) {
    Entered(r) >= |q.submitted| || Entered(r) >= Begun(q) + QUEUE_LENGTH
  }

  // ---------- What the polling core can rely on ----------

  /** For a queue the core receives on: popped batch, runs and staged answers stay, the ring only grows. */
  predicate QuietRx(q: Queue, r: Queue) {
    && q.pending <= r.pending && r.inProcess == q.inProcess && r.ran == q.ran && q.submitted <= r.submitted
    && r.completedFifo == q.completedFifo && Taken(q) <= Taken(r)
  }

  /** For a queue it sends on: its popped answers and the callbacks stay, the ring only grows. */
  predicate QuietTx(q: Queue, r: Queue) {
    && q.completed <= r.completed && r.completing == q.completing && r.done == q.done && q.ran <= r.ran
    && q.submitted <= r.submitted && Entered(q) <= Entered(r) && Begun(q) <= Begun(r)
  }

  /** From s to s' all queues of core me are quiet, but for the one received on from rx and sent on to tx. */
  ghost predicate Quiet(s: System, s': System, me: nat, rx: int, tx: int) {
    && Square(s) && Square(s') && |s| == |s'| && me < |s|
    && (forall j :: 0 <= j < |s| && j != me && j != rx ==> QuietRx(s[me][j], s'[me][j]))
    && (forall j :: 0 <= j < |s| && j != me && j != tx ==> QuietTx(s[j][me], s'[j][me]))
  }

  const NONE := -1

  lemma QuietThen(s: System, t: System, u: System, me: nat, rx: int, tx: int)
    requires Quiet(s, t, me, rx, tx) && Quiet(t, u, me, rx, tx)
    ensures Quiet(s, u, me, rx, tx)
  {
    hide QuietRx, QuietTx;
    forall j | 0 <= j < |s| && j != me && j != rx ensures QuietRx(s[me][j], u[me][j]) {
      RxThen(s[me][j], t[me][j], u[me][j]);
    }
    forall j | 0 <= j < |s| && j != me && j != tx ensures QuietTx(s[j][me], u[j][me]) {
      TxThen(s[j][me], t[j][me], u[j][me]);
    }
  }

  lemma RxThen(q: Queue, r: Queue, t: Queue)
    requires QuietRx(q, r) && QuietRx(r, t)
    ensures QuietRx(q, t)
  {}

  lemma TxThen(q: Queue, r: Queue, t: Queue)
    requires QuietTx(q, r) && QuietTx(r, t)
    ensures QuietTx(q, t)
  {}

  lemma QuietMore(s: System, t: System, me: nat, rx: int, tx: int)
    requires Quiet(s, t, me, NONE, NONE)
    ensures Quiet(s, t, me, rx, tx)
  {
    hide QuietRx, QuietTx;
  }

  lemma StillSame(s: System, me: nat)
    requires Square(s) && me < |s|
    ensures Still(s, s, me)
  {}

  lemma QuietSame(s: System, me: nat)
    requires Square(s) && me < |s|
    ensures Quiet(s, s, me, NONE, NONE)
  {}

  /** Steps that may happen in a pause of core me; mine says that it may be submitting itself. */
  predicate Allowed(st: Step, me: nat, mine: bool) {
    st.core != me || (mine && (st.action.Submit? || st.action.MovePending?))
  }

  lemma QueueQuiet(q: Queue, a: Action)
    requires Enabled(q, a)
    ensures RoleOf(a) == Sender ==> QuietRx(q, Next(q, a))
    ensures RoleOf(a) == Receiver || a.Submit? || a.MovePending? ==> QuietTx(q, Next(q, a))
  {
    EndsOwned(q, a);
    SubmittedGrows(q, a);
  }

  lemma SameQuiet(q: Queue)
    ensures QuietRx(q, q) && QuietTx(q, q)
  {}

  lemma StepAt(s: System, st: Step, x: nat, y: nat)
    requires Square(s) && StepEnabled(s, st) && x < |s| && y < |s|
    ensures |StepNext(s, st)| == |s| && Square(StepNext(s, st))
    ensures StepNext(s, st)[x][y] == if x == Row(st) && y == Column(st) then Next(s[x][y], st.action) else s[x][y]
  {
    hide Enabled, Next;
  }

  /** The steps of a pause leave the polling core's side of all its queues alone. */
  lemma PauseQuiet(s: System, st: Step, me: nat, mine: bool)
    requires Square(s) && me < |s| && StepEnabled(s, st) && Allowed(st, me, mine)
    ensures Quiet(s, StepNext(s, st), me, NONE, NONE)
  {
    hide Enabled, Next, QuietRx, QuietTx;
    StepAt(s, st, me, me);
    QueueQuiet(s[Row(st)][Column(st)], st.action);
    var s' := StepNext(s, st);
    forall j: nat | j < |s| && j != me ensures QuietRx(s[me][j], s'[me][j]) && QuietTx(s[j][me], s'[j][me]) {
      StepAt(s, st, me, j);
      StepAt(s, st, j, me);
      SameQuiet(s[me][j]);
      SameQuiet(s[j][me]);
    }
  }

  /** The core has staged and submitted nothing. */
  ghost predicate Still(s: System, s': System, me: nat) {
    && Square(s) && Square(s') && |s| == |s'| && me < |s|
    && forall j :: 0 <= j < |s| && j != me ==> StillTx(s[j][me], s'[j][me])
  }

  predicate StillTx(q: Queue, r: Queue) { r.pendingFifo == q.pendingFifo && r.submitted == q.submitted }

  lemma StillThen(s: System, t: System, u: System, me: nat)
    requires Still(s, t, me) && Still(t, u, me)
    ensures Still(s, u, me)
  {
    forall j | 0 <= j < |s| && j != me ensures StillTx(s[j][me], u[j][me]) {
      assert StillTx(s[j][me], t[j][me]) && StillTx(t[j][me], u[j][me]);
    }
  }

  /** Nobody else submits in the core's name. */
  lemma PauseStill(s: System, st: Step, me: nat)
    requires Square(s) && me < |s| && StepEnabled(s, st) && st.core != me
    ensures Still(s, StepNext(s, st), me)
  {
    hide Enabled, Next;
    StepAt(s, st, me, me);
    EndsOwned(s[Row(st)][Column(st)], st.action);
    forall j: nat | j < |s| && j != me ensures StillTx(s[j][me], StepNext(s, st)[j][me]) {
      StepAt(s, st, j, me);
    }
  }

  /** Its own actions as receiver from i change that queue only. */
  lemma ReceiveQuiet(s: System, me: nat, i: nat, a: Action)
    requires Square(s) && me < |s| && i < |s| && i != me && RoleOf(a) == Receiver && Enabled(s[me][i], a)
    ensures StepEnabled(s, Step(me, i, a)) && Quiet(s, StepNext(s, Step(me, i, a)), me, i, NONE)
    ensures StepNext(s, Step(me, i, a))[me][i] == Next(s[me][i], a)
  {
    hide Enabled, Next, QuietRx, QuietTx;
    var st := Step(me, i, a);
    StepAt(s, st, me, i);
    QueueQuiet(s[me][i], a);
    var s' := StepNext(s, st);
    forall j: nat | j < |s| && j != me
      ensures (j != i ==> QuietRx(s[me][j], s'[me][j])) && QuietTx(s[j][me], s'[j][me])
    {
      StepAt(s, st, me, j);
      StepAt(s, st, j, me);
      SameQuiet(s[me][j]);
      SameQuiet(s[j][me]);
    }
  }

  /** And as sender to i. */
  lemma SendQuiet(s: System, me: nat, i: nat, a: Action)
    requires Square(s) && me < |s| && i < |s| && i != me && RoleOf(a) == Sender && Enabled(s[i][me], a)
    ensures StepEnabled(s, Step(me, i, a)) && Quiet(s, StepNext(s, Step(me, i, a)), me, NONE, i)
    ensures a.MovePending? ==> Quiet(s, StepNext(s, Step(me, i, a)), me, NONE, NONE)
    ensures StepNext(s, Step(me, i, a))[i][me] == Next(s[i][me], a)
  {
    hide Enabled, Next, QuietRx, QuietTx;
    var st := Step(me, i, a);
    StepAt(s, st, i, me);
    QueueQuiet(s[i][me], a);
    var s' := StepNext(s, st);
    forall j: nat | j < |s| && j != me
      ensures QuietRx(s[me][j], s'[me][j]) && (j != i || a.MovePending? ==> QuietTx(s[j][me], s'[j][me]))
    {
      StepAt(s, st, me, j);
      StepAt(s, st, j, me);
      SameQuiet(s[me][j]);
      SameQuiet(s[j][me]);
    }
  }

  // ---------- The queues of all cores ----------

  /** qs_, a square of different queues. */
  ghost predicate Grid(qs: seq<seq<MessageQueue>>) {
    && (forall t :: 0 <= t < |qs| ==> |qs[t]| == |qs|)
    && forall t, f, t', f' :: 0 <= t < |qs| && 0 <= f < |qs| && 0 <= t' < |qs| && 0 <= f' < |qs| ==>
         qs[t][f] == qs[t'][f'] ==> t == t' && f == f'
  }

  ghost function Objects(qs: seq<seq<MessageQueue>>): set<MessageQueue> {
    set t, f | 0 <= t < |qs| && 0 <= f < |qs[t]| :: qs[t][f]
  }

  ghost function SystemOf(qs: seq<seq<MessageQueue>>): (s: System)
    requires Grid(qs)
    reads Objects(qs)
    ensures Square(s) && |s| == |qs|
    ensures forall t, f :: 0 <= t < |qs| && 0 <= f < |qs| ==> s[t][f] == qs[t][f].State()
  {
    seq(|qs|, t requires 0 <= t < |qs| reads Objects(qs) =>
      seq(|qs|, f requires 0 <= f < |qs| reads Objects(qs) => qs[t][f].State()))
  }

  lemma SameSystem(s: System, s': System)
    requires Square(s) && Square(s') && |s| == |s'|
    requires forall x, y :: 0 <= x < |s| && 0 <= y < |s| ==> s[x][y] == s'[x][y]
    ensures s == s'
  {
    forall x | 0 <= x < |s| ensures s[x] == s'[x] {
      assert forall y :: 0 <= y < |s| ==> s[x][y] == s'[x][y];
    }
  }

  /** The steps lead from one state of the system to the other. */
  ghost predicate Led(s: System, steps: seq<Step>, s': System) { Runs(s, steps) && After(s, steps) == s' }

  lemma LedOnce(s0: System, steps: seq<Step>, s: System, st: Step)
    requires Led(s0, steps, s) && SystemInv(s) && StepEnabled(s, st)
    ensures Led(s0, steps + [st], StepNext(s, st)) && SystemInv(StepNext(s, st))
  {
    hide StepEnabled, StepNext, Inv;
    SystemInvKept(s, st);
    var s' := StepNext(s, st);
    assert [st][1..] == [] && Runs(s', []) && After(s', []) == s';
    assert Runs(s, [st]) && After(s, [st]) == StepNext(s, st);
    RunsAppend(s0, steps, [st]);
  }

  ghost predicate Without(steps: seq<Step>, asleep: set<nat>) {
    forall k :: 0 <= k < |steps| ==> steps[k].core !in asleep
  }

  /**
   * A core that polls: its queues, its own number, what functions return, what happens in pauses, and
   * cores that do nothing meanwhile.
   */
  class Core {
    const qs: seq<seq<MessageQueue>>
    const me: nat
    const run: Item -> int
    const others: nat -> seq<Step>
    const asleep: set<nat>
    var clock: nat
    ghost const start: System
    ghost var steps: seq<Step>

    ghost predicate Valid()
      reads this, Objects(qs)
    {
      && Grid(qs) && me < |qs| && SystemInv(SystemOf(qs)) && Led(start, steps, SystemOf(qs))
      && me !in asleep && Without(steps, asleep)
    }

    constructor (qs: seq<seq<MessageQueue>>, me: nat, run: Item -> int, others: nat -> seq<Step>, asleep: set<nat>)
      requires Grid(qs) && me < |qs| && SystemInv(SystemOf(qs)) && me !in asleep
      ensures Valid() && this.qs == qs && this.me == me && this.run == run && this.asleep == asleep
      ensures start == SystemOf(qs)
    {
      this.qs, this.me, this.run, this.others, this.asleep, clock := qs, me, run, others, asleep, 0;
      ghost var s := SystemOf(qs);
      start, steps := s, [];
      new;
      SameSystem(SystemOf(qs), s);
    }

    predicate CanStep(st: Step)
      requires Grid(qs)
      reads Objects(qs)
      ensures CanStep(st) == StepEnabled(SystemOf(qs), st)
    {
      && st.core < |qs| && st.other < |qs| && st.core != st.other
      && qs[Row(st)][Column(st)].CanAct(st.action)
    }

    /** One atomic step of any core. */
    method Take(st: Step)
      requires Valid() && StepEnabled(SystemOf(qs), st) && st.core !in asleep
      modifies Objects(qs), this`steps
      ensures Valid() && SystemOf(qs) == StepNext(old(SystemOf(qs)), st)
    {
      hide Inv, Next, Enabled, SystemOf, Led, StepNext;
      ghost var s := SystemOf(qs);
      LedOnce(start, steps, s, st);
      StepAt(s, st, me, me);
      var q := qs[Row(st)][Column(st)];
      q.Apply(st.action);
      forall x, y | 0 <= x < |qs| && 0 <= y < |qs| ensures SystemOf(qs)[x][y] == StepNext(s, st)[x][y] {
        StepAt(s, st, x, y);
      }
      SameSystem(SystemOf(qs), StepNext(s, st));
      steps := steps + [st];
    }

    /** The other cores, and if mine is set also this one by submitting, take the steps they can. */
    method Pause(mine: bool)
      requires Valid()
      modifies Objects(qs), this`steps, this`clock
      ensures Valid() && Quiet(old(SystemOf(qs)), SystemOf(qs), me, NONE, NONE)
      ensures !mine ==> Still(old(SystemOf(qs)), SystemOf(qs), me)
    {
      hide SystemInv, SystemOf, Led, StepNext, StepEnabled, Quiet, Still;
      ghost var s0 := SystemOf(qs);
      QuietSame(s0, me);
      StillSame(s0, me);
      var list, i := others(clock), 0;
      clock := clock + 1;
      while i < |list|
        invariant 0 <= i <= |list| && Valid() && Quiet(s0, SystemOf(qs), me, NONE, NONE)
        invariant !mine ==> Still(s0, SystemOf(qs), me)
      {
        var st := list[i];
        if Allowed(st, me, mine) && st.core !in asleep && CanStep(st) {
          ghost var s := SystemOf(qs);
          PauseQuiet(s, st, me, mine);
          if !mine {
            PauseStill(s, st, me);
          }
          Take(st);
          QuietThen(s0, s, SystemOf(qs), me, NONE, NONE);
          if !mine {
            StillThen(s0, s, SystemOf(qs), me);
          }
        }
        i := i + 1;
      }
    }

    /** An action on the queue received on from i, and a pause. */
    method Receive(i: nat, a: Action, mine: bool) returns (ghost q: Queue)
      requires Valid() && i < |qs| && i != me && RoleOf(a) == Receiver && Enabled(qs[me][i].State(), a)
      modifies Objects(qs), this`steps, this`clock
      ensures Valid() && Quiet(old(SystemOf(qs)), SystemOf(qs), me, i, NONE)
      ensures q == Next(old(qs[me][i].State()), a) && QuietRx(q, qs[me][i].State())
    {
      hide SystemInv, SystemOf, Led, StepNext, StepEnabled, Enabled, Next, QuietRx, QuietTx;
      ghost var s0 := SystemOf(qs);
      ReceiveQuiet(s0, me, i, a);
      Take(Step(me, i, a));
      ghost var s := SystemOf(qs);
      q := s[me][i];
      Pause(mine);
      QuietMore(s, SystemOf(qs), me, i, NONE);
      QuietThen(s0, s, SystemOf(qs), me, i, NONE);
    }

    /** An action on the queue sent on to i, and a pause. */
    method Send(i: nat, a: Action, mine: bool) returns (ghost q: Queue)
      requires Valid() && i < |qs| && i != me && RoleOf(a) == Sender && Enabled(qs[i][me].State(), a)
      modifies Objects(qs), this`steps, this`clock
      ensures Valid() && Quiet(old(SystemOf(qs)), SystemOf(qs), me, NONE, i)
      ensures a.MovePending? ==> Quiet(old(SystemOf(qs)), SystemOf(qs), me, NONE, NONE)
      ensures q == Next(old(qs[i][me].State()), a) && QuietTx(q, qs[i][me].State())
      ensures !mine ==> StillTx(q, qs[i][me].State())
    {
      hide SystemInv, SystemOf, Led, StepNext, StepEnabled, Enabled, Next, QuietRx, QuietTx, StillTx;
      ghost var s0 := SystemOf(qs);
      SendQuiet(s0, me, i, a);
      Take(Step(me, i, a));
      ghost var s := SystemOf(qs);
      q := s[i][me];
      Pause(mine);
      QuietMore(s, SystemOf(qs), me, NONE, i);
      QuietThen(s0, s, SystemOf(qs), me, NONE, i);
      if a.MovePending? {
        QuietThen(s0, s, SystemOf(qs), me, NONE, NONE);
      }
    }

    /** flush_response_batch on the queue received on from i. */
    method FlushResponses(i: nat)
      requires Valid() && i < |qs| && i != me
      modifies Objects(qs), this`steps, this`clock
      ensures Valid() && Quiet(old(SystemOf(qs)), SystemOf(qs), me, i, NONE)
      ensures Flushed(old(qs[me][i].State()), qs[me][i].State())
    {
      hide Inv, SystemOf, Led, Quiet;
      QuietSame(SystemOf(qs), me);
      QuietMore(SystemOf(qs), SystemOf(qs), me, i, NONE);
      var q := qs[me][i];
      RingBounds(q.State());
      if q.completedFifo != [] {
        var k := Min(QUEUE_LENGTH - |q.completed|, |q.completedFifo|);
        ghost var r := Receive(i, SmpProtocol.FlushResponses(k), false);
      }
    }

    /** flush_request_batch on the queue sent on to i. */
    method FlushRequests(i: nat)
      requires Valid() && i < |qs| && i != me
      modifies Objects(qs), this`steps, this`clock
      ensures Valid() && Quiet(old(SystemOf(qs)), SystemOf(qs), me, NONE, NONE)
      ensures Moved(old(qs[i][me].State()), qs[i][me].State())
    {
      hide Inv, SystemOf, Led, Quiet;
      QuietSame(SystemOf(qs), me);
      var q := qs[i][me];
      RingBounds(q.State());
      if q.pendingFifo != [] {
        var k := Min(QUEUE_LENGTH - |q.pending|, |q.pendingFifo|);
        ghost var r := Send(i, MovePending(k), false);
      }
    }

    /** The two pops of process_queue on the request ring. */
    method PopRequests(i: nat) returns (nr: nat)
      requires Valid() && i < |qs| && i != me && qs[me][i].inProcess == [] && qs[me][i].pending != []
      modifies Objects(qs), this`steps, this`clock
      ensures Valid() && Quiet(old(SystemOf(qs)), SystemOf(qs), me, i, NONE)
      ensures Popped(old(qs[me][i].State()), qs[me][i].State(), nr)
    {
      hide Inv, SystemOf, Led, Quiet;
      ghost var s0 := SystemOf(qs);
      ghost var q := Receive(i, PopPending(1), false);
      ghost var s := SystemOf(qs);
      RingBounds(qs[me][i].State());
      nr := |qs[me][i].pending|;
      q := Receive(i, PopPending(nr), false);
      QuietThen(s0, s, SystemOf(qs), me, i, NONE);
      CountedWaiting(s0[me][i]);
      CountedWaiting(qs[me][i].State());
    }

    /** process and respond, with pauses in which the function may also have submitted work. */
    method RunItem(i: nat, x: Item)
      requires Valid() && i < |qs| && i != me && qs[me][i].inProcess != [] && qs[me][i].inProcess[0] == x
      modifies Objects(qs), this`steps, this`clock
      ensures Valid() && Quiet(old(SystemOf(qs)), SystemOf(qs), me, i, NONE)
      ensures var q, r := old(qs[me][i].State()), qs[me][i].State();
              && r.inProcess == q.inProcess[1..] && r.ran == q.ran + [Job(x, run(x))] && q.submitted <= r.submitted
              && Taken(q) <= Taken(r) && Answering(q, r)
    {
      hide Inv, SystemOf, Led, Quiet;
      ghost var s0 := SystemOf(qs);
      ghost var q := Receive(i, Process(run(x)), true);
      ghost var s, r := SystemOf(qs), qs[me][i].State();
      FlushResponses(i);
      QuietThen(s0, s, SystemOf(qs), me, i, NONE);
      FlushedAnswers(r, qs[me][i].State());
    }

    /** The loop of process_queue over the popped requests, of which the first is func. */
    method RunBatch(i: nat, func: Item, items: seq<Item>)
      requires Valid() && i < |qs| && i != me && qs[me][i].inProcess == [func] + items
      modifies Objects(qs), this`steps, this`clock
      ensures Valid() && Quiet(old(SystemOf(qs)), SystemOf(qs), me, i, NONE)
      ensures var q, r := old(qs[me][i].State()), qs[me][i].State();
              && r.inProcess == [] && r.ran == q.ran + Results([func] + items, run) && q.submitted <= r.submitted
              && Taken(q) <= Taken(r) && Answering(q, r)
    {
      hide SystemInv, SystemOf, Led, Quiet, Results, RanTo;
      ghost var s0, q0, batch := SystemOf(qs), qs[me][i].State(), qs[me][i].inProcess;
      QuietSame(s0, me);
      QuietMore(s0, s0, me, i, NONE);
      RanToNone(q0, run);
      var x, k, nr := func, 0, |items|;
      while true
        invariant 0 <= k <= nr && x == batch[k] && Valid() && Quiet(s0, SystemOf(qs), me, i, NONE)
        invariant RanTo(q0, qs[me][i].State(), k, run)
        decreases nr - k
      {
        ghost var s, q := SystemOf(qs), qs[me][i].State();
        RanToNext(q0, q, k, run);
        RunItem(i, x);
        QuietThen(s0, s, SystemOf(qs), me, i, NONE);
        RanToMore(q0, q, qs[me][i].State(), k, run);
        if k == nr {
          break;
        }
        x := items[k];
        k := k + 1;
      }
      RanToAll(q0, qs[me][i].State(), run);
    }

    /**
     * process_incoming: what was popped runs, in order. The loop also reads the array element after the
     * last one; overread says that this lies past the array's 128 elements.
     */
    method ProcessIncoming(i: nat) returns (count: nat, overread: bool)
      requires Valid() && i < |qs| && i != me && qs[me][i].inProcess == []
      modifies Objects(qs), this`steps, this`clock
      ensures Valid() && Quiet(old(SystemOf(qs)), SystemOf(qs), me, i, NONE)
      ensures Ran(old(qs[me][i].State()), qs[me][i].State(), count, run)
      ensures overread <==> count == QUEUE_LENGTH + 1
      ensures overread ==> var q := old(qs[me][i].State());
                           |q.pending| + |q.pendingFifo| + |qs[me][i].submitted| - |q.submitted| > QUEUE_LENGTH
    {
      hide Inv, SystemOf, Led, Quiet, Results, Ran, Popped;
      ghost var s0, q0 := SystemOf(qs), qs[me][i].State();
      QuietSame(s0, me);
      QuietMore(s0, s0, me, i, NONE);
      if qs[me][i].pending == [] {
        RanNothing(q0, run);
        return 0, false;
      }
      var nr := PopRequests(i);
      ghost var s, q := SystemOf(qs), qs[me][i].State();
      PoppedBatch(q0, q, nr);
      var batch := qs[me][i].inProcess;
      TakeOne(batch);
      SplitAt(batch, 1);
      RunBatch(i, batch[0], batch[1..]);
      QuietThen(s0, s, SystemOf(qs), me, i, NONE);
      count, overread := nr + 1, nr == QUEUE_LENGTH;
      BatchRan(q0, q, qs[me][i].State(), nr, run);
    }

    /** The two pops on the response ring. */
    method PopResponses(i: nat) returns (nr: nat)
      requires Valid() && i < |qs| && i != me && qs[i][me].completing == [] && qs[i][me].completed != []
      modifies Objects(qs), this`steps, this`clock
      ensures Valid() && Quiet(old(SystemOf(qs)), SystemOf(qs), me, NONE, i)
      ensures PoppedAnswers(old(qs[i][me].State()), qs[i][me].State(), nr)
    {
      hide Inv, SystemOf, Led, Quiet;
      ghost var s0 := SystemOf(qs);
      ghost var q := Send(i, PopCompleted(1), false);
      ghost var s := SystemOf(qs);
      RingBounds(qs[i][me].State());
      nr := |qs[i][me].completed|;
      q := Send(i, PopCompleted(nr), false);
      QuietThen(s0, s, SystemOf(qs), me, NONE, i);
      Counted(s0[i][me]);
      Counted(qs[i][me].State());
    }

    /** A callback, which may also submit work. */
    method CompleteItem(i: nat, job: Job)
      requires Valid() && i < |qs| && i != me && qs[i][me].completing != [] && qs[i][me].completing[0] == job
      modifies Objects(qs), this`steps, this`clock
      ensures Valid() && Quiet(old(SystemOf(qs)), SystemOf(qs), me, NONE, i)
      ensures var q, r := old(qs[i][me].State()), qs[i][me].State();
              && r.completing == q.completing[1..] && r.done == q.done + [job] && q.ran <= r.ran
              && Entered(q) <= Entered(r)
    {
      hide SystemInv, SystemOf, Led, Quiet;
      ghost var q := Send(i, Complete, true);
    }

    /** The loop of process_queue over the popped answers, of which the first is func. */
    method CompleteBatch(i: nat, func: Job, items: seq<Job>)
      requires Valid() && i < |qs| && i != me && qs[i][me].completing == [func] + items
      modifies Objects(qs), this`steps, this`clock
      ensures Valid() && Quiet(old(SystemOf(qs)), SystemOf(qs), me, NONE, i)
      ensures var q, r := old(qs[i][me].State()), qs[i][me].State();
              && r.completing == [] && r.done == q.done + ([func] + items) && q.ran <= r.ran
              && Entered(q) <= Entered(r)
    {
      hide SystemInv, SystemOf, Led, Quiet, CalledTo, Entered;
      ghost var s0, q0, batch := SystemOf(qs), qs[i][me].State(), qs[i][me].completing;
      QuietSame(s0, me);
      QuietMore(s0, s0, me, NONE, i);
      CalledToNone(q0);
      var x, k, nr := func, 0, |items|;
      while true
        invariant 0 <= k <= nr && x == batch[k] && Valid() && Quiet(s0, SystemOf(qs), me, NONE, i)
        invariant CalledTo(q0, qs[i][me].State(), k)
        decreases nr - k
      {
        ghost var s, q := SystemOf(qs), qs[i][me].State();
        CalledToNext(q0, q, k);
        CompleteItem(i, x);
        QuietThen(s0, s, SystemOf(qs), me, NONE, i);
        CalledToMore(q0, q, qs[i][me].State(), k);
        if k == nr {
          break;
        }
        x := items[k];
        k := k + 1;
      }
      CalledToAll(q0, qs[i][me].State());
    }

    /** process_completions: the callbacks of what was popped are called, in order, with the results. */
    method ProcessCompletions(i: nat) returns (count: nat, overread: bool)
      requires Valid() && i < |qs| && i != me && qs[i][me].completing == []
      modifies Objects(qs), this`steps, this`clock
      ensures Valid() && Quiet(old(SystemOf(qs)), SystemOf(qs), me, NONE, i)
      ensures CalledBack(old(qs[i][me].State()), qs[i][me].State(), count)
      ensures overread <==> count == QUEUE_LENGTH + 1
      ensures overread ==> Outstanding(old(qs[i][me].State())) > QUEUE_LENGTH
    {
      hide Inv, SystemOf, Led, Quiet, CalledBack, PoppedAnswers;
      ghost var s0, q0 := SystemOf(qs), qs[i][me].State();
      QuietSame(s0, me);
      QuietMore(s0, s0, me, NONE, i);
      if qs[i][me].completed == [] {
        CalledNothing(q0);
        return 0, false;
      }
      var nr := PopResponses(i);
      ghost var s, q := SystemOf(qs), qs[i][me].State();
      PoppedSome(q0, q, nr);
      var batch := qs[i][me].completing;
      TakeOne(batch);
      SplitAt(batch, 1);
      CompleteBatch(i, batch[0], batch[1..]);
      QuietThen(s0, s, SystemOf(qs), me, NONE, i);
      count, overread := nr + 1, nr == QUEUE_LENGTH;
      BatchCalledBack(q0, q, qs[i][me].State(), nr);
    }

    /** One round of the poll: the work core i has sent, and the answers to what was sent to it. */
    method Round(i: nat) returns (got: bool, overread: bool)
      requires Valid() && i < |qs| && i != me && qs[me][i].inProcess == [] && qs[i][me].completing == []
      modifies Objects(qs), this`steps, this`clock
      ensures Valid() && RoundDone(old(SystemOf(qs)), SystemOf(qs), me, i, got)
    {
      hide Inv, SystemOf, Led, Quiet, Ran, CalledBack, QuietRx, QuietTx, RoundDone, Moved;
      ghost var s0 := SystemOf(qs);
      FlushResponses(i);
      ghost var s1 := SystemOf(qs);
      var a, o := ProcessIncoming(i);
      ghost var s2 := SystemOf(qs);
      FlushRequests(i);
      ghost var s3 := SystemOf(qs);
      QuietMore(s2, s3, me, i, NONE);
      QuietThen(s0, s1, s2, me, i, NONE);
      QuietThen(s0, s2, s3, me, i, NONE);
      QuietIdleTx(s0, s3, me, i);
      var b, p := ProcessCompletions(i);
      RoundComposes(s0, s1, s2, s3, SystemOf(qs), me, i, a, b, run);
      got, overread := a + b != 0, o || p;
    }

    /**
     * poll_queues: for every other core, everything it had sent has run and everything it had answered
     * has been called back when the poll ends. The whole poll, with all the other cores have done in
     * its pauses, is a run of the protocol. It reports whether it has run or called back anything,
     * which is so whenever something was waiting.
     */
    method PollQueues() returns (got: bool)
      requires Valid() && Idle(SystemOf(qs), me)
      modifies Objects(qs), this`steps, this`clock
      ensures Valid() && Polled(old(SystemOf(qs)), SystemOf(qs), me, |qs|)
      ensures got == Worked(old(SystemOf(qs)), SystemOf(qs), me)
      ensures forall i :: 0 <= i < |qs| && i != me && Busy(old(SystemOf(qs)), me, i) ==> got
    {
      hide SystemInv, SystemOf, Led, Polled, Worked, Busy, RoundDone, Idle, Inv;
      ghost var s0 := SystemOf(qs);
      PolledNone(s0, me);
      got := false;
      var i := 0;
      while i < |qs|
        invariant 0 <= i <= |qs| && Valid() && Polled(s0, SystemOf(qs), me, i)
        invariant got == Worked(s0, SystemOf(qs), me)
      {
        ghost var s := SystemOf(qs);
        PolledIdle(s0, s, me, i);
        if i != me {
          var g, overread := Round(i);
          PolledMore(s0, s, SystemOf(qs), me, i, g);
          got := got || g;
        }
        i := i + 1;
      }
      BusyWorked(s0, SystemOf(qs), me);
    }
  }

  /** The staged answers without as many as the ring had room for; nothing else of the receiver changed. */
  predicate Flushed(q: Queue, r: Queue) {
    && |q.completed| <= QUEUE_LENGTH
    && r.completedFifo == q.completedFifo[Min(QUEUE_LENGTH - |q.completed|, |q.completedFifo|)..]
    && r.inProcess == q.inProcess && r.ran == q.ran
    && q.pending <= r.pending && q.submitted <= r.submitted && Taken(q) <= Taken(r)
  }

  lemma FlushedAnswers(q: Queue, r: Queue)
    requires Inv(q) && Flushed(q, r)
    ensures Answering(q, r)
  {
    Counted(q);
  }

  /** The staged requests without as many as the ring had room for; nothing else of the sender changed. */
  predicate Moved(q: Queue, r: Queue) {
    && |q.pending| <= QUEUE_LENGTH
    && r.pendingFifo == q.pendingFifo[Min(QUEUE_LENGTH - |q.pending|, |q.pendingFifo|)..]
    && r.submitted == q.submitted
  }

  lemma MovedRequests(q: Queue, r: Queue)
    requires Inv(q) && Moved(q, r)
    ensures Requesting(q, r)
  {
    CountedWaiting(q);
  }

  /** The first k items of the batch q had popped have run. */
  ghost predicate RanTo(q: Queue, r: Queue, k: nat, run: Item -> int) {
    && k <= |q.inProcess| && r.inProcess == q.inProcess[k..] && q.submitted <= r.submitted
    && r.ran == q.ran + Results(q.inProcess[..k], run)
    && Taken(q) <= Taken(r) && (k > 0 ==> Answering(q, r))
  }

  lemma RanToNone(q: Queue, run: Item -> int)
    ensures RanTo(q, q, 0, run)
  {
    NoResults(q.ran, q.inProcess, run);
  }

  lemma RanToNext(q: Queue, r: Queue, k: nat, run: Item -> int)
    requires RanTo(q, r, k, run) && k < |q.inProcess|
    ensures r.inProcess != [] && r.inProcess[0] == q.inProcess[k]
  {}

  lemma RanToMore(q: Queue, r: Queue, t: Queue, k: nat, run: Item -> int)
    requires RanTo(q, r, k, run) && k < |q.inProcess| && r.inProcess != []
    requires t.inProcess == r.inProcess[1..] && r.submitted <= t.submitted
    requires Taken(r) <= Taken(t) && Answering(r, t)
    requires t.ran == r.ran + [Job(q.inProcess[k], run(q.inProcess[k]))]
    ensures RanTo(q, t, k + 1, run)
  {
    hide Results;
    ResultsMore(q.inProcess, k, run);
    Reassociate(q.ran, Results(q.inProcess[..k], run), [Job(q.inProcess[k], run(q.inProcess[k]))]);
  }

  lemma RanToAll(q: Queue, r: Queue, run: Item -> int)
    requires RanTo(q, r, |q.inProcess|, run)
    ensures r.inProcess == [] && r.ran == q.ran + Results(q.inProcess, run) && q.submitted <= r.submitted
    ensures Taken(q) <= Taken(r) && (q.inProcess != [] ==> Answering(q, r))
  {
    hide Results;
    assert q.inProcess[..|q.inProcess|] == q.inProcess;
  }

  /** The callbacks of the first k answers q had popped have been called. */
  ghost predicate CalledTo(q: Queue, r: Queue, k: nat) {
    && k <= |q.completing| && r.completing == q.completing[k..] && q.ran <= r.ran
    && r.done == q.done + q.completing[..k] && Entered(q) <= Entered(r)
  }

  lemma CalledToNone(q: Queue)
    ensures CalledTo(q, q, 0)
  {}

  lemma CalledToNext(q: Queue, r: Queue, k: nat)
    requires CalledTo(q, r, k) && k < |q.completing|
    ensures r.completing != [] && r.completing[0] == q.completing[k]
  {}

  lemma CalledToMore(q: Queue, r: Queue, t: Queue, k: nat)
    requires CalledTo(q, r, k) && k < |q.completing| && r.completing != []
    requires t.completing == r.completing[1..] && r.ran <= t.ran && t.done == r.done + [q.completing[k]]
    requires Entered(r) <= Entered(t)
    ensures CalledTo(q, t, k + 1)
  {
    Reassociate(q.done, q.completing[..k], [q.completing[k]]);
    assert q.completing[..k + 1] == q.completing[..k] + [q.completing[k]];
  }

  lemma CalledToAll(q: Queue, r: Queue)
    requires CalledTo(q, r, |q.completing|)
    ensures r.completing == [] && r.done == q.done + q.completing && q.ran <= r.ran && Entered(q) <= Entered(r)
  {
    assert q.completing[..|q.completing|] == q.completing;
  }

  lemma RanNothing(q: Queue, run: Item -> int)
    requires Inv(q) && q.pending == [] && q.inProcess == []
    ensures Ran(q, q, 0, run)
  {
    NoResults(q.ran, q.submitted, run);
    BatchIsOldest(q);
  }

  lemma PoppedBatch(q: Queue, r: Queue, nr: nat)
    requires Popped(q, r, nr)
    ensures |r.inProcess| == nr + 1
  {}

  lemma BatchRan(q: Queue, r: Queue, t: Queue, nr: nat, run: Item -> int)
    requires Popped(q, r, nr) && Inv(r) && t.inProcess == [] && r.submitted <= t.submitted
    requires Taken(r) <= Taken(t) && Answering(r, t)
    requires t.ran == r.ran + Results(r.inProcess, run)
    ensures Ran(q, t, nr + 1, run)
    ensures nr == QUEUE_LENGTH ==> |q.pending| + |q.pendingFifo| + |t.submitted| - |q.submitted| > QUEUE_LENGTH
  {
    hide Inv, Results;
    BatchIsOldest(r);
    SliceOfLonger(r.submitted, t.submitted, |q.ran|, |q.ran| + nr + 1);
  }

  /** The state after the two pops on the response ring. */
  ghost predicate PoppedAnswers(q: Queue, r: Queue, nr: nat) {
    && |r.completing| == nr + 1 && nr <= QUEUE_LENGTH && |q.completed| <= nr + 1
    && r.done == q.done && q.ran <= r.ran && Entered(q) <= Entered(r)
    && (nr == QUEUE_LENGTH ==> Outstanding(q) > QUEUE_LENGTH)
  }

  /** The oldest count answers have reached their callbacks, and at least all that the ring held. */
  ghost predicate CalledBack(q: Queue, r: Queue, count: nat) {
    && r.completing == [] && q.ran <= r.ran && |q.done| + count <= |r.ran|
    && r.done == q.done + r.ran[|q.done|..|q.done| + count]
    && |q.completed| <= count <= QUEUE_LENGTH + 1 && Entered(q) <= Entered(r)
  }

  lemma CalledNothing(q: Queue)
    requires Inv(q) && q.completed == [] && q.completing == []
    ensures CalledBack(q, q, 0)
  {
    AnswersAreOldest(q);
  }

  lemma PoppedSome(q: Queue, r: Queue, nr: nat)
    requires PoppedAnswers(q, r, nr)
    ensures |r.completing| == nr + 1 && (nr == QUEUE_LENGTH ==> Outstanding(q) > QUEUE_LENGTH)
  {}

  lemma BatchCalledBack(q: Queue, r: Queue, t: Queue, nr: nat)
    requires PoppedAnswers(q, r, nr) && Inv(r) && t.completing == [] && r.ran <= t.ran
    requires t.done == r.done + r.completing && Entered(r) <= Entered(t)
    ensures CalledBack(q, t, nr + 1)
  {
    hide Inv;
    AnswersAreOldest(r);
    SliceOfLonger(r.ran, t.ran, |q.done|, |q.done| + nr + 1);
  }

  lemma CountedWaiting(q: Queue)
    requires Inv(q)
    ensures |q.submitted| == |q.ran| + |q.inProcess| + |q.pending| + |q.pendingFifo|
  {}

  /** The state after the two pops on the request ring. */
  ghost predicate Popped(q: Queue, r: Queue, nr: nat) {
    && |r.inProcess| == nr + 1 && nr <= QUEUE_LENGTH && |q.pending| <= nr + 1
    && r.ran == q.ran && q.submitted <= r.submitted && Taken(q) <= Taken(r)
    && (nr == QUEUE_LENGTH ==> |q.pending| + |q.pendingFifo| + |r.submitted| - |q.submitted| > QUEUE_LENGTH)
  }

  /** The oldest count items not yet run have run, and at least all that the ring held; answers were sent. */
  ghost predicate Ran(q: Queue, r: Queue, count: nat, run: Item -> int) {
    && r.inProcess == [] && q.submitted <= r.submitted && |q.ran| + count <= |r.submitted|
    && r.ran == q.ran + Results(r.submitted[|q.ran|..|q.ran| + count], run)
    && |q.pending| <= count <= QUEUE_LENGTH + 1
    && Taken(q) <= Taken(r) && (if count == 0 then r.completedFifo == q.completedFifo else Answering(q, r))
  }

  // ---------- The whole poll ----------

  /** The core is not in the middle of a poll. */
  predicate Idle(s: System, me: nat)
    requires Square(s) && me < |s|
  {
    forall i :: 0 <= i < |s| && i != me ==> s[me][i].inProcess == [] && s[i][me].completing == []
  }

  /**
   * What waited for the core on its two queues with core i at first has been done, and what it had
   * staged for i is on its way, as far as the rings have room.
   */
  predicate Served(s0: System, s: System, me: nat, i: nat)
    requires Square(s0) && Square(s) && |s| == |s0| && me < |s| && i < |s|
  {
    && |s0[me][i].ran| + |s0[me][i].pending| <= |s[me][i].ran|
    && |s0[i][me].done| + |s0[i][me].completed| <= |s[i][me].done|
    && Answering(s0[me][i], s[me][i]) && Requesting(s0[i][me], s[i][me])
  }

  /** They are untouched. */
  predicate Waits(s0: System, s: System, me: nat, i: nat)
    requires Square(s0) && Square(s) && |s| == |s0| && me < |s| && i < |s|
  {
    QuietRx(s0[me][i], s[me][i]) && QuietTx(s0[i][me], s[i][me])
  }

  /** The rounds before i are done, those from i on have not started. */
  ghost predicate Polled(s0: System, s: System, me: nat, i: nat) {
    && Square(s0) && Square(s) && |s| == |s0| && me < |s| && Idle(s, me)
    && (forall j :: 0 <= j < i && j < |s| && j != me ==> Served(s0, s, me, j))
    && (forall j :: i <= j < |s| && j != me ==> Waits(s0, s, me, j))
  }

  /** The poll has run something or called something back. */
  ghost predicate Worked(s0: System, s: System, me: nat) {
    && Square(s0) && Square(s) && |s| == |s0| && me < |s|
    && exists j :: 0 <= j < |s| && j != me && DidFor(s0, s, me, j)
  }

  predicate DidFor(s0: System, s: System, me: nat, j: nat)
    requires Square(s0) && Square(s) && |s| == |s0| && me < |s| && j < |s|
  {
    |s0[me][j].ran| < |s[me][j].ran| || |s0[j][me].done| < |s[j][me].done|
  }

  predicate Busy(s: System, me: nat, i: nat)
    requires Square(s) && me < |s| && i < |s|
  {
    s[me][i].pending != [] || s[i][me].completed != []
  }

  lemma QuietIdleTx(s: System, s': System, me: nat, i: nat)
    requires Quiet(s, s', me, i, NONE) && i < |s| && i != me
    ensures s'[i][me].completing == s[i][me].completing
  {
    assert QuietTx(s[i][me], s'[i][me]);
  }

  /** What a round with core i does. */
  ghost predicate RoundDone(s: System, s': System, me: nat, i: nat, got: bool) {
    && Quiet(s, s', me, i, i) && i < |s| && i != me && Served(s, s', me, i)
    && s'[me][i].inProcess == [] && s'[i][me].completing == []
    && (got <==> DidFor(s, s', me, i))
  }

  lemma RoundComposes(s0: System, s1: System, s2: System, s3: System, s4: System, me: nat, i: nat, a: nat, b: nat,
                      run: Item -> int)
    requires Quiet(s0, s1, me, i, NONE) && Quiet(s1, s2, me, i, NONE)
    requires Quiet(s2, s3, me, NONE, NONE) && Quiet(s3, s4, me, NONE, i)
    requires i < |s0| && i != me && Inv(s0[me][i]) && Inv(s2[i][me])
    requires Flushed(s0[me][i], s1[me][i]) && Ran(s1[me][i], s2[me][i], a, run)
    requires Moved(s2[i][me], s3[i][me]) && CalledBack(s3[i][me], s4[i][me], b)
    ensures RoundDone(s0, s4, me, i, a + b != 0)
  {
    RoundQuiet(s0, s1, s2, s3, s4, me, i);
    assert QuietRx(s2[me][i], s3[me][i]) && QuietRx(s3[me][i], s4[me][i]);
    assert QuietTx(s0[i][me], s1[i][me]) && QuietTx(s1[i][me], s2[i][me]) && QuietTx(s2[i][me], s3[i][me]);
    hide Quiet;
    ReceivedInRound(s0[me][i], s1[me][i], s2[me][i], s3[me][i], s4[me][i], a, run);
    SentInRound(s0[i][me], s1[i][me], s2[i][me], s3[i][me], s4[i][me], b);
  }

  /** The queue received on, through a round. */
  lemma ReceivedInRound(q0: Queue, q1: Queue, q2: Queue, q3: Queue, q4: Queue, a: nat, run: Item -> int)
    requires Inv(q0) && Flushed(q0, q1) && Ran(q1, q2, a, run) && QuietRx(q2, q3) && QuietRx(q3, q4)
    ensures |q0.ran| + |q0.pending| <= |q4.ran| == |q0.ran| + a && q4.inProcess == [] && Answering(q0, q4)
  {
    hide Inv, Results;
    FlushedAnswers(q0, q1);
  }

  /** The queue sent on. */
  lemma SentInRound(q0: Queue, q1: Queue, q2: Queue, q3: Queue, q4: Queue, b: nat)
    requires QuietTx(q0, q1) && QuietTx(q1, q2) && QuietTx(q2, q3) && Inv(q2) && Moved(q2, q3)
    requires CalledBack(q3, q4, b)
    ensures |q0.done| + |q0.completed| <= |q4.done| == |q0.done| + b && q4.completing == [] && Requesting(q0, q4)
  {
    hide Inv;
    MovedRequests(q2, q3);
  }

  lemma RoundQuiet(s0: System, s1: System, s2: System, s3: System, s4: System, me: nat, i: nat)
    requires Quiet(s0, s1, me, i, NONE) && Quiet(s1, s2, me, i, NONE)
    requires Quiet(s2, s3, me, NONE, NONE) && Quiet(s3, s4, me, NONE, i)
    ensures Quiet(s0, s4, me, i, i)
  {
    QuietLess(s0, s1, me, i, NONE, i);
    QuietLess(s1, s2, me, i, NONE, i);
    QuietLess(s2, s3, me, NONE, NONE, i);
    QuietLess(s3, s4, me, NONE, i, i);
    hide Quiet;
    QuietThen(s0, s1, s2, me, i, i);
    QuietThen(s0, s2, s3, me, i, i);
    QuietThen(s0, s3, s4, me, i, i);
  }

  lemma QuietLess(s: System, t: System, me: nat, rx: int, tx: int, i: int)
    requires Quiet(s, t, me, rx, tx) && (rx == NONE || rx == i) && (tx == NONE || tx == i)
    ensures Quiet(s, t, me, i, i)
  {
    hide QuietRx, QuietTx;
  }

  lemma PolledNone(s: System, me: nat)
    requires Square(s) && me < |s| && Idle(s, me)
    ensures Polled(s, s, me, 0) && !Worked(s, s, me)
  {}

  lemma PolledIdle(s0: System, s: System, me: nat, i: nat)
    requires Polled(s0, s, me, i) && i < |s|
    ensures Square(s) && me < |s|
    ensures i != me ==> s[me][i].inProcess == [] && s[i][me].completing == []
    ensures i == me ==> Polled(s0, s, me, i + 1)
  {
    hide Served, Waits;
  }

  /** A quiet pair of queues stays served, or waiting, and nothing has been done for it. */
  lemma QuietPair(s0: System, s: System, t: System, me: nat, i: nat, j: nat)
    requires Quiet(s, t, me, i, i) && Square(s0) && |s0| == |s| && j < |s| && j != me && j != i
    ensures Served(s0, s, me, j) ==> Served(s0, t, me, j)
    ensures Waits(s0, s, me, j) ==> Waits(s0, t, me, j)
    ensures DidFor(s0, t, me, j) == DidFor(s0, s, me, j)
    ensures t[me][j].inProcess == s[me][j].inProcess && t[j][me].completing == s[j][me].completing
  {
    assert QuietRx(s[me][j], t[me][j]) && QuietTx(s[j][me], t[j][me]);
    if Waits(s0, s, me, j) {
      RxThen(s0[me][j], s[me][j], t[me][j]);
      TxThen(s0[j][me], s[j][me], t[j][me]);
    }
  }

  lemma ThisPair(s0: System, s: System, t: System, me: nat, i: nat, got: bool)
    requires RoundDone(s, t, me, i, got) && Square(s0) && |s0| == |s| && Waits(s0, s, me, i)
    ensures Served(s0, t, me, i) && DidFor(s0, t, me, i) == got && !DidFor(s0, s, me, i)
    ensures t[me][i].inProcess == [] && t[i][me].completing == []
  {}

  lemma PolledMore(s0: System, s: System, t: System, me: nat, i: nat, got: bool)
    requires Polled(s0, s, me, i) && i < |s| && i != me && RoundDone(s, t, me, i, got)
    ensures Polled(s0, t, me, i + 1)
    ensures Worked(s0, t, me) == (Worked(s0, s, me) || got)
  {
    assert Quiet(s, t, me, i, i);
    hide Quiet, Served, Waits, DidFor, RoundDone;
    ThisPair(s0, s, t, me, i, got);
    forall j: nat | j < |s| && j != me && j != i
      ensures Served(s0, s, me, j) ==> Served(s0, t, me, j)
      ensures Waits(s0, s, me, j) ==> Waits(s0, t, me, j)
      ensures DidFor(s0, t, me, j) == DidFor(s0, s, me, j)
      ensures t[me][j].inProcess == [] && t[j][me].completing == []
    {
      QuietPair(s0, s, t, me, i, j);
    }
    if Worked(s0, s, me) {
      var j :| 0 <= j < |s| && j != me && DidFor(s0, s, me, j);
      assert DidFor(s0, t, me, j);
    }
  }

  lemma BusyWorked(s0: System, s: System, me: nat)
    requires Polled(s0, s, me, |s|)
    ensures forall i :: 0 <= i < |s| && i != me && Busy(s0, me, i) ==> Worked(s0, s, me)
  {
    forall i | 0 <= i < |s| && i != me && Busy(s0, me, i) ensures Worked(s0, s, me) {
      assert Served(s0, s, me, i);
      assert DidFor(s0, s, me, i);
    }
  }
}
