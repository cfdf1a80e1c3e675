/**
 * The cross-core message queues as a state machine. The queue qs_[t][f] carries work from core f to
 * core t and the results back; each direction is an unbounded staging vector in front of a bounded
 * single-producer single-consumer ring.
 */
module SmpProtocol {

  const QUEUE_LENGTH := 128

  /** A work item, known by a number. */
  type Item = nat

  /** An item whose function has run, with what it returned. */
  datatype Job = Job(item: Item, result: int)

  /** Everything between submission and completion. */
  datatype Queue = Queue(
    pendingFifo: seq<Item>,   // staged by the sender
    pending: seq<Item>,       // request ring
    inProcess: seq<Item>,     // popped by the receiver, not yet processed
    completedFifo: seq<Job>,  // processed, staged by the receiver
    completed: seq<Job>,      // response ring
    completing: seq<Job>,     // popped by the sender, callback not yet called
    done: seq<Job>,           // callbacks called, with the result they were given
    submitted: seq<Item>,     // every item ever submitted
    ran: seq<Job>)            // every run of an item's function

  const EMPTY := Queue([], [], [], [], [], [], [], [], [])

  datatype Role = Sender | Receiver

  /**
   * The atomic actions. A ring operation may see an old index of the other end, so it moves any
   * number of items up to what there is and what there is room for.
   */
  datatype Action =
    | Submit(x: Item)
    | MovePending(k: nat)
    | PopPending(k: nat)
    | Process(result: int)
    | FlushResponses(k: nat)
    | PopCompleted(k: nat)
    | Complete

  /** Which of the queue's two cores takes the action. */
  function RoleOf(a: Action): Role {
    match a
    case Submit(_) | MovePending(_) | PopCompleted(_) | Complete => Sender
    case PopPending(_) | Process(_) | FlushResponses(_) => Receiver
  }

  predicate Enabled(q: Queue, a: Action) {
    match a
    case Submit(_) => true
    case MovePending(k) => k <= |q.pendingFifo| && |q.pending| + k <= QUEUE_LENGTH
    case PopPending(k) => k <= |q.pending|
    case Process(_) => q.inProcess != []
    case FlushResponses(k) => k <= |q.completedFifo| && |q.completed| + k <= QUEUE_LENGTH
    case PopCompleted(k) => k <= |q.completed|
    case Complete => q.completing != []
  }

  function Next(q: Queue, a: Action): Queue
    requires Enabled(q, a)
  {
    match a
    case Submit(x) => q.(pendingFifo := q.pendingFifo + [x], submitted := q.submitted + [x])
    case MovePending(k) =>
      q.(pendingFifo := q.pendingFifo[k..], pending := q.pending + q.pendingFifo[..k])
    case PopPending(k) => q.(pending := q.pending[k..], inProcess := q.inProcess + q.pending[..k])
    case Process(r) =>
      var job := Job(q.inProcess[0], r);
      q.(inProcess := q.inProcess[1..], completedFifo := q.completedFifo + [job], ran := q.ran + [job])
    case FlushResponses(k) =>
      q.(completedFifo := q.completedFifo[k..], completed := q.completed + q.completedFifo[..k])
    case PopCompleted(k) =>
      q.(completed := q.completed[k..], completing := q.completing + q.completed[..k])
    case Complete => q.(completing := q.completing[1..], done := q.done + [q.completing[0]])
  }

  // ---------- The invariant ----------

  /** The stages behind the receiver's work, oldest item first. */
  function Answered(q: Queue): seq<Job> { q.done + q.completing + q.completed + q.completedFifo }

  /** The stages before it. */
  function Waiting(q: Queue): seq<Item> { q.inProcess + q.pending + q.pendingFifo }

  function Items(jobs: seq<Job>): seq<Item> { seq(|jobs|, i requires 0 <= i < |jobs| => jobs[i].item) }

  /**
   * The stages, oldest first, are exactly the submissions in order; the answered ones are exactly the
   * runs, each with its own result; and neither ring is overfull.
   */
  ghost predicate Inv(q: Queue) {
    && q.submitted == Items(q.ran) + Waiting(q)
    && q.ran == Answered(q)
    && |q.pending| <= QUEUE_LENGTH && |q.completed| <= QUEUE_LENGTH
  }

  /** Moving the head of one stage to the tail of the next does not change the two together. */
  lemma MoveAcross<T>(a: seq<T>, b: seq<T>, k: nat, c: seq<T>)
    requires k <= |b|
    ensures (a + b[..k]) + b[k..] + c == a + b + c
  {
    assert b == b[..k] + b[k..];
  }

  lemma ItemsAppend(jobs: seq<Job>, job: Job)
    ensures Items(jobs + [job]) == Items(jobs) + [job.item]
  {}

  lemma InvKept(q: Queue, a: Action)
    requires Inv(q) && Enabled(q, a)
    ensures Inv(Next(q, a))
  {
    hide Items;
    match a
    case Process(r) =>
      ItemsAppend(q.ran, Job(q.inProcess[0], r));
      AnsweredKept(q, a);
      WaitingKept(q, a);
      ProcessKeeps(Items(q.ran), Waiting(q));
    case Submit(x) =>
      AnsweredKept(q, a);
      WaitingKept(q, a);
      assert Items(q.ran) + Waiting(q) + [x] == Items(q.ran) + (Waiting(q) + [x]);
    case _ =>
      AnsweredKept(q, a);
      WaitingKept(q, a);
  }

  /** Only running an item adds to the answered stages, and at their end. */
  lemma AnsweredKept(q: Queue, a: Action)
    requires Enabled(q, a)
    ensures Answered(Next(q, a)) == Answered(q) + (if a.Process? then [Job(q.inProcess[0], a.result)] else [])
  {
    match a
    case Process(r) =>
    case FlushResponses(k) => MoveAcross(q.done + q.completing + q.completed, q.completedFifo, k, []);
    case PopCompleted(k) => MoveAcross(q.done + q.completing, q.completed, k, q.completedFifo);
    case Complete => MoveAcross(q.done, q.completing, 1, q.completed + q.completedFifo);
    case _ =>
  }

  /** Submitting adds to the end of the waiting stages, running takes their first, the rest is kept. */
  lemma WaitingKept(q: Queue, a: Action)
    requires Enabled(q, a)
    ensures a.Submit? ==> Waiting(Next(q, a)) == Waiting(q) + [a.x]
    ensures a.Process? ==> Waiting(q) != [] && Waiting(q)[0] == q.inProcess[0] && Waiting(Next(q, a)) == Waiting(q)[1..]
    ensures !a.Submit? && !a.Process? ==> Waiting(Next(q, a)) == Waiting(q)
  {
    match a
    case MovePending(k) => MoveAcross(q.inProcess + q.pending, q.pendingFifo, k, []);
    case PopPending(k) => MoveAcross(q.inProcess, q.pending, k, q.pendingFifo);
    case _ =>
  }

  lemma ProcessKeeps<T>(a: seq<T>, b: seq<T>)
    requires b != []
    ensures (a + [b[0]]) + b[1..] == a + b
  {}

  /**
   * In every state of the invariant: the callbacks called are a prefix of the runs, so each gets the
   * result of its own item's run and none comes before that run; the runs are a prefix of the
   * submissions, so the items run in the order submitted and each at most once.
   */
  lemma InOrder(q: Queue)
    requires Inv(q)
    ensures q.done <= q.ran && Items(q.ran) <= q.submitted && Items(q.done) <= q.submitted
  {
    assert q.ran[..|q.done|] == q.done;
    assert Items(q.done) == Items(q.ran)[..|q.done|];
  }

  lemma Counted(q: Queue)
    requires Inv(q)
    ensures |q.submitted| == |q.done| + |q.completing| + |q.completed| + |q.completedFifo|
                             + |q.inProcess| + |q.pending| + |q.pendingFifo|
  {}

  // ---------- Several actions in a row ----------

  /** The actions can be taken in turn. */
  predicate Acts(q: Queue, acts: seq<Action>)
    decreases |acts|
  {
    acts == [] || (Enabled(q, acts[0]) && Acts(Next(q, acts[0]), acts[1..]))
  }

  function Acted(q: Queue, acts: seq<Action>): Queue
    requires Acts(q, acts)
    decreases |acts|
  {
    if acts == [] then q else Acted(Next(q, acts[0]), acts[1..])
  }

  lemma {:induction false} ActsAppend(q: Queue, a: seq<Action>, b: seq<Action>)
    requires Acts(q, a) && Acts(Acted(q, a), b)
    ensures Acts(q, a + b) && Acted(q, a + b) == Acted(Acted(q, a), b)
    decreases |a|
  {
    hide Enabled, Next;
    if a == [] {
      assert a + b == b;
    } else {
      assert (a + b)[0] == a[0] && (a + b)[1..] == a[1..] + b;
      ActsAppend(Next(q, a[0]), a[1..], b);
    }
  }

  lemma ActsOnce(q: Queue, a: Action)
    requires Enabled(q, a)
    ensures Acts(q, [a]) && Acted(q, [a]) == Next(q, a)
  {
    hide Enabled, Next;
    assert [a][1..] == [];
  }

  lemma {:induction false} InvActed(q: Queue, acts: seq<Action>)
    requires Inv(q) && Acts(q, acts)
    ensures Inv(Acted(q, acts))
    decreases |acts|
  {
    hide Inv, Enabled, Next;
    if acts != [] {
      InvKept(q, acts[0]);
      InvActed(Next(q, acts[0]), acts[1..]);
    }
  }

  // ---------- Who uses which end ----------

  predicate Suffix<T(==)>(a: seq<T>, b: seq<T>) { |a| <= |b| && a == b[|b| - |a|..] }

  /**
   * Each end of each ring has one user: the sender only appends to the request ring and only takes
   * from the response ring, the receiver the other way round, and each staging vector and each popped
   * batch is touched by one of them only.
   */
  lemma EndsOwned(q: Queue, a: Action)
    requires Enabled(q, a)
    ensures var q' := Next(q, a);
            if RoleOf(a) == Sender then
              && q.pending <= q'.pending && Suffix(q'.completed, q.completed)
              && q'.inProcess == q.inProcess && q'.completedFifo == q.completedFifo && q'.ran == q.ran
            else
              && q.completed <= q'.completed && Suffix(q'.pending, q.pending)
              && q'.pendingFifo == q.pendingFifo && q'.completing == q.completing
              && q'.done == q.done && q'.submitted == q.submitted
  {
    assert q.pending[0..] == q.pending && q.completed[0..] == q.completed;
    match a
    case PopPending(k) => assert |q.pending| - |q.pending[k..]| == k;
    case PopCompleted(k) => assert |q.completed| - |q.completed[k..]| == k;
    case _ =>
  }

  predicate AllBy(acts: seq<Action>, r: Role) { forall i :: 0 <= i < |acts| ==> RoleOf(acts[i]) == r }

  /** However often the sender acts, the receiver finds its own batch as it was and the runs unchanged. */
  lemma {:induction false} SenderLeaves(q: Queue, acts: seq<Action>)
    requires Acts(q, acts) && AllBy(acts, Sender)
    ensures var r := Acted(q, acts);
            && q.pending <= r.pending && r.inProcess == q.inProcess && r.completedFifo == q.completedFifo
            && r.ran == q.ran && q.submitted <= r.submitted
    decreases |acts|
  {
    hide Enabled, Next, RoleOf;
    if acts != [] {
      EndsOwned(q, acts[0]);
      SubmittedGrows(q, acts[0]);
      assert AllBy(acts[1..], Sender);
      SenderLeaves(Next(q, acts[0]), acts[1..]);
    }
  }

  lemma SubmittedGrows(q: Queue, a: Action)
    requires Enabled(q, a)
    ensures q.submitted <= Next(q, a).submitted && q.ran <= Next(q, a).ran
  {}

  /** And the sender finds its popped answers and its callbacks as they were. */
  lemma {:induction false} ReceiverLeaves(q: Queue, acts: seq<Action>)
    requires Acts(q, acts) && AllBy(acts, Receiver)
    ensures var r := Acted(q, acts);
            && q.completed <= r.completed && r.completing == q.completing && r.pendingFifo == q.pendingFifo
            && r.done == q.done && r.submitted == q.submitted && q.ran <= r.ran
    decreases |acts|
  {
    hide Enabled, Next, RoleOf;
    if acts != [] {
      EndsOwned(q, acts[0]);
      SubmittedGrows(q, acts[0]);
      assert AllBy(acts[1..], Receiver);
      ReceiverLeaves(Next(q, acts[0]), acts[1..]);
    }
  }

  // ---------- Progress ----------

  /** How many steps the items under way still have to take, counted one item at a time. */
  function Work(q: Queue): nat {
    6 * |q.pendingFifo| + 5 * |q.pending| + 4 * |q.inProcess|
    + 3 * |q.completedFifo| + 2 * |q.completed| + |q.completing|
  }

  predicate Advances(a: Action) {
    match a
    case Submit(_) => false
    case MovePending(k) => k > 0
    case PopPending(k) => k > 0
    case FlushResponses(k) => k > 0
    case PopCompleted(k) => k > 0
    case Process(_) => true
    case Complete => true
  }

  lemma WorkShrinks(q: Queue, a: Action)
    requires Enabled(q, a) && Advances(a)
    ensures Work(Next(q, a)) < Work(q) && Next(q, a).submitted == q.submitted
  {}

  /** While something is under way some action can move it on: full rings never lock the two cores up. */
  function Advance(q: Queue): (a: Action)
    requires Inv(q) && |q.done| < |q.submitted|
    ensures Enabled(q, a) && Advances(a)
  {
    Counted(q);
    if q.completing != [] then Complete
    else if q.completed != [] then PopCompleted(1)
    else if q.completedFifo != [] then FlushResponses(1)
    else if q.inProcess != [] then Process(0)
    else if q.pending != [] then PopPending(1)
    else MovePending(1)
  }

  /**
   * Once submissions stop: no schedule takes more than Work(q) moves, and a schedule that cannot be
   * continued has completed every submission, in order.
   */
  lemma {:induction false} EverythingCompletes(q: Queue, acts: seq<Action>)
    requires Inv(q) && Acts(q, acts) && forall i :: 0 <= i < |acts| ==> Advances(acts[i])
    ensures |acts| + Work(Acted(q, acts)) <= Work(q)
    ensures Acted(q, acts).submitted == q.submitted
    ensures (forall a :: Advances(a) ==> !Enabled(Acted(q, acts), a))
            ==> Items(Acted(q, acts).done) == q.submitted
    decreases |acts|
  {
    hide Inv, Next, Work;
    if acts == [] {
      if forall a :: Advances(a) ==> !Enabled(q, a) {
        StuckIsDone(q);
      }
    } else {
      InvKept(q, acts[0]);
      WorkShrinks(q, acts[0]);
      EverythingCompletes(Next(q, acts[0]), acts[1..]);
    }
  }

  lemma StuckIsDone(q: Queue)
    requires Inv(q)
    requires forall a :: Advances(a) ==> !Enabled(q, a)
    ensures Items(q.done) == q.submitted
  {
    Counted(q);
    InOrder(q);
    if |q.done| < |q.submitted| {
      var a := Advance(q);
      assert false;
    }
  }

  // ---------- All cores ----------

  /** One step of a run: core takes the action on the queue it shares with other. */
  datatype Step = Step(core: nat, other: nat, action: Action)

  type System = seq<seq<Queue>>

  predicate Square(s: System) { forall t :: 0 <= t < |s| ==> |s[t]| == |s| }

  /** A core receives on qs_[core][other] and sends on qs_[other][core]. */
  function Row(st: Step): nat { if RoleOf(st.action) == Receiver then st.core else st.other }

  function Column(st: Step): nat { if RoleOf(st.action) == Receiver then st.other else st.core }

  predicate StepEnabled(s: System, st: Step)
    requires Square(s)
  {
    st.core < |s| && st.other < |s| && st.core != st.other && Enabled(s[Row(st)][Column(st)], st.action)
  }

  function StepNext(s: System, st: Step): System
    requires Square(s) && StepEnabled(s, st)
  {
    s[Row(st) := s[Row(st)][Column(st) := Next(s[Row(st)][Column(st)], st.action)]]
  }

  ghost predicate SystemInv(s: System) {
    Square(s) && forall t, f :: 0 <= t < |s| && 0 <= f < |s| ==> Inv(s[t][f])
  }

  lemma SystemInvKept(s: System, st: Step)
    requires SystemInv(s) && StepEnabled(s, st)
    ensures SystemInv(StepNext(s, st)) && |StepNext(s, st)| == |s|
  {
    hide Inv, Next, Enabled;
    var t, f := Row(st), Column(st);
    InvKept(s[t][f], st.action);
    var s' := StepNext(s, st);
    forall i, j | 0 <= i < |s'| && 0 <= j < |s'| ensures Inv(s'[i][j]) {
      assert (i == t && j == f) || s'[i][j] == s[i][j];
    }
  }

  /** The steps can be taken in turn. */
  predicate Runs(s: System, steps: seq<Step>)
    decreases |steps|
  {
    Square(s) && (steps == [] || (StepEnabled(s, steps[0]) && Runs(StepNext(s, steps[0]), steps[1..])))
  }

  function After(s: System, steps: seq<Step>): System
    requires Runs(s, steps)
    decreases |steps|
  {
    if steps == [] then s else After(StepNext(s, steps[0]), steps[1..])
  }

  lemma {:induction false} InvThroughout(s: System, steps: seq<Step>)
    requires SystemInv(s) && Runs(s, steps)
    ensures SystemInv(After(s, steps)) && |After(s, steps)| == |s|
    decreases |steps|
  {
    hide StepNext, StepEnabled, Square, Inv;
    if steps != [] {
      SystemInvKept(s, steps[0]);
      InvThroughout(StepNext(s, steps[0]), steps[1..]);
    }
  }

  lemma {:induction false} RunsAppend(s: System, a: seq<Step>, b: seq<Step>)
    requires Runs(s, a) && Runs(After(s, a), b)
    ensures Runs(s, a + b) && After(s, a + b) == After(After(s, a), b)
    decreases |a|
  {
    hide StepEnabled, StepNext, Square;
    if a == [] {
      assert a + b == b;
    } else {
      assert (a + b)[0] == a[0] && (a + b)[1..] == a[1..] + b;
      RunsAppend(StepNext(s, a[0]), a[1..], b);
    }
  }

  /** Actions on the queue qs_[t][f] as steps of the two cores. */
  function Lifted(t: nat, f: nat, acts: seq<Action>): (steps: seq<Step>)
    ensures |steps| == |acts|
  {
    seq(|acts|, i requires 0 <= i < |acts| =>
      if RoleOf(acts[i]) == Receiver then Step(t, f, acts[i]) else Step(f, t, acts[i]))
  }

  /** Actions on one queue are a run of the whole system that leaves the other queues alone. */
  lemma {:induction false} LiftedRuns(s: System, t: nat, f: nat, acts: seq<Action>)
    requires Square(s) && t < |s| && f < |s| && t != f && Acts(s[t][f], acts)
    ensures Runs(s, Lifted(t, f, acts))
    ensures After(s, Lifted(t, f, acts)) == s[t := s[t][f := Acted(s[t][f], acts)]]
    decreases |acts|
  {
    hide Enabled, Next;
    var steps := Lifted(t, f, acts);
    if acts == [] {
      assert steps == [];
      assert s[t][f := s[t][f]] == s[t] && s[t := s[t]] == s;
    } else {
      var a := acts[0];
      var s' := StepNext(s, steps[0]);
      assert s' == s[t := s[t][f := Next(s[t][f], a)]];
      assert steps[1..] == Lifted(t, f, acts[1..]);
      LiftedRuns(s', t, f, acts[1..]);
      var q := Acted(s[t][f], acts);
      assert s'[t][f := q] == s[t][f := q];
      assert s'[t := s'[t][f := q]] == s[t := s[t][f := q]];
    }
  }

  function AllEmpty(n: nat): System { seq(n, _ => seq(n, _ => EMPTY)) }

  /**
   * For any number of cores and any interleaving of their submissions, pushes, pops, runs and
   * callbacks: on every queue no item is lost, duplicated or reordered, no callback comes before its
   * item has run or with another item's result, and no ring holds more than 128 items.
   */
  lemma AnyInterleaving(n: nat, steps: seq<Step>, t: nat, f: nat)
    requires Runs(AllEmpty(n), steps) && t < n && f < n
    ensures |After(AllEmpty(n), steps)| == n && |After(AllEmpty(n), steps)[t]| == n
    ensures var q := After(AllEmpty(n), steps)[t][f];
            && q.submitted == Items(q.done + q.completing + q.completed + q.completedFifo)
                              + q.inProcess + q.pending + q.pendingFifo
            && q.done <= q.ran && Items(q.ran) <= q.submitted
            && |q.pending| <= QUEUE_LENGTH && |q.completed| <= QUEUE_LENGTH
  {
    hide Runs, After;
    assert Inv(EMPTY);
    InvThroughout(AllEmpty(n), steps);
    var q := After(AllEmpty(n), steps)[t][f];
    InOrder(q);
    assert q.submitted == Items(q.ran) + q.inProcess + q.pending + q.pendingFifo;
  }
}
