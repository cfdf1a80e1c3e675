/**
 * src/smp.cc: the queue object and the poll of a core. Every method is a run of the protocol's atomic
 * actions; where the code leaves room for the other core, a pause lets it take any actions it can.
 */
module SmpQueue {
  import opened Basics
  import opened SmpProtocol

  /** The actions lead from one state to the other. */
  ghost predicate Reached(q: Queue, acts: seq<Action>, r: Queue) { Acts(q, acts) && Acted(q, acts) == r }

  lemma ReachedThen(q: Queue, a: seq<Action>, r: Queue, b: seq<Action>, s: Queue)
    requires Reached(q, a, r) && Reached(r, b, s)
    ensures Reached(q, a + b, s)
  {
    ActsAppend(q, a, b);
  }

  lemma ReachedOnce(q: Queue, a: Action)
    requires Inv(q) && Enabled(q, a)
    ensures Reached(q, [a], Next(q, a)) && Inv(Next(q, a))
  {
    ActsOnce(q, a);
    InvKept(q, a);
  }

  /** The items with what their functions return. */
  function Results(items: seq<Item>, run: Item -> int): (r: seq<Job>)
    ensures |r| == |items|
  {
    seq(|items|, i requires 0 <= i < |items| => Job(items[i], run(items[i])))
  }

  lemma ResultsMore(items: seq<Item>, i: nat, run: Item -> int)
    requires i < |items|
    ensures Results(items[..i + 1], run) == Results(items[..i], run) + [Job(items[i], run(items[i]))]
  {}

  /** What the receiver has popped are the oldest submissions that have not run. */
  lemma BatchIsOldest(q: Queue)
    requires Inv(q)
    ensures |q.ran| + |q.inProcess| <= |q.submitted|
    ensures q.inProcess == q.submitted[|q.ran|..|q.ran| + |q.inProcess|]
  {}

  /** What the sender has popped are the oldest runs whose callbacks have not been called. */
  lemma AnswersAreOldest(q: Queue)
    requires Inv(q)
    ensures |q.done| + |q.completing| <= |q.ran|
    ensures q.completing == q.ran[|q.done|..|q.done| + |q.completing|]
  {}

  lemma RingBounds(q: Queue)
    requires Inv(q)
    ensures |q.pending| <= QUEUE_LENGTH && |q.completed| <= QUEUE_LENGTH
  {}

  class MessageQueue {
    var pendingFifo: seq<Item>
    var pending: seq<Item>
    var completedFifo: seq<Job>
    var completed: seq<Job>
    var inProcess: seq<Item>  // what the locals of the receiver's poll still hold
    var completing: seq<Job>  // what the locals of the sender's poll still hold
    ghost var done: seq<Job>
    ghost var submitted: seq<Item>
    ghost var ran: seq<Job>

    constructor ()
      ensures State() == EMPTY && Inv(State())
    {
      pendingFifo, pending, completedFifo, completed, inProcess, completing := [], [], [], [], [], [];
      done, submitted, ran := [], [], [];
    }

    ghost function State(): Queue
      reads this
    {
      Queue(pendingFifo, pending, inProcess, completedFifo, completed, completing, done, submitted, ran)
    }

    predicate CanAct(a: Action)
      reads this
      ensures CanAct(a) == Enabled(State(), a)
    {
      match a
      case Submit(_) => true
      case MovePending(k) => k <= |pendingFifo| && |pending| + k <= QUEUE_LENGTH
      case PopPending(k) => k <= |pending|
      case Process(_) => inProcess != []
      case FlushResponses(k) => k <= |completedFifo| && |completed| + k <= QUEUE_LENGTH
      case PopCompleted(k) => k <= |completed|
      case Complete => completing != []
    }

    /** One atomic action. */
    method Apply(a: Action)
      requires Inv(State()) && Enabled(State(), a)
      modifies this
      ensures State() == Next(old(State()), a) && Inv(State()) && Reached(old(State()), [a], State())
    {
      ReachedOnce(State(), a);
      match a
      case Submit(x) => pendingFifo, submitted := pendingFifo + [x], submitted + [x];
      case MovePending(k) => pendingFifo, pending := pendingFifo[k..], pending + pendingFifo[..k];
      case PopPending(k) => pending, inProcess := pending[k..], inProcess + pending[..k];
      case Process(r) =>
        var job := Job(inProcess[0], r);
        inProcess, completedFifo, ran := inProcess[1..], completedFifo + [job], ran + [job];
      case FlushResponses(k) => completedFifo, completed := completedFifo[k..], completed + completedFifo[..k];
      case PopCompleted(k) => completed, completing := completed[k..], completing + completed[..k];
      case Complete => completing, done := completing[1..], done + [completing[0]];
    }

    /** move_pending: pushes the staged requests that fit. */
    method PushPending() returns (ghost acts: seq<Action>)
      requires Inv(State())
      modifies this
      ensures Inv(State()) && Reached(old(State()), acts, State()) && AllBy(acts, Sender)
      ensures State() == old(State()).(pendingFifo := pendingFifo, pending := pending)
      ensures pending + pendingFifo == old(pending + pendingFifo)
      ensures pendingFifo == [] || |pending| == QUEUE_LENGTH
    {
      RingBounds(State());
      var k := Min(QUEUE_LENGTH - |pending|, |pendingFifo|);
      Apply(MovePending(k));
      acts := [MovePending(k)];
    }

    method FlushRequestBatch() returns (ghost acts: seq<Action>)
      requires Inv(State())
      modifies this
      ensures Inv(State()) && Reached(old(State()), acts, State()) && AllBy(acts, Sender)
      ensures State() == old(State()).(pendingFifo := pendingFifo, pending := pending)
      ensures pending + pendingFifo == old(pending + pendingFifo)
      ensures pendingFifo == [] || |pending| == QUEUE_LENGTH
    {
      hide Inv;
      acts := [];
      NoActs(State());
      if pendingFifo != [] {
        acts := PushPending();
      }
    }

    method SubmitItem(x: Item) returns (ghost acts: seq<Action>)
      requires Inv(State())
      modifies this
      ensures Inv(State()) && Reached(old(State()), acts, State()) && AllBy(acts, Sender)
      ensures submitted == old(submitted) + [x] && pending + pendingFifo == old(pending + pendingFifo) + [x]
      ensures pendingFifo == [] || |pending| == QUEUE_LENGTH
    {
      hide Inv, Reached;
      Apply(Submit(x));
      ghost var q := State();
      assert pending + pendingFifo == old(pending + pendingFifo) + [x];
      ghost var more := PushPending();
      ReachedThen(old(State()), [Submit(x)], q, more, State());
      acts := [Submit(x)] + more;
    }

    method FlushResponseBatch() returns (ghost acts: seq<Action>)
      requires Inv(State())
      modifies this
      ensures Inv(State()) && Reached(old(State()), acts, State()) && AllBy(acts, Receiver)
      ensures State() == old(State()).(completedFifo := completedFifo, completed := completed)
      ensures completed + completedFifo == old(completed + completedFifo)
      ensures completedFifo == [] || |completed| == QUEUE_LENGTH
    {
      acts := [];
      NoActs(State());
      if completedFifo != [] {
        RingBounds(State());
        var k := Min(QUEUE_LENGTH - |completed|, |completedFifo|);
        Apply(FlushResponses(k));
        acts := [FlushResponses(k)];
      }
    }

    /** process and respond: the oldest popped item runs and its result is staged and, if it fits, sent. */
    method ProcessItem(x: Item, r: int) returns (ghost acts: seq<Action>)
      requires Inv(State()) && inProcess != [] && inProcess[0] == x
      modifies this
      ensures Inv(State()) && Reached(old(State()), acts, State()) && AllBy(acts, Receiver)
      ensures inProcess == old(inProcess)[1..] && ran == old(ran) + [Job(x, r)] && submitted == old(submitted)
      ensures completed + completedFifo == old(completed + completedFifo) + [Job(x, r)]
      ensures completedFifo == [] || |completed| == QUEUE_LENGTH
    {
      hide Inv, Reached;
      Apply(Process(r));
      ghost var q := State();
      assert completed + completedFifo == old(completed + completedFifo) + [Job(x, r)];
      ghost var more := FlushResponseBatch();
      ReachedThen(old(State()), [Process(r)], q, more, State());
      acts := [Process(r)] + more;
    }
  }

  lemma SliceOfLonger<T>(a: seq<T>, b: seq<T>, i: nat, j: nat)
    requires i <= j <= |a| && a <= b
    ensures j <= |b| && a[i..j] == b[i..j]
  {
    assert b[..|a|] == a;
  }

  lemma NoActs(q: Queue)
    ensures Reached(q, [], q)
  {}

  lemma NoResults(a: seq<Job>, b: seq<Item>, run: Item -> int)
    ensures Results([], run) == [] && a + [] == a && b[..0] == []
    ensures forall i :: 0 <= i <= |b| ==> Results(b[i..i], run) == []
  {}

  // ---------- Batches longer than the array ----------

  predicate NoSubmit(acts: seq<Action>) { forall i :: 0 <= i < |acts| ==> !acts[i].Submit? }

  /**
   * What the sender does between the two pops of the receiver fills the request ring, so that the batch
   * has one item more than the array has elements.
   */
  ghost predicate FillsRequests(q: Queue, between: seq<Action>) {
    && Enabled(q, PopPending(1)) && AllBy(between, Sender)
    && Acts(Next(q, PopPending(1)), between)
    && |Acted(Next(q, PopPending(1)), between).pending| == QUEUE_LENGTH
  }

  /** The same for the answers, between the two pops of the sender. */
  ghost predicate FillsResponses(q: Queue, between: seq<Action>) {
    && Enabled(q, PopCompleted(1)) && AllBy(between, Receiver)
    && Acts(Next(q, PopCompleted(1)), between)
    && |Acted(Next(q, PopCompleted(1)), between).completed| == QUEUE_LENGTH
  }

  /** Ring and staging together change only by submissions. */
  lemma {:induction false} RequestsKept(q: Queue, acts: seq<Action>)
    requires Acts(q, acts) && AllBy(acts, Sender) && NoSubmit(acts)
    ensures |Acted(q, acts).pending| + |Acted(q, acts).pendingFifo| == |q.pending| + |q.pendingFifo|
    decreases |acts|
  {
    if acts != [] {
      RequestsKept(Next(q, acts[0]), acts[1..]);
    }
  }

  /** Everything the receiver has or will pop, run or send stays the same in number. */
  lemma {:induction false} AnswersKept(q: Queue, acts: seq<Action>)
    requires Acts(q, acts) && AllBy(acts, Receiver)
    ensures Outstanding(Acted(q, acts)) == Outstanding(q)
    decreases |acts|
  {
    if acts != [] {
      AnswersKept(Next(q, acts[0]), acts[1..]);
    }
  }

  /** The answers the receiver can still put into the ring, with those already there. */
  function Outstanding(q: Queue): nat { |q.completed| + |q.completedFifo| + |q.inProcess| + |q.pending| }

  /**
   * Without new submissions the request ring can be full at the second pop exactly when ring and
   * staging held more than 128 items.
   */
  lemma OverrunExact(q: Queue)
    requires Inv(q) && q.pending != []
    ensures (exists between :: FillsRequests(q, between) && NoSubmit(between))
            <==> |q.pending| + |q.pendingFifo| > QUEUE_LENGTH
  {
    var r := Next(q, PopPending(1));
    if between :| FillsRequests(q, between) && NoSubmit(between) {
      RequestsKept(r, between);
    }
    if |q.pending| + |q.pendingFifo| > QUEUE_LENGTH {
      var a := MovePending(QUEUE_LENGTH - |r.pending|);
      ActsOnce(r, a);
      assert FillsRequests(q, [a]) && NoSubmit([a]);
    }
  }

  /** With submissions it can be full whenever there is a first item to pop. */
  lemma OverrunBySubmitting(q: Queue)
    requires Inv(q)
    ensures (exists between :: FillsRequests(q, between)) <==> q.pending != []
  {
    if q.pending != [] {
      var r := Next(q, PopPending(1));
      var subs := Submissions(r, QUEUE_LENGTH);
      var r' := Acted(r, subs);
      var a := MovePending(QUEUE_LENGTH - |r.pending|);
      ActsOnce(r', a);
      ActsAppend(r, subs, [a]);
      assert FillsRequests(q, subs + [a]);
    }
  }

  lemma {:induction false} Submissions(q: Queue, n: nat) returns (subs: seq<Action>)
    ensures AllBy(subs, Sender) && Acts(q, subs)
    ensures Acted(q, subs).pending == q.pending && |Acted(q, subs).pendingFifo| == |q.pendingFifo| + n
    decreases n
  {
    if n == 0 {
      subs := [];
    } else {
      var rest := Submissions(Next(q, Submit(0)), n - 1);
      subs := [Submit(0)] + rest;
      assert subs[1..] == rest;
    }
  }

  /**
   * The response ring can be full at the second pop exactly when it held an answer and the receiver had
   * more than 128 items answered or to answer; the sender cannot add to them meanwhile.
   */
  lemma OverrunOfAnswers(q: Queue)
    requires Inv(q) && q.completed != []
    ensures (exists between :: FillsResponses(q, between)) <==> Outstanding(q) > QUEUE_LENGTH
  {
    var r := Next(q, PopCompleted(1));
    if between :| FillsResponses(q, between) {
      AnswersKept(r, between);
    }
    if Outstanding(q) > QUEUE_LENGTH {
      ActsOnce(r, PopPending(|r.pending|));
      var r1 := Next(r, PopPending(|r.pending|));
      var runs := RunAll(r1, |r1.inProcess|);
      var r2 := Acted(r1, runs);
      var a := FlushResponses(QUEUE_LENGTH - |r2.completed|);
      ActsOnce(r2, a);
      ActsAppend(r1, runs, [a]);
      ActsAppend(r, [PopPending(|r.pending|)], runs + [a]);
      assert FillsResponses(q, [PopPending(|r.pending|)] + (runs + [a]));
    }
  }

  lemma {:induction false} RunAll(q: Queue, n: nat) returns (runs: seq<Action>)
    requires n == |q.inProcess|
    ensures AllBy(runs, Receiver) && Acts(q, runs)
    ensures Acted(q, runs).completed == q.completed
    ensures |Acted(q, runs).completedFifo| == |q.completedFifo| + n
    decreases n
  {
    if n == 0 {
      runs := [];
    } else {
      var rest := RunAll(Next(q, Process(0)), n - 1);
      runs := [Process(0)] + rest;
      assert runs[1..] == rest;
    }
  }
}
