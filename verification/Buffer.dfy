/** include/buffer.h: the byte buffer of a connection, with room kept at its end. */
module BufferModel {

  function Max(a: nat, b: nat): nat { if a < b then b else a }

  /** Where the data lies, the capacity, and the capacity to start with. */
  datatype Shape = Shape(b: nat, e: nat, cap: nat, exp: nat)

  predicate Sound(s: Shape) { s.b <= s.e <= s.cap }

  function Size(s: Shape): nat
    requires Sound(s)
  {
    s.e - s.b
  }

  /** Room for len bytes: as it is, by moving the data to the front, or in larger memory. */
  function MadeRoom(s: Shape, len: nat): Shape
    requires Sound(s)
  {
    if s.e + len <= s.cap then s
    else if Size(s) + len < s.cap / 2 then s.(b := 0, e := Size(s))
    else Expanded(s, len)
  }

  function Expanded(s: Shape, len: nat): Shape
    requires Sound(s)
  {
    Shape(0, Size(s), Max(s.exp, Max(2 * s.cap, Size(s) + len)), s.exp)
  }

  /** There is always room for what was asked, and the data keeps its size. */
  lemma RoomIsMade(s: Shape, len: nat)
    requires Sound(s)
    ensures var r := MadeRoom(s, len);
            Sound(r) && r.cap - r.e >= len && Size(r) == Size(s) && r.exp == s.exp && r.cap >= s.cap
  {}

  /**
   * The data stays where it is exactly when the bytes fit behind it; the memory is replaced exactly when
   * they do not and data and bytes together would take half of it or more, and it then at least doubles.
   */
  lemma RoomPolicy(s: Shape, len: nat)
    requires Sound(s)
    ensures var r := MadeRoom(s, len);
            && (s.e + len <= s.cap ==> r == s) && (s.e + len > s.cap ==> r.b == 0 && r.e == Size(s))
            && (r.cap == s.cap <==> s.e + len <= s.cap || Size(s) + len < s.cap / 2)
            && (r.cap != s.cap ==>
                  && r.cap >= s.exp && r.cap >= 2 * s.cap && r.cap >= Size(s) + len
                  && (r.cap == s.exp || r.cap == 2 * s.cap || r.cap == Size(s) + len))
  {}

  /** Room of no particular size, to read into: larger memory unless there are exp bytes free. */
  function DefaultRoom(s: Shape): (r: Shape)
    requires Sound(s)
    ensures Sound(r)
  {
    if s.cap - s.e < s.exp then Expanded(s, 0) else s
  }

  /** Exactly when that leaves exp bytes free. */
  lemma DefaultRoomExactly(s: Shape)
    requires Sound(s)
    ensures var r := DefaultRoom(s);
            r.cap - r.e >= r.exp <==> s.cap - s.e >= s.exp || Size(s) == 0 || 2 * s.cap >= Size(s) + s.exp
  {}

  // ---------- Runs ----------

  /** Read makes room of no particular size and fills as much of it as the bytes take. */
  datatype Op = Append(bytes: string) | Read(bytes: string) | Consume(n: nat) | Suggest(size: nat)

  /**
   * What a run has seen since the buffer was last empty: the largest size, the number of bytes put in,
   * and the largest exp.
   */
  datatype Marks = Marks(peak: nat, total: nat, top: nat)

  datatype State = State(shape: Shape, contents: string, marks: Marks)

  predicate Enabled(s: State, op: Op) {
    && Sound(s.shape) && |s.contents| == Size(s.shape)
    && (op.Consume? ==> op.n <= |s.contents|)
    && (op.Read? ==> |op.bytes| <= DefaultRoom(s.shape).cap - DefaultRoom(s.shape).e)
  }

  /** The bytes put into the room that r has. */
  function Filled(r: Shape, s: State, x: string): State {
    State(r.(e := r.e + |x|), s.contents + x, Raised(s.marks, |s.contents| + |x|, |x|))
  }

  function Raised(m: Marks, size: nat, more: nat): Marks { m.(peak := Max(m.peak, size), total := m.total + more) }

  function Next(s: State, op: Op): State
    requires Enabled(s, op)
  {
    match op
    case Append(x) => Filled(MadeRoom(s.shape, |x|), s, x)
    case Read(x) => Filled(DefaultRoom(s.shape), s, x)
    case Consume(n) =>
      if n == |s.contents| then Fresh(s.shape.exp)
      else s.(shape := s.shape.(b := s.shape.b + n), contents := s.contents[n..])
    case Suggest(size) => s.(shape := s.shape.(exp := size), marks := s.marks.(top := Max(s.marks.top, size)))
  }

  function Fresh(exp: nat): State { State(Shape(0, 0, 0, exp), "", Marks(0, 0, exp)) }

  /** The data never ends behind the bytes put in, and the memory is bounded by their number. */
  ghost predicate Inv(s: State) {
    && Sound(s.shape) && |s.contents| == Size(s.shape) <= s.marks.peak
    && s.shape.e <= s.marks.total && s.shape.exp <= s.marks.top
    && s.shape.cap <= Memory(s.marks)
  }

  /** All the memory a run can take. */
  function Memory(m: Marks): nat {
    var sum := m.total + m.top;
    if sum <= 1 then sum else 2 * sum - 2
  }

  lemma InvKept(s: State, op: Op)
    requires Inv(s) && Enabled(s, op)
    ensures Inv(Next(s, op))
  {
    match op
    case Append(x) =>
      hide Inv;
      AppendKept(s, x);
    case Read(x) =>
      hide Inv;
      ReadKept(s, x);
    case Consume(n) =>
    case Suggest(size) =>
  }

  lemma AppendKept(s: State, x: string)
    requires Inv(s)
    ensures Inv(Filled(MadeRoom(s.shape, |x|), s, x))
  {
    hide Filled;
    FilledInv(s, MadeRoom(s.shape, |x|), x);
  }

  lemma ReadKept(s: State, x: string)
    requires Inv(s) && |x| <= DefaultRoom(s.shape).cap - DefaultRoom(s.shape).e
    ensures Inv(Filled(DefaultRoom(s.shape), s, x))
  {
    hide Filled;
    FilledInv(s, DefaultRoom(s.shape), x);
  }

  lemma FilledInv(s: State, r: Shape, x: string)
    requires Inv(s) && Sound(r) && Size(r) == Size(s.shape) && |x| <= r.cap - r.e
    requires r.e <= s.shape.e && r.exp == s.shape.exp
    requires r.cap != s.shape.cap ==>
               && s.shape.cap < s.shape.e + Max(|x|, s.shape.exp)
               && r.cap <= Max(r.exp, Max(2 * s.shape.cap, |s.contents| + |x|))
    ensures Inv(Filled(r, s, x))
  {}

  /** The memory is bounded by the largest size held. */
  predicate Tight(s: State) { s.shape.cap <= Bound(s.marks) }

  function Bound(m: Marks): nat { Max(m.top, 4 * m.peak + 2) }

  lemma TightKept(s: State, op: Op)
    requires Inv(s) && Tight(s) && Enabled(s, op) && !op.Read?
    ensures Tight(Next(s, op))
  {}

  /**
   * Reading keeps that bound exactly when there are exp bytes free already, or twice the capacity is
   * within the bound: the memory is doubled however little of it is used.
   */
  lemma ReadKeepsTightExactly(s: State, x: string)
    requires Inv(s) && Tight(s) && Enabled(s, Read(x))
    ensures Tight(Next(s, Read(x))) <==>
            s.shape.cap - s.shape.e >= s.shape.exp || 2 * s.shape.cap <= Bound(Raised(s.marks, |s.contents| + |x|, |x|))
  {}

  /** No step consumes more than is held or reads more than there is room for. */
  predicate Runs(s: State, ops: seq<Op>)
    decreases |ops|
  {
    ops == [] || (Enabled(s, ops[0]) && Runs(Next(s, ops[0]), ops[1..]))
  }

  function After(s: State, ops: seq<Op>): State
    requires Runs(s, ops)
    decreases |ops|
  {
    if ops == [] then s else After(Next(s, ops[0]), ops[1..])
  }

  lemma Prepend(s: State, op: Op, ops: seq<Op>)
    requires Enabled(s, op) && Runs(Next(s, op), ops)
    ensures Runs(s, [op] + ops) && After(s, [op] + ops) == After(Next(s, op), ops)
  {
    assert ([op] + ops)[1..] == ops;
  }

  function Put(op: Op): string {
    match op
    case Append(x) => x
    case Read(x) => x
    case _ => ""
  }

  function Taken(op: Op): nat { if op.Consume? then op.n else 0 }

  function Entered(ops: seq<Op>): string { if ops == [] then "" else Put(ops[0]) + Entered(ops[1..]) }

  function Consumed(ops: seq<Op>): nat {
    if ops == [] then 0 else Taken(ops[0]) + Consumed(ops[1..])
  }

  predicate NoRead(ops: seq<Op>) { forall i :: 0 <= i < |ops| ==> !ops[i].Read? }

  lemma NoReadRest(ops: seq<Op>)
    requires ops != [] && NoRead(ops)
    ensures !ops[0].Read? && NoRead(ops[1..])
  {}

  lemma {:induction false} RunFrom(s: State, ops: seq<Op>)
    requires Inv(s) && Runs(s, ops)
    ensures Inv(After(s, ops)) && (Tight(s) && NoRead(ops) ==> Tight(After(s, ops)))
    decreases |ops|
  {
    hide Inv, Next, Enabled, Tight, NoRead;
    if ops != [] {
      InvKept(s, ops[0]);
      RunFrom(Next(s, ops[0]), ops[1..]);
      if Tight(s) && NoRead(ops) {
        NoReadRest(ops);
        TightKept(s, ops[0]);
      }
    }
  }

  /** Doing the first operation now or at the end takes the same bytes. */
  lemma Regrouped(s: State, op: Op, more: string, n: nat)
    requires Enabled(s, op) && n <= |Next(s, op).contents + more|
    ensures Taken(op) + n <= |s.contents + (Put(op) + more)|
    ensures (Next(s, op).contents + more)[n..] == (s.contents + (Put(op) + more))[Taken(op) + n..]
  {
    assert Taken(op) <= |s.contents + Put(op)| && Next(s, op).contents == (s.contents + Put(op))[Taken(op)..] by {
      assert s.contents + "" == s.contents;
    }
    SlicedLater(s.contents, Put(op), more, Taken(op), n);
  }

  lemma SlicedLater(c: string, x: string, more: string, k: nat, n: nat)
    requires k <= |c + x| && n <= |(c + x)[k..] + more|
    ensures ((c + x)[k..] + more)[n..] == (c + (x + more))[k + n..]
  {
    assert (c + x)[k..] + more == (c + (x + more))[k..];
  }

  lemma {:induction false} RunContents(s: State, ops: seq<Op>)
    requires Runs(s, ops)
    ensures Consumed(ops) <= |s.contents + Entered(ops)|
    ensures After(s, ops).contents == (s.contents + Entered(ops))[Consumed(ops)..]
    decreases |ops|
  {
    hide Next, Enabled, Put, Taken;
    if ops == [] {
      assert s.contents + "" == s.contents;
    } else {
      RunContents(Next(s, ops[0]), ops[1..]);
      Regrouped(s, ops[0], Entered(ops[1..]), Consumed(ops[1..]));
    }
  }

  /**
   * In any run from an empty buffer the contents are the bytes put in without the prefix consumed, and
   * the capacity is bounded by the number of bytes put in since the buffer was last empty and by exp.
   * Without reads it is at most exp or four times the largest size held, plus two.
   */
  lemma AnyRun(exp: nat, ops: seq<Op>)
    requires Runs(Fresh(exp), ops)
    ensures var s := After(Fresh(exp), ops);
            && Sound(s.shape) && Size(s.shape) == |s.contents| <= s.marks.peak
            && Consumed(ops) <= |Entered(ops)| && s.contents == Entered(ops)[Consumed(ops)..]
            && s.shape.cap <= Memory(s.marks)
            && (NoRead(ops) ==> s.shape.cap <= Max(s.marks.top, 4 * s.marks.peak + 2))
  {
    hide Runs, After;
    RunFrom(Fresh(exp), ops);
    RunContents(Fresh(exp), ops);
    assert "" + Entered(ops) == Entered(ops);
  }

  /** Consuming all there is gives the memory back and leaves a buffer like a new one of the same size. */
  lemma ConsumedAll(s: State)
    requires Inv(s)
    ensures Enabled(s, Consume(|s.contents|))
    ensures var r := Next(s, Consume(|s.contents|));
            r.contents == "" && r.shape == Shape(0, 0, 0, s.shape.exp) && r == Fresh(s.shape.exp)
  {}

  /** The first bytes, when they fit, take memory of the suggested size. */
  lemma FirstBytes(exp: nat, op: Op)
    requires op.Append? || op.Read?
    requires 0 < |op.bytes| <= exp
    ensures Enabled(Fresh(exp), op)
    ensures Next(Fresh(exp), op) ==
            State(Shape(0, |op.bytes|, exp, exp), op.bytes, Marks(|op.bytes|, |op.bytes|, exp))
  {
    assert "" + op.bytes == op.bytes;
  }

  // ---------- Reading without a bound ----------

  function Bytes(n: nat): (x: string)
    ensures |x| == n
  {
    seq(n, _ => 'x')
  }

  /** One byte is held, and never more than 2048 have been. */
  predicate OneLeft(s: State) {
    && Sound(s.shape) && |s.contents| == Size(s.shape) == 1 && s.shape.exp == 2048 <= s.shape.cap
    && s.marks.peak <= 2048
  }

  /** Reading 2047 bytes and consuming as many: either the data moves up or the memory doubles. */
  lemma ReadAndConsume(s: State)
    requires OneLeft(s)
    ensures Enabled(s, Read(Bytes(2047)))
    ensures var t := Next(s, Read(Bytes(2047)));
            && Enabled(t, Consume(2047))
            && var u := Next(t, Consume(2047));
               && OneLeft(u)
               && if s.shape.cap - s.shape.e < 2048 then u.shape.cap == 2 * s.shape.cap
                  else u.shape.cap == s.shape.cap && u.shape.e == s.shape.e + 2047
  {}

  lemma {:induction false} GrowTo(s: State, n: nat) returns (ops: seq<Op>)
    requires OneLeft(s)
    ensures Runs(s, ops) && OneLeft(After(s, ops)) && After(s, ops).shape.cap >= n
    decreases n - s.shape.cap, s.shape.cap - s.shape.e
  {
    hide Enabled, Next;
    if s.shape.cap >= n {
      ops := [];
    } else {
      ReadAndConsume(s);
      var t := Next(s, Read(Bytes(2047)));
      ops := GrowTo(Next(t, Consume(2047)), n);
      Prepend(t, Consume(2047), ops);
      Prepend(s, Read(Bytes(2047)), [Consume(2047)] + ops);
      ops := [Read(Bytes(2047))] + ([Consume(2047)] + ops);
    }
  }

  /** So no multiple of the largest size bounds the memory: with reads it passes every number. */
  lemma NoBoundByPeak(n: nat) returns (ops: seq<Op>)
    ensures Runs(Fresh(2048), ops)
    ensures After(Fresh(2048), ops).marks.peak <= 2048 && After(Fresh(2048), ops).shape.cap >= n
  {
    hide Runs, After, Enabled, Next, Fresh;
    FirstBytes(2048, Read(Bytes(1)));
    ops := GrowTo(Next(Fresh(2048), Read(Bytes(1))), n);
    Prepend(Fresh(2048), Read(Bytes(1)), ops);
    ops := [Read(Bytes(1))] + ops;
  }

  // ---------- The bound is reached ----------

  /** One byte less than the suggested size is free, and nothing was consumed. */
  predicate AlmostFull(s: State) {
    && Sound(s.shape) && s.shape.e == |s.contents| == Size(s.shape) == s.marks.total
    && s.shape.cap == s.shape.e + s.shape.exp - 1 && s.shape.exp == s.marks.top > 0 && s.shape.e > 0
  }

  /** A read that brings nothing doubles the memory, and as many bytes as that added fill it again. */
  lemma DoubleAndFill(s: State)
    requires AlmostFull(s)
    ensures Enabled(s, Read(""))
    ensures var t := Next(s, Read(""));
            && t.shape.cap == Memory(t.marks) && t.marks.total == s.marks.total
            && Enabled(t, Append(Bytes(s.shape.cap)))
            && var u := Next(t, Append(Bytes(s.shape.cap)));
               AlmostFull(u) && u.marks.total == s.marks.total + s.shape.cap && u.shape.exp == s.shape.exp
  {}

  lemma {:induction false} ReachFrom(s: State, n: nat) returns (ops: seq<Op>)
    requires AlmostFull(s)
    ensures Runs(s, ops) && After(s, ops).marks.total >= n
    ensures After(s, ops).shape.cap == Memory(After(s, ops).marks)
    decreases n - s.marks.total
  {
    hide Next, Enabled, Memory;
    DoubleAndFill(s);
    var t, x := Next(s, Read("")), Bytes(s.shape.cap);
    if s.marks.total >= n {
      ops := [];
    } else {
      ops := ReachFrom(Next(t, Append(x)), n);
      Prepend(t, Append(x), ops);
      ops := [Append(x)] + ops;
    }
    Prepend(s, Read(""), ops);
    ops := [Read("")] + ops;
  }

  /** For every suggested size there are runs, however long, that take all of it. */
  lemma MemoryIsReached(exp: nat, n: nat) returns (ops: seq<Op>)
    requires exp > 0
    ensures Runs(Fresh(exp), ops) && After(Fresh(exp), ops).marks.total >= n
    ensures After(Fresh(exp), ops).shape.cap == Memory(After(Fresh(exp), ops).marks)
  {
    hide Runs, After, Enabled, Next, Fresh, Memory;
    FirstBytes(exp, Append(Bytes(1)));
    ops := ReachFrom(Next(Fresh(exp), Append(Bytes(1))), n);
    Prepend(Fresh(exp), Append(Bytes(1)), ops);
    ops := [Append(Bytes(1))] + ops;
  }

  // ---------- Room of the suggested size ----------

  predicate NoSuggest(ops: seq<Op>) { forall i :: 0 <= i < |ops| ==> !ops[i].Suggest? }

  /** While the suggested size does not exceed the memory held, reading finds that much room. */
  predicate Roomy(s: Shape) { s.cap == 0 || s.exp <= s.cap }

  lemma RoomyLeaves(s: Shape)
    requires Sound(s) && Roomy(s)
    ensures DefaultRoom(s).cap - DefaultRoom(s).e >= s.exp
  {}

  lemma {:induction false} RoomyRun(s: State, ops: seq<Op>)
    requires Inv(s) && Roomy(s.shape) && Runs(s, ops) && NoSuggest(ops)
    ensures Roomy(After(s, ops).shape)
    decreases |ops|
  {
    if ops != [] {
      InvKept(s, ops[0]);
      RoomyRun(Next(s, ops[0]), ops[1..]);
    }
  }

  /** As long as nobody changes the suggested size, there is always that much room to read into. */
  lemma RoomAlwaysLeft(exp: nat, ops: seq<Op>)
    requires Runs(Fresh(exp), ops) && NoSuggest(ops)
    ensures var s := After(Fresh(exp), ops).shape;
            Sound(s) && DefaultRoom(s).cap - DefaultRoom(s).e >= s.exp
  {
    hide Runs, After;
    RunFrom(Fresh(exp), ops);
    RoomyRun(Fresh(exp), ops);
    RoomyLeaves(After(Fresh(exp), ops).shape);
  }

  /** Raised while data is held, it finds that much room exactly up to a bound. */
  lemma RaisedSuggestion(exp: nat, x: string, size: nat)
    requires 0 < |x| <= exp
    ensures var ops := [Append(x), Suggest(size)];
            && Runs(Fresh(exp), ops)
            && var s := After(Fresh(exp), ops).shape;
               Sound(s) && s.exp == size && (DefaultRoom(s).cap - DefaultRoom(s).e >= size <==> size <= 2 * exp - |x|)
  {
    hide Fresh;
    FirstBytes(exp, Append(x));
    var s := Next(Fresh(exp), Append(x));
    Prepend(s, Suggest(size), []);
    Prepend(Fresh(exp), Append(x), [Suggest(size)]);
    assert [Append(x)] + [Suggest(size)] == [Append(x), Suggest(size)];
    DefaultRoomExactly(Shape(0, |x|, exp, size));
  }
}

module Buffer {
  import opened BufferModel

  class Buffer {
    var buf: array<char>
    var b: nat
    var e: nat
    var cap: nat
    var exp: nat
    ghost var marks: Marks

    ghost predicate Valid()
      reads this
    {
      b <= e <= cap && buf.Length == cap
    }

    ghost function State(): State
      requires Valid()
      reads this, buf
    {
      BufferModel.State(Shape(), Contents(), marks)
    }

    ghost function Shape(): Shape
      reads this
    {
      BufferModel.Shape(b, e, cap, exp)
    }

    ghost function Contents(): string
      requires Valid()
      reads this, buf
    {
      buf[b..e]
    }

    constructor ()
      ensures Valid() && fresh(buf) && State() == Fresh(2048)
    {
      buf := new char[0];
      b, e, cap, exp, marks := 0, 0, 0, 2048, Marks(0, 0, 2048);
    }

    /** A copy: the same bytes in memory of its own. */
    constructor CopyOf(other: Buffer)
      requires other.Valid()
      ensures Valid() && fresh(buf) && State() == other.State()
    {
      buf := new char[other.cap];
      b, e, cap, exp, marks := other.b, other.e, other.cap, other.exp, other.marks;
      new;
      var i := b;
      while i < e
        invariant b <= i <= e && Valid() && Shape() == other.Shape() && marks == other.marks
        invariant fresh(buf) && buf != other.buf
        invariant unchanged(other, other.buf)
        invariant forall k :: b <= k < i ==> buf[k] == other.buf[k]
      {
        buf[i] := other.buf[i];
        i := i + 1;
      }
    }

    method Clear()
      modifies this
      ensures Valid() && fresh(buf) && State() == Fresh(old(exp))
    {
      buf := new char[0];
      cap := 0;
      b, e, marks := 0, 0, Marks(0, 0, exp);
    }

    method MoveHead()
      requires Valid()
      modifies this`b, this`e, buf
      ensures Valid() && buf == old(buf)
      ensures Shape() == old(Shape()).(b := 0, e := old(e - b)) && Contents() == old(Contents())
    {
      var i, n := 0, e - b;
      while i < n
        invariant 0 <= i <= n && b == old(b) && e == old(e)
        invariant forall k :: 0 <= k < i ==> buf[k] == old(buf[b + k])
        invariant forall k :: b + i <= k < e ==> buf[k] == old(buf[k])
      {
        buf[i] := buf[b + i];
        i := i + 1;
      }
      e := e - b;
      b := 0;
    }

    /** The data at the front of new memory. */
    method CopyOut(ncap: nat) returns (p: array<char>)
      requires Valid() && ncap >= e - b
      ensures fresh(p) && p.Length == ncap && p[..e - b] == Contents()
    {
      p := new char[ncap];
      var i, n := 0, e - b;
      while i < n
        invariant 0 <= i <= n && p[..i] == Contents()[..i]
      {
        p[i] := buf[b + i];
        i := i + 1;
      }
    }

    method Expand(len: nat)
      requires Valid()
      modifies this
      ensures Valid() && fresh(buf)
      ensures Shape() == Expanded(old(Shape()), len) && Contents() == old(Contents()) && marks == old(marks)
    {
      var ncap := Max(exp, Max(2 * cap, e - b + len));
      var p := CopyOut(ncap);
      e := e - b;
      b := 0;
      buf := p;
      cap := ncap;
    }

    /** At least len free bytes behind the data, the data as it was. */
    method MakeRoom(len: nat) returns (end: nat)
      requires Valid()
      modifies this, buf
      ensures Valid() && (buf == old(buf) || fresh(buf))
      ensures Shape() == MadeRoom(old(Shape()), len) && Contents() == old(Contents()) && marks == old(marks)
      ensures end == e && cap - e >= len
    {
      if e + len <= cap {
      } else if e - b + len < cap / 2 {
        MoveHead();
      } else {
        Expand(len);
      }
      end := e;
    }

    /** The version without a size, which only ever takes larger memory. */
    method MakeDefaultRoom()
      requires Valid()
      modifies this, buf
      ensures Valid() && (buf == old(buf) || fresh(buf))
      ensures Shape() == DefaultRoom(old(Shape())) && Contents() == old(Contents()) && marks == old(marks)
      ensures cap - e >= exp <==>
              old(cap - e) >= exp || old(b == e) || 2 * old(cap) >= old(e - b) + exp
    {
      DefaultRoomExactly(Shape());
      if cap - e < exp {
        Expand(0);
      }
    }

    /** The read of a connection: room, and then as many bytes as came. */
    method Read(bytes: string)
      requires Valid() && Enabled(State(), Op.Read(bytes))
      modifies this, buf
      ensures Valid() && (buf == old(buf) || fresh(buf))
      ensures State() == Next(old(State()), Op.Read(bytes))
      ensures old(Inv(State())) ==> Inv(State())
    {
      hide DefaultRoom, Inv;
      ghost var before := State();
      MakeDefaultRoom();
      Fill(bytes);
      assert State() == Next(before, Op.Read(bytes));
      if Inv(before) {
        InvKept(before, Op.Read(bytes));
      }
    }

    method SetSuggestSize(size: nat)
      requires Valid()
      modifies this`exp, this`marks
      ensures Valid() && State() == Next(old(State()), Op.Suggest(size))
      ensures old(Inv(State())) ==> Inv(State())
    {
      exp := size;
      marks := marks.(top := Max(marks.top, size));
    }

    method Append(bytes: string)
      requires Valid()
      modifies this, buf
      ensures Valid() && (buf == old(buf) || fresh(buf))
      ensures State() == Next(old(State()), Op.Append(bytes))
      ensures old(Inv(State())) ==> Inv(State())
    {
      hide MadeRoom, Inv;
      ghost var before := State();
      var p := MakeRoom(|bytes|);
      Fill(bytes);
      assert State() == Next(before, Op.Append(bytes));
      if Inv(before) {
        InvKept(before, Op.Append(bytes));
      }
    }

    /** Copies the bytes into the room made for them. */
    method Fill(bytes: string)
      requires Valid() && e + |bytes| <= cap
      modifies this`e, this`marks, buf
      ensures Valid() && e == old(e) + |bytes| && Contents() == old(Contents()) + bytes
      ensures marks == Raised(old(marks), e - b, |bytes|)
    {
      var i := 0;
      while i < |bytes|
        invariant 0 <= i <= |bytes| && e == old(e) && marks == old(marks)
        invariant buf[..e] == old(buf[..e]) && buf[e..e + i] == bytes[..i]
      {
        buf[e + i] := bytes[i];
        i := i + 1;
      }
      assert buf[b..e + i] == old(buf[..e])[b..] + bytes;
      assert old(buf[..e])[b..] == old(buf[b..e]);
      e := e + |bytes|;
      marks := Raised(marks, e - b, |bytes|);
    }

    method Consume(len: nat)
      requires Valid() && len <= e - b
      modifies this
      ensures Valid() && (buf == old(buf) || fresh(buf))
      ensures State() == Next(old(State()), Op.Consume(len))
      ensures old(Inv(State())) ==> Inv(State())
    {
      ghost var before := State();
      if Inv(before) {
        InvKept(before, Op.Consume(len));
      }
      b := b + len;
      if e - b <= 0 {
        Clear();
      }
    }
  }
}
