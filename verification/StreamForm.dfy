/**
 * The packets of a whole connection written out: which numbers, flags, timestamps and bytes each of them
 * carries, by its place, and how long the data packets are.
 */
module StreamForm {
  import opened Basics
  import opened StringMatcher
  import opened StreamGen

  // ---------- How long a data packet is ----------

  /** A length of 40 to maxSeg: len_cut when lengths are fixed, otherwise an nParts-th of the stream. */
  predicate IsCut(c: Config, len: nat, nParts: nat, r: nat)
    requires nParts > 0
  {
    var wish := if c.lenFixed then c.lenCut else len / nParts;
    40 <= r <= c.maxSeg && (r < c.maxSeg ==> wish <= r) && (r > 40 ==> wish >= r)
  }

  lemma CutLength(c: Config, len: nat, nParts: nat)
    requires ValidConfig(c) && nParts > 0
    ensures IsCut(c, len, nParts, DataLen(c, len, nParts))
    ensures c.lenFixed && 40 <= c.lenCut <= c.maxSeg ==> DataLen(c, len, nParts) == c.lenCut
    ensures !c.lenFixed && 40 <= len / nParts <= c.maxSeg ==> DataLen(c, len, nParts) == len / nParts
  {}

  /**
   * The bytes of the next data packet: the rest of the stream, or in a complete packet everything up to
   * the end of the first empty line if that is not too far, or a cut.
   */
  ghost predicate IsSegment(c: Config, buf: seq<Octet>, from: nat, ch: Choice, to: nat)
    requires ValidChoice(ch) && from <= |buf|
  {
    var rest, k := buf[from..], to - from;
    && from <= to <= |buf|
    && (if ch.fragment || !exists e: nat :: FirstEnd(rest, CRLF2, e) && e <= c.maxSeg
        then exists r: nat :: IsCut(c, |buf|, ch.nParts, r) && k == Min(|rest|, r)
        else FirstEnd(rest, CRLF2, k))
  }

  lemma SegmentIs(c: Config, n: Node, ch: Choice)
    requires ValidConfig(c) && ValidChoice(ch) && n.offset <= |n.buf|
    ensures IsSegment(c, n.buf, n.offset, ch, n.offset + SegmentLen(c, n, ch))
  {
    hide FindEnd, FirstEnd;
    var rest := n.buf[n.offset..];
    var m := FindEnd(rest, CRLF2);
    FindEndIsFirst(rest, CRLF2);
    CutLength(c, |n.buf|, ch.nParts);
    assert IsCut(c, |n.buf|, ch.nParts, DataLen(c, |n.buf|, ch.nParts));
    forall e: nat | FirstEnd(rest, CRLF2, e) ensures e == m {
      FirstEndUnique(rest, CRLF2, e, m);
    }
  }

  // ---------- The packets, by their place ----------

  /** What identifies a connection: its stream, both first numbers and the clock when it opens. */
  datatype Names = Names(buf: seq<Octet>, x: U32, y: U32, now: U32)

  function Plain(from: End, seqNo: U32, ackNo: U32, tsVal: U32, tsEcr: U32): Packet {
    Packet(from, false, false, true, false, seqNo, ackNo, tsVal, tsEcr, [])
  }

  /** The three packets of the handshake; the server's clock is 1234 ahead. */
  function Opening(c: Names): seq<Packet> {
    [Packet(Client, true, false, false, false, c.x, 0, c.now, 0, []),
     Packet(Server, true, false, true, false, Pred32(c.y), Add32(c.x, 1), Add32(c.now, 1234), c.now, []),
     Plain(Client, Add32(c.x, 1), c.y, c.now, Add32(c.now, 1234))]
  }

  /** Data packet j, which carries bytes a to b, and its acknowledgement; both clocks tick with it. */
  function Data(c: Names, j: nat, a: nat, b: nat): Packet
    requires a <= b <= |c.buf|
  {
    Packet(Client, false, false, true, true, Add32(c.x, 1 + a), c.y, Add32(c.now, j + 1), Add32(c.now, 1234 + j),
           c.buf[a..b])
  }

  function DataAck(c: Names, j: nat, b: nat): Packet {
    Plain(Server, c.y, Add32(c.x, 1 + b), Add32(c.now, 1235 + j), Add32(c.now, j + 1))
  }

  /** The three closing packets after m data packets. */
  function Closing(c: Names, m: nat): seq<Packet> {
    [Plain(Client, Add32(c.x, 1 + |c.buf|), c.y, Add32(c.now, m + 1), Add32(c.now, 1234 + m)).(fin := true),
     Plain(Server, c.y, Add32(c.x, 2 + |c.buf|), Add32(c.now, 1235 + m), Add32(c.now, m + 1)).(fin := true),
     Plain(Client, Add32(c.x, 2 + |c.buf|), Add32(c.y, 1), Add32(c.now, m + 2), Add32(c.now, 1235 + m))]
  }

  /** Places in the stream, in order, the last one its end. */
  predicate IsCuts(c: Names, cuts: seq<nat>) {
    cuts != [] && cuts[|cuts| - 1] == |c.buf| && forall i, j :: 0 <= i <= j < |cuts| ==> cuts[i] <= cuts[j]
  }

  /** The i-th of these pairs of packets is data packet j + i and its acknowledgement. */
  ghost predicate IsPair(c: Names, j: nat, cuts: seq<nat>, ps: seq<Packet>, i: nat)
    requires IsCuts(c, cuts) && i + 1 < |cuts| && 2 * i + 1 < |ps|
  {
    ps[2 * i] == Data(c, j + i, cuts[i], cuts[i + 1]) && ps[2 * i + 1] == DataAck(c, j + i, cuts[i + 1])
  }

  /** The packets from data packet j on, when the rest of the stream is cut at these places. */
  ghost predicate IsRest(c: Names, j: nat, cuts: seq<nat>, ps: seq<Packet>) {
    && IsCuts(c, cuts)
    && var m := |cuts| - 1;
       && |ps| == 2 * m + 3
       && (forall i: nat :: i < m ==> IsPair(c, j, cuts, ps, i))
       && ps[2 * m..] == Closing(c, j + m)
  }

  lemma Adds(a: U32, i: nat, j: nat)
    ensures Add32(Add32(a, i), j) == Add32(a, i + j) && Add32(a, 0) == a
  {}

  // ---------- A node of that connection ----------

  /** The node in data transfer, with j data packets sent. */
  predicate At(c: Names, n: Node, j: nat) {
    && n.buf == c.buf && n.state == Established && n.offset <= |n.buf|
    && n.seqNo == Add32(c.x, 1 + n.offset) && n.ackSeq == c.y
    && n.ts == Add32(c.now, j) && n.tsPeer == Add32(c.now, 1234 + j)
  }

  predicate Ended(c: Names, n: Node, m: nat) {
    && n.buf == c.buf && n.state == TcpState.Closing && n.offset == |n.buf|
    && n.seqNo == Add32(c.x, 1 + |c.buf|) && n.ackSeq == c.y
    && n.ts == Add32(c.now, m) && n.tsPeer == Add32(c.now, 1234 + m)
  }

  lemma OneDataPacket(cf: Config, c: Names, n: Node, ch: Choice, j: nat)
    requires ValidConfig(cf) && ValidChoice(ch) && At(c, n, j)
    ensures var n' := StepNode(cf, n, ch);
            && n.offset <= n'.offset <= |c.buf| && IsSegment(cf, c.buf, n.offset, ch, n'.offset)
            && StepPackets(cf, n, ch) == [Data(c, j, n.offset, n'.offset), DataAck(c, j, n'.offset)]
            && if n'.offset == |c.buf| then Ended(c, n', j + 1) else At(c, n', j + 1)
  {
    hide SegmentLen, Add32, IsSegment;
    SegmentIs(cf, n, ch);
    var k := SegmentLen(cf, n, ch);
    Adds(c.x, 1 + n.offset, k);
    Adds(c.now, j, 1);
    Adds(c.now, 1234 + j, 1);
  }

  lemma NothingRun(cf: Config, n: Node)
    requires ValidConfig(cf) && n.offset <= |n.buf|
    ensures RunPackets(cf, n, []) == [] && RunNode(cf, n, []) == n
  {}

  lemma ReturnsUnfolds(cf: Config, n: Node, chs: seq<Choice>)
    requires ValidConfig(cf) && ValidChoices(chs) && n.offset <= |n.buf| && Returns(cf, n, chs)
    ensures chs != [] && ValidChoice(chs[0]) && ValidChoices(chs[1..])
    ensures var n' := StepNode(cf, n, chs[0]);
            && n'.offset <= |n'.buf|
            && RunPackets(cf, n, chs) == StepPackets(cf, n, chs[0]) + RunPackets(cf, n', chs[1..])
            && RunNode(cf, n, chs) == RunNode(cf, n', chs[1..])
            && if n'.state == Closed then chs[1..] == [] else Returns(cf, n', chs[1..])
  {
    hide StepNode, StepPackets;
    StepInRange(cf, n, chs[0]);
  }

  /** The three closing calls, one by one. */
  lemma ClosingSteps(cf: Config, c: Names, n: Node, ch0: Choice, ch1: Choice, ch2: Choice, m: nat)
    requires ValidConfig(cf) && ValidChoices([ch0, ch1, ch2]) && Ended(c, n, m)
    ensures ValidChoice(ch0) && ValidChoice(ch1) && ValidChoice(ch2)
    ensures var n1 := StepNode(cf, n, ch0);
            && n1.state == FinSent1 && n1.offset <= |n1.buf|
            && var n2 := StepNode(cf, n1, ch1);
               && n2.state == FinSent2 && n2.offset <= |n2.buf|
               && StepNode(cf, n2, ch2) == Node(c.buf, Closed, 0, ch2.nextSeq, ch2.nextAckSeq, 0, 0)
               && StepPackets(cf, n, ch0) + (StepPackets(cf, n1, ch1) + StepPackets(cf, n2, ch2)) == Closing(c, m)
  {
    hide Add32, SegmentLen;
    assert ch0 in [ch0, ch1, ch2] && ch1 in [ch0, ch1, ch2] && ch2 in [ch0, ch1, ch2];
    Adds(c.x, 1 + |c.buf|, 1);
    Adds(c.now, m, 1);
    Adds(c.now, m + 1, 1);
    Adds(c.now, 1234 + m, 1);
  }

  lemma Closes(cf: Config, c: Names, n: Node, chs: seq<Choice>, m: nat)
    requires ValidConfig(cf) && ValidChoices(chs) && Ended(c, n, m) && Returns(cf, n, chs)
    ensures RunPackets(cf, n, chs) == Closing(c, m) && |chs| == 3
    ensures RunNode(cf, n, chs) == Node(c.buf, Closed, 0, chs[2].nextSeq, chs[2].nextAckSeq, 0, 0)
  {
    hide StepNode, StepPackets, RunPackets, RunNode, Returns, Closing;
    ReturnsUnfolds(cf, n, chs);
    NotYetClosed(cf, n, chs[0]);
    var n1, r1 := StepNode(cf, n, chs[0]), chs[1..];
    ReturnsUnfolds(cf, n1, r1);
    NotYetClosed(cf, n1, r1[0]);
    var n2, r2 := StepNode(cf, n1, r1[0]), r1[1..];
    ReturnsUnfolds(cf, n2, r2);
    ClosingSteps(cf, c, n, chs[0], chs[1], chs[2], m);
    NothingRun(cf, StepNode(cf, n2, r2[0]));
  }

  lemma NotYetClosed(cf: Config, n: Node, ch: Choice)
    requires ValidConfig(cf) && ValidChoice(ch) && n.offset <= |n.buf|
    ensures n.state == TcpState.Closing ==> StepNode(cf, n, ch).state == FinSent1
    ensures n.state == FinSent1 ==> StepNode(cf, n, ch).state == FinSent2
  {}

  lemma LastPair(c: Names, j: nat, a: nat)
    requires a <= |c.buf|
    ensures IsRest(c, j, [a, |c.buf|], [Data(c, j, a, |c.buf|), DataAck(c, j, |c.buf|)] + Closing(c, j + 1))
  {
    hide Add32;
  }

  lemma OneMorePair(c: Names, j: nat, a: nat, cuts: seq<nat>, ps: seq<Packet>)
    requires IsRest(c, j + 1, cuts, ps) && a <= cuts[0]
    ensures IsCuts(c, [a] + cuts)
    ensures IsRest(c, j, [a] + cuts, [Data(c, j, a, cuts[0]), DataAck(c, j, cuts[0])] + ps)
  {
    hide Add32, Data, DataAck, Closing;
    var cuts', ps' := [a] + cuts, [Data(c, j, a, cuts[0]), DataAck(c, j, cuts[0])] + ps;
    forall i: nat | i < |cuts'| - 1 ensures IsPair(c, j, cuts', ps', i) {
      if i > 0 {
        assert IsPair(c, j + 1, cuts, ps, i - 1);
        assert ps'[2 * i] == ps[2 * (i - 1)] && ps'[2 * i + 1] == ps[2 * (i - 1) + 1];
      }
    }
    assert ps'[2 * |cuts|..] == ps[2 * (|cuts| - 1)..];
  }

  /** Each piece is as long as its call draws it, and only the last reaches the end of the stream. */
  ghost predicate IsDrawn(cf: Config, buf: seq<Octet>, cuts: seq<nat>, chs: seq<Choice>)
    requires ValidChoices(chs)
  {
    && |cuts| > 0 && |chs| >= |cuts| - 1
    && (forall i :: 0 <= i < |cuts| - 1 ==>
          cuts[i] <= |buf| && IsSegment(cf, buf, cuts[i], chs[i], cuts[i + 1]))
    && (forall i :: 0 < i < |cuts| - 1 ==> cuts[i] < |buf|)
  }

  lemma NothingDrawn(cf: Config, buf: seq<Octet>, chs: seq<Choice>)
    requires ValidChoices(chs)
    ensures IsDrawn(cf, buf, [|buf|], chs)
  {}

  lemma OneMoreDrawn(cf: Config, buf: seq<Octet>, a: nat, cuts: seq<nat>, chs: seq<Choice>)
    requires ValidChoices(chs) && chs != [] && ValidChoices(chs[1..]) && a <= |buf| && cuts != []
    requires IsDrawn(cf, buf, cuts, chs[1..]) && IsSegment(cf, buf, a, chs[0], cuts[0])
    requires |cuts| > 1 ==> cuts[0] < |buf|
    ensures IsDrawn(cf, buf, [a] + cuts, chs)
  {
    hide IsSegment;
    var cuts' := [a] + cuts;
    forall i | 0 <= i < |cuts'| - 1
      ensures cuts'[i] <= |buf| && IsSegment(cf, buf, cuts'[i], chs[i], cuts'[i + 1])
    {
      if i > 0 {
        assert cuts'[i] == cuts[i - 1] && chs[i] == chs[1..][i - 1];
      }
    }
  }

  /** From any point of the data transfer on. */
  lemma {:induction false} RestWritten(cf: Config, c: Names, n: Node, chs: seq<Choice>, j: nat) returns (cuts: seq<nat>)
    requires ValidConfig(cf) && ValidChoices(chs) && At(c, n, j) && Returns(cf, n, chs)
    ensures |cuts| >= 2 && cuts[0] == n.offset && IsRest(c, j, cuts, RunPackets(cf, n, chs))
    ensures |chs| == |cuts| + 2 && IsDrawn(cf, c.buf, cuts, chs)
    ensures var last := chs[|chs| - 1];
            RunNode(cf, n, chs) == Node(c.buf, Closed, 0, last.nextSeq, last.nextAckSeq, 0, 0)
    decreases |chs|
  {
    hide Add32, StepNode, StepPackets, RunPackets, RunNode, Returns, IsRest, Data, DataAck, Closing, IsSegment, IsDrawn;
    ReturnsUnfolds(cf, n, chs);
    OneDataPacket(cf, c, n, chs[0], j);
    var n' := StepNode(cf, n, chs[0]);
    if n'.offset == |c.buf| {
      Closes(cf, c, n', chs[1..], j + 1);
      LastPair(c, j, n.offset);
      NothingDrawn(cf, c.buf, chs[1..]);
      OneMoreDrawn(cf, c.buf, n.offset, [|c.buf|], chs);
      cuts := [n.offset] + [|c.buf|];
      assert cuts == [n.offset, |c.buf|];
    } else {
      var more := RestWritten(cf, c, n', chs[1..], j + 1);
      OneMorePair(c, j, n.offset, more, RunPackets(cf, n', chs[1..]));
      OneMoreDrawn(cf, c.buf, n.offset, more, chs);
      cuts := [n.offset] + more;
    }
  }

  /**
   * Every connection, from CLOSED back to CLOSED: the handshake, one data packet and acknowledgement for
   * each piece of the stream in order, and the closing, with these numbers, timestamps and bytes. The node
   * is then ready for another one, with new numbers.
   */
  lemma ConnectionWritten(cf: Config, n: Node, chs: seq<Choice>) returns (c: Names, cuts: seq<nat>, rest: seq<Packet>)
    requires ValidConfig(cf) && ValidChoices(chs) && n.state == Closed && n.offset == 0 && Returns(cf, n, chs)
    ensures |chs| >= 2 && c == Names(n.buf, n.seqNo, chs[1].peerSeq, chs[0].now)
    ensures |cuts| >= 2 && cuts[0] == 0 && IsRest(c, 0, cuts, rest) && RunPackets(cf, n, chs) == Opening(c) + rest
    ensures |chs| == |cuts| + 5 && ValidChoices(chs[3..]) && IsDrawn(cf, n.buf, cuts, chs[3..])
    ensures var last := chs[|chs| - 1];
            RunNode(cf, n, chs) == Node(n.buf, Closed, 0, last.nextSeq, last.nextAckSeq, 0, 0)
  {
    hide Add32, Pred32, SegmentLen, RunPackets, RunNode, Returns, IsRest, IsDrawn;
    ReturnsUnfolds(cf, n, chs);
    var n1, r1 := StepNode(cf, n, chs[0]), chs[1..];
    ReturnsUnfolds(cf, n1, r1);
    var n2, r2 := StepNode(cf, n1, r1[0]), r1[1..];
    ReturnsUnfolds(cf, n2, r2);
    var n3 := StepNode(cf, n2, r2[0]);
    c := Names(n.buf, n.seqNo, chs[1].peerSeq, chs[0].now);
    Adds(c.now, 0, 0);
    assert r2[1..] == chs[3..];
    cuts := RestWritten(cf, c, n3, r2[1..], 0);
    rest := RunPackets(cf, n3, r2[1..]);
    assert RunPackets(cf, n, chs) == Opening(c) + rest;
  }
}
