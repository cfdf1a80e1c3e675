/**
 * src/stream_gen/stream_gen.c: the packets a stored stream is turned into. Both ends of the
 * connection are played by the generator, so a packet records which end it comes from.
 */
module StreamGen {
  import opened Basics
  import opened StringMatcher

  const TWO32: nat := 0x1_0000_0000

  /** A uint32_t: sequence numbers and timestamps wrap around. */
  type U32 = n: nat | n < 0x1_0000_0000

  function Add32(a: U32, k: nat): U32 { (a + k) % TWO32 }

  /** a - 1 in uint32_t arithmetic. */
  function Pred32(a: U32): U32 { (a + TWO32 - 1) % TWO32 }

  datatype TcpState = Closed | SynSent | SynRcvd | Established | Closing | FinSent1 | FinSent2

  datatype End = Client | Server

  datatype Packet = Packet(from: End, syn: bool, fin: bool, ack: bool, psh: bool,
                           seqNo: U32, ackNo: U32, tsVal: U32, tsEcr: U32, payload: seq<Octet>)

  /** The fields of a buf_node; tot_buf and len together are `buf`. */
  datatype Node = Node(buf: seq<Octet>, state: TcpState, offset: nat,
                       seqNo: U32, ackSeq: U32, ts: U32, tsPeer: U32)

  /** MAX_SEG_SIZE, is_len_fixed and len_cut. */
  datatype Config = Config(maxSeg: nat, lenFixed: bool, lenCut: int)

  predicate ValidConfig(c: Config) { 40 <= c.maxSeg < TWO32 - 1 }

  /** What one call draws from outside: packet type, number of parts, the clock and random numbers. */
  datatype Choice = Choice(fragment: bool, nParts: nat, now: U32, peerSeq: U32,
                           nextSeq: U32, nextAckSeq: U32, past: Octet)

  predicate ValidChoice(c: Choice) { c.nParts > 0 }

  const CRLF2: seq<Octet> := [13, 10, 13, 10]

  // ---------- Segment lengths ----------

  /** get_data_len */
  function DataLen(c: Config, len: nat, nParts: nat): (r: nat)
    requires ValidConfig(c) && nParts > 0
    ensures 40 <= r <= c.maxSeg
  {
    var length := if c.lenFixed then c.lenCut else len / nParts;
    if length < 40 then 40 else if length > c.maxSeg then c.maxSeg else length
  }

  /**
   * The length send_packet asks for. It is unsigned, so the test for a missing header end never
   * succeeds and -1 counts as a jumbo packet.
   */
  function WantedLen(c: Config, n: Node, ch: Choice): (r: nat)
    requires ValidConfig(c) && ValidChoice(ch) && n.offset <= |n.buf|
    ensures 4 <= r <= c.maxSeg
  {
    if ch.fragment then DataLen(c, |n.buf|, ch.nParts)
    else
      var m := FindEnd(n.buf[n.offset..], CRLF2);
      FindEndIsFirst(n.buf[n.offset..], CRLF2);
      var length := if m < 0 then TWO32 - 1 else m;
      if length > c.maxSeg then DataLen(c, |n.buf|, ch.nParts) else length
  }

  /** How many bytes the next data packet carries. */
  function SegmentLen(c: Config, n: Node, ch: Choice): (r: nat)
    requires ValidConfig(c) && ValidChoice(ch) && n.offset <= |n.buf|
    ensures n.offset + r <= |n.buf|
    ensures n.offset + r == |n.buf| || r >= 4
  {
    var rest := |n.buf| - n.offset;
    if WantedLen(c, n, ch) >= rest then rest else WantedLen(c, n, ch)
  }

  // ---------- One call of send_packet ----------

  /** set_field: ready to send the stream again. */
  function Reset(n: Node, ch: Choice): Node { Node(n.buf, Closed, 0, ch.nextSeq, ch.nextAckSeq, 0, 0) }

  function Flags(from: End, syn: bool, fin: bool, ack: bool, seqNo: U32, ackNo: U32, tsVal: U32, tsEcr: U32): Packet {
    Packet(from, syn, fin, ack, false, seqNo, ackNo, tsVal, tsEcr, [])
  }

  function StepNode(c: Config, n: Node, ch: Choice): Node
    requires ValidConfig(c) && ValidChoice(ch) && n.offset <= |n.buf|
  {
    match n.state
    case Closed => if n.offset != 0 then n else n.(state := SynSent, ts := ch.now, tsPeer := Add32(ch.now, 1234))
    case SynSent => n.(state := SynRcvd, ackSeq := ch.peerSeq)
    case SynRcvd => n.(state := Established, seqNo := Add32(n.seqNo, 1))
    case Established =>
      var k := SegmentLen(c, n, ch);
      n.(state := if n.offset + k == |n.buf| then Closing else Established, offset := n.offset + k,
         seqNo := Add32(n.seqNo, k), ts := Add32(n.ts, 1), tsPeer := Add32(n.tsPeer, 1))
    case Closing => n.(state := FinSent1, ts := Add32(n.ts, 1), tsPeer := Add32(n.tsPeer, 1))
    case FinSent1 => n.(state := FinSent2, ts := Add32(n.ts, 1))
    case FinSent2 => Reset(n, ch)
  }

  function StepPackets(c: Config, n: Node, ch: Choice): seq<Packet>
    requires ValidConfig(c) && ValidChoice(ch) && n.offset <= |n.buf|
  {
    match n.state
    case Closed => if n.offset != 0 then [] else [Flags(Client, true, false, false, n.seqNo, 0, ch.now, 0)]
    case SynSent =>
      [Flags(Server, true, false, true, Pred32(ch.peerSeq), Add32(n.seqNo, 1), n.tsPeer, n.ts)]
    case SynRcvd =>
      [Flags(Client, false, false, true, Add32(n.seqNo, 1), n.ackSeq, n.ts, n.tsPeer)]
    case Established =>
      var k := SegmentLen(c, n, ch);
      [Packet(Client, false, false, true, true, n.seqNo, n.ackSeq, Add32(n.ts, 1), n.tsPeer,
              n.buf[n.offset..n.offset + k]),
       Flags(Server, false, false, true, n.ackSeq, Add32(n.seqNo, k), Add32(n.tsPeer, 1), Add32(n.ts, 1))]
    case Closing =>
      [Flags(Client, false, true, true, n.seqNo, n.ackSeq, Add32(n.ts, 1), n.tsPeer)]
    case FinSent1 =>
      [Flags(Server, false, true, true, n.ackSeq, Add32(n.seqNo, 1), n.tsPeer, n.ts)]
    case FinSent2 =>
      [Flags(Client, false, false, true, Add32(n.seqNo, 1), Add32(n.ackSeq, 1), n.ts, n.tsPeer)]
  }

  // ---------- An in-order receiver at each end ----------

  /** What the two ends have seen: next expected numbers, latest timestamps, data and closings. */
  datatype Conn = Conn(clientNext: Option<U32>, serverNext: Option<U32>, clientTs: U32, serverTs: U32,
                       clientFin: bool, serverFin: bool, data: seq<Octet>)

  const START := Conn(None, None, 0, 0, false, false, [])

  /** Timestamps are compared modulo 2^32: a is not behind b. */
  predicate NotOlder(a: U32, b: U32) { (a + TWO32 - b) % TWO32 < 0x8000_0000 }

  lemma ClockAdvances(a: U32)
    ensures NotOlder(a, a) && NotOlder(Add32(a, 1), a) && NotOlder(a, Pred32(a))
  {}

  /**
   * The packet is the next one its receiver expects, is no older than the last one, and acknowledges
   * exactly what its sender has seen.
   */
  predicate Accepts(c: Conn, p: Packet) {
    match p.from
    case Client =>
      if c.clientNext == None then p.syn && !p.fin && !p.ack && p.ackNo == 0 && p.tsEcr == 0 && p.payload == []
      else
        && !p.syn && p.ack && c.serverNext.Some?
        && p.seqNo == c.clientNext.value && p.ackNo == c.serverNext.value && p.tsEcr == c.serverTs
        && NotOlder(p.tsVal, c.clientTs)
        && (c.clientFin ==> !p.fin && p.payload == [])
    case Server =>
      && c.clientNext.Some? && p.ack && p.payload == []
      && p.ackNo == c.clientNext.value && p.tsEcr == c.clientTs
      && (if c.serverNext == None then p.syn && !p.fin
          else
            && !p.syn && p.seqNo == c.serverNext.value && (p.fin ==> c.clientFin && !c.serverFin)
            && NotOlder(p.tsVal, c.serverTs))
  }

  function Received(c: Conn, p: Packet): Conn {
    var next := Some(Add32(p.seqNo, |p.payload| + (if p.syn then 1 else 0) + (if p.fin then 1 else 0)));
    match p.from
    case Client =>
      c.(clientNext := next, clientTs := p.tsVal, clientFin := c.clientFin || p.fin, data := c.data + p.payload)
    case Server =>
      c.(serverNext := next, serverTs := p.tsVal, serverFin := c.serverFin || p.fin)
  }

  predicate AcceptsAll(c: Conn, ps: seq<Packet>)
    decreases |ps|
  {
    ps == [] || (Accepts(c, ps[0]) && AcceptsAll(Received(c, ps[0]), ps[1..]))
  }

  function ReceivedAll(c: Conn, ps: seq<Packet>): Conn
    decreases |ps|
  {
    if ps == [] then c else ReceivedAll(Received(c, ps[0]), ps[1..])
  }

  lemma {:induction false} AcceptsAppends(c: Conn, a: seq<Packet>, b: seq<Packet>)
    ensures ReceivedAll(c, a + b) == ReceivedAll(ReceivedAll(c, a), b)
    ensures AcceptsAll(c, a + b) <==> AcceptsAll(c, a) && AcceptsAll(ReceivedAll(c, a), b)
    decreases |a|
  {
    hide Accepts, Received;
    if a == [] {
      assert a + b == b;
    } else {
      assert (a + b)[0] == a[0] && (a + b)[1..] == a[1..] + b;
      AcceptsAppends(Received(c, a[0]), a[1..], b);
    }
  }

  // ---------- The sender and the receivers in step ----------

  /** In each state, what the receivers have seen of the stream so far. */
  ghost predicate InStep(n: Node, c: Conn) {
    && n.offset <= |n.buf| && c.data == n.buf[..n.offset]
    && match n.state
       case Closed => n.offset == 0 && c == START
       case SynSent => n.offset == 0 && c == START.(clientNext := Some(Add32(n.seqNo, 1)), clientTs := n.ts)
       case SynRcvd =>
         n.offset == 0 && c == Conn(Some(Add32(n.seqNo, 1)), Some(n.ackSeq), n.ts, n.tsPeer, false, false, [])
       case Established =>
         c == Conn(Some(n.seqNo), Some(n.ackSeq), n.ts, n.tsPeer, false, false, c.data)
       case Closing =>
         n.offset == |n.buf| && c == Conn(Some(n.seqNo), Some(n.ackSeq), n.ts, n.tsPeer, false, false, c.data)
       case FinSent1 =>
         n.offset == |n.buf| &&
         c == Conn(Some(Add32(n.seqNo, 1)), Some(n.ackSeq), n.ts, Pred32(n.tsPeer), true, false, c.data)
       case FinSent2 =>
         n.offset == |n.buf| &&
         c == Conn(Some(Add32(n.seqNo, 1)), Some(Add32(n.ackSeq, 1)), Pred32(n.ts), n.tsPeer, true, true, c.data)
  }

  /** Both ends closed, everything delivered. */
  predicate Complete(c: Conn, buf: seq<Octet>) { c.clientFin && c.serverFin && c.data == buf }

  lemma PredOfAdd(a: U32)
    ensures Pred32(Add32(a, 1)) == a && Add32(Pred32(a), 1) == a
    ensures Add32(a, 0) == a
  {}

  lemma OnePacket(c: Conn, p: Packet)
    ensures AcceptsAll(c, [p]) == Accepts(c, p)
    ensures ReceivedAll(c, [p]) == Received(c, p)
  {
    hide Accepts, Received;
    var c' := Received(c, p);
    assert [p][1..] == [] && AcceptsAll(c', []) && ReceivedAll(c', []) == c';
  }

  lemma TwoPackets(c: Conn, p: Packet, q: Packet)
    ensures AcceptsAll(c, [p, q]) == (Accepts(c, p) && Accepts(Received(c, p), q))
    ensures ReceivedAll(c, [p, q]) == Received(Received(c, p), q)
  {
    hide Accepts, Received;
    OnePacket(Received(c, p), q);
    assert [p, q][1..] == [q];
  }

  /** What one call does to the sender and the receivers together. */
  ghost predicate StepKeeps(cf: Config, n: Node, ch: Choice, c: Conn)
    requires ValidConfig(cf) && ValidChoice(ch) && n.offset <= |n.buf|
  {
    hide SegmentLen;
    var ps, n' := StepPackets(cf, n, ch), StepNode(cf, n, ch);
    && AcceptsAll(c, ps)
    && if n.state == FinSent2 then Complete(ReceivedAll(c, ps), n.buf) && n'.state == Closed
       else InStep(n', ReceivedAll(c, ps)) && n'.buf == n.buf
  }

  lemma OpeningAccepted(cf: Config, n: Node, ch: Choice, c: Conn)
    requires ValidConfig(cf) && ValidChoice(ch) && InStep(n, c)
    requires n.state == Closed || n.state == SynSent || n.state == SynRcvd
    ensures StepKeeps(cf, n, ch, c)
  {
    hide SegmentLen, Add32, Pred32, AcceptsAll, ReceivedAll, NotOlder;
    ClockAdvances(n.ts);
    PredOfAdd(ch.peerSeq);
    PredOfAdd(Add32(n.seqNo, 1));
    OnePacket(c, StepPackets(cf, n, ch)[0]);
  }

  lemma DataAccepted(cf: Config, n: Node, ch: Choice, c: Conn)
    requires ValidConfig(cf) && ValidChoice(ch) && InStep(n, c) && n.state == Established
    ensures StepKeeps(cf, n, ch, c)
  {
    hide SegmentLen, Add32, Pred32, AcceptsAll, ReceivedAll, NotOlder;
    ClockAdvances(n.ts);
    ClockAdvances(n.tsPeer);
    var k, ps := SegmentLen(cf, n, ch), StepPackets(cf, n, ch);
    PredOfAdd(n.ackSeq);
    TwoPackets(c, ps[0], ps[1]);
    assert n.buf[..n.offset] + n.buf[n.offset..n.offset + k] == n.buf[..n.offset + k];
  }

  lemma ClosingAccepted(cf: Config, n: Node, ch: Choice, c: Conn)
    requires ValidConfig(cf) && ValidChoice(ch) && InStep(n, c)
    requires n.state == Closing || n.state == FinSent1 || n.state == FinSent2
    ensures StepKeeps(cf, n, ch, c)
  {
    hide SegmentLen, Add32, Pred32, AcceptsAll, ReceivedAll, NotOlder;
    ClockAdvances(n.ts);
    ClockAdvances(n.tsPeer);
    PredOfAdd(n.ts);
    PredOfAdd(n.tsPeer);
    OnePacket(c, StepPackets(cf, n, ch)[0]);
    assert c.data + [] == c.data == n.buf;
  }

  /** Every call emits packets the receivers accept and keeps sender and receivers in step. */
  lemma StepAccepted(cf: Config, n: Node, ch: Choice, c: Conn)
    requires ValidConfig(cf) && ValidChoice(ch) && InStep(n, c)
    ensures StepKeeps(cf, n, ch, c)
  {
    hide StepKeeps, InStep;
    StillInRange(n, c);
    match n.state
    case Closed | SynSent | SynRcvd => OpeningAccepted(cf, n, ch, c);
    case Established => DataAccepted(cf, n, ch, c);
    case Closing | FinSent1 | FinSent2 => ClosingAccepted(cf, n, ch, c);
  }

  lemma StillInRange(n: Node, c: Conn)
    requires InStep(n, c)
    ensures n.offset <= |n.buf| && (n.state == Closed ==> n.offset == 0)
  {}

  // ---------- Whole runs ----------

  predicate ValidChoices(chs: seq<Choice>) { forall ch :: ch in chs ==> ValidChoice(ch) }

  lemma StepInRange(cf: Config, n: Node, ch: Choice)
    requires ValidConfig(cf) && ValidChoice(ch) && n.offset <= |n.buf|
    ensures StepNode(cf, n, ch).offset <= |StepNode(cf, n, ch).buf|
    ensures StepNode(cf, n, ch).buf == n.buf
  {
    hide SegmentLen, Add32;
  }

  /** The node after a run of calls. */
  function RunNode(cf: Config, n: Node, chs: seq<Choice>): (r: Node)
    requires ValidConfig(cf) && ValidChoices(chs) && n.offset <= |n.buf|
    ensures r.offset <= |r.buf| && r.buf == n.buf
    decreases |chs|
  {
    hide StepNode;
    if chs == [] then n
    else
      StepInRange(cf, n, chs[0]);
      RunNode(cf, StepNode(cf, n, chs[0]), chs[1..])
  }

  /** The packets of a run of calls. */
  function RunPackets(cf: Config, n: Node, chs: seq<Choice>): seq<Packet>
    requires ValidConfig(cf) && ValidChoices(chs) && n.offset <= |n.buf|
    decreases |chs|
  {
    hide StepNode, StepPackets;
    if chs == [] then []
    else
      StepInRange(cf, n, chs[0]);
      StepPackets(cf, n, chs[0]) + RunPackets(cf, StepNode(cf, n, chs[0]), chs[1..])
  }

  /** The run ends in CLOSED and is not there after any earlier call. */
  predicate Returns(cf: Config, n: Node, chs: seq<Choice>)
    requires ValidConfig(cf) && ValidChoices(chs) && n.offset <= |n.buf|
    decreases |chs|
  {
    hide StepNode;
    chs != [] &&
    (StepInRange(cf, n, chs[0]);
     var n' := StepNode(cf, n, chs[0]);
     if n'.state == Closed then |chs| == 1 else Returns(cf, n', chs[1..]))
  }

  /** From any point of a connection on, the packets up to its end are accepted and complete the stream. */
  lemma {:induction false} RestAccepted(cf: Config, n: Node, chs: seq<Choice>, c: Conn)
    requires ValidConfig(cf) && ValidChoices(chs) && InStep(n, c) && Returns(cf, n, chs)
    ensures AcceptsAll(c, RunPackets(cf, n, chs))
    ensures Complete(ReceivedAll(c, RunPackets(cf, n, chs)), n.buf)
    decreases |chs|
  {
    hide StepNode, StepPackets, InStep, Complete, AcceptsAll, ReceivedAll;
    StillInRange(n, c);
    StepAccepted(cf, n, chs[0], c);
    StepInRange(cf, n, chs[0]);
    var ps, n' := StepPackets(cf, n, chs[0]), StepNode(cf, n, chs[0]);
    var rest := RunPackets(cf, n', chs[1..]);
    AcceptsAppends(c, ps, rest);
    if n'.state == Closed {
      assert chs[1..] == [] && ps + rest == ps;
      OnlyFinalClosed(cf, n, chs[0]);
    } else {
      NotFinal(cf, n, chs[0]);
      RestAccepted(cf, n', chs[1..], ReceivedAll(c, ps));
    }
  }

  lemma OnlyFinalClosed(cf: Config, n: Node, ch: Choice)
    requires ValidConfig(cf) && ValidChoice(ch) && n.offset <= |n.buf|
    ensures StepNode(cf, n, ch).state == Closed && (n.state == Closed ==> n.offset == 0) ==> n.state == FinSent2
  {}

  lemma NotFinal(cf: Config, n: Node, ch: Choice)
    requires ValidConfig(cf) && ValidChoice(ch) && n.offset <= |n.buf|
    ensures StepNode(cf, n, ch).state != Closed ==> n.state != FinSent2
  {}

  /**
   * For every stored stream and every draw of lengths, clock and random numbers: the packets sent from
   * CLOSED back to CLOSED are accepted in order by both ends and their payloads add up to the stream.
   */
  lemma StreamDelivered(cf: Config, n: Node, chs: seq<Choice>)
    requires ValidConfig(cf) && ValidChoices(chs) && n.state == Closed && n.offset == 0
    requires Returns(cf, n, chs)
    ensures AcceptsAll(START, RunPackets(cf, n, chs))
    ensures Complete(ReceivedAll(START, RunPackets(cf, n, chs)), n.buf)
  {
    RestAccepted(cf, n, chs, START);
  }

  // ---------- One connection after another ----------

  /** Both ends over many connections: the one in progress, and the data of those completed. */
  datatype Watched = Watched(ok: bool, conn: Conn, delivered: seq<seq<Octet>>)

  /** When both ends have closed, the next accepted packet ends the connection and a new one may start. */
  function WatchOne(w: Watched, p: Packet): Watched {
    if !w.ok || !Accepts(w.conn, p) then w.(ok := false)
    else if w.conn.clientFin && w.conn.serverFin then Watched(true, START, w.delivered + [Received(w.conn, p).data])
    else w.(conn := Received(w.conn, p))
  }

  function Watch(w: Watched, ps: seq<Packet>): Watched
    decreases |ps|
  {
    if ps == [] then w else Watch(WatchOne(w, ps[0]), ps[1..])
  }

  lemma {:induction false} WatchAppends(w: Watched, a: seq<Packet>, b: seq<Packet>)
    ensures Watch(w, a + b) == Watch(Watch(w, a), b)
    decreases |a|
  {
    hide WatchOne;
    if a == [] {
      assert a + b == b;
    } else {
      assert (a + b)[0] == a[0] && (a + b)[1..] == a[1..] + b;
      WatchAppends(WatchOne(w, a[0]), a[1..], b);
    }
  }

  lemma {:induction false} WatchOpen(w: Watched, ps: seq<Packet>)
    requires w.ok && AcceptsAll(w.conn, ps)
    requires !(w.conn.clientFin && w.conn.serverFin) && |ps| <= 2
    requires |ps| == 2 ==> !(Received(w.conn, ps[0]).clientFin && Received(w.conn, ps[0]).serverFin)
    ensures Watch(w, ps) == w.(conn := ReceivedAll(w.conn, ps))
  {
    hide Accepts, Received;
    if |ps| == 1 {
      assert ps[1..] == [];
    } else if |ps| == 2 {
      var q, v := ps[1..], WatchOne(w, ps[0]);
      assert q[1..] == [] && q[0] == ps[1];
      assert v.conn == Received(w.conn, ps[0]);
      assert Watch(v, q) == Watch(WatchOne(v, q[0]), q[1..]);
      assert ReceivedAll(v.conn, q) == ReceivedAll(Received(v.conn, q[0]), q[1..]);
      assert AcceptsAll(v.conn, q);
    }
  }

  /** A call is watched without complaint; the last one of a connection delivers the whole stream. */
  lemma StepWatched(cf: Config, n: Node, ch: Choice, w: Watched)
    requires ValidConfig(cf) && ValidChoice(ch) && w.ok && InStep(n, w.conn)
    ensures n.offset <= |n.buf|
    ensures var r := Watch(w, StepPackets(cf, n, ch));
            && r.ok && InStep(StepNode(cf, n, ch), r.conn)
            && r.delivered == w.delivered + (if n.state == FinSent2 then [n.buf] else [])
  {
    hide SegmentLen, Add32, Pred32, Accepts, AcceptsAll;
    var ps := StepPackets(cf, n, ch);
    StepAccepted(cf, n, ch, w.conn);
    if n.state == FinSent2 {
      OnePacket(w.conn, ps[0]);
      assert ps[1..] == [] && w.conn.data + [] == w.conn.data == n.buf;
      assert Watch(WatchOne(w, ps[0]), []) == WatchOne(w, ps[0]);
      assert n.buf[..0] == [];
    } else {
      WatchOpen(w, ps);
      assert w.delivered + [] == w.delivered;
    }
  }

  // ---------- How long it takes ----------

  /** The most data packets r bytes can take. */
  function MostData(r: nat): nat { r / 4 + 1 }

  /** A bound on the calls left until CLOSED. */
  function Rank(n: Node): nat
    requires n.offset <= |n.buf|
  {
    match n.state
    case Closed => 6 + MostData(|n.buf|)
    case SynSent => 5 + MostData(|n.buf|)
    case SynRcvd => 4 + MostData(|n.buf|)
    case Established => 3 + MostData(|n.buf| - n.offset)
    case Closing => 3
    case FinSent1 => 2
    case FinSent2 => 1
  }

  ghost predicate Reachable(n: Node) {
    n.offset <= |n.buf| && (n.state == Closed || n.state == SynSent || n.state == SynRcvd ==> n.offset == 0)
  }

  lemma RankDecreases(cf: Config, n: Node, ch: Choice)
    requires ValidConfig(cf) && ValidChoice(ch) && Reachable(n)
    ensures Reachable(StepNode(cf, n, ch))
    ensures n.state != FinSent2 ==> StepNode(cf, n, ch).state != Closed && Rank(StepNode(cf, n, ch)) < Rank(n)
    ensures n.state == FinSent2 ==> StepNode(cf, n, ch).state == Closed
  {
    hide SegmentLen, Add32;
  }

  /** However the lengths are drawn, the stream is closed again within len / 4 + 7 calls. */
  lemma {:induction false} Terminates(cf: Config, n: Node, chs: seq<Choice>) returns (k: nat)
    requires ValidConfig(cf) && ValidChoices(chs) && Reachable(n) && |chs| >= Rank(n)
    ensures 0 < k <= Rank(n) && Returns(cf, n, chs[..k])
    decreases |chs|
  {
    hide StepNode;
    RankDecreases(cf, n, chs[0]);
    StepInRange(cf, n, chs[0]);
    var n' := StepNode(cf, n, chs[0]);
    if n'.state == Closed {
      k := 1;
      assert chs[..1][0] == chs[0];
    } else {
      var j := Terminates(cf, n', chs[1..]);
      k := j + 1;
      assert chs[..k][1..] == chs[1..][..j] && chs[..k][0] == chs[0];
    }
  }

  /** The number of data packets, the ones with PSH set. */
  function DataPackets(ps: seq<Packet>): nat {
    if ps == [] then 0 else (if ps[0].psh then 1 else 0) + DataPackets(ps[1..])
  }

  lemma {:induction false} DataPacketsAppend(a: seq<Packet>, b: seq<Packet>)
    ensures DataPackets(a + b) == DataPackets(a) + DataPackets(b)
  {
    if a == [] {
      assert a + b == b;
    } else {
      assert (a + b)[0] == a[0] && (a + b)[1..] == a[1..] + b;
      DataPacketsAppend(a[1..], b);
    }
  }

  lemma StepData(cf: Config, n: Node, ch: Choice)
    requires ValidConfig(cf) && ValidChoice(ch) && n.offset <= |n.buf|
    ensures DataPackets(StepPackets(cf, n, ch)) == if n.state == Established then 1 else 0
  {
    hide SegmentLen, Add32, Pred32;
    var ps := StepPackets(cf, n, ch);
    NoData();
    if |ps| == 1 {
      assert ps[1..] == [];
    } else if |ps| == 2 {
      assert ps[1..] == [ps[1]] && [ps[1]][1..] == [];
      assert DataPackets([ps[1]]) == 0;
    }
  }

  /** The data packets still to come. */
  function DataLeft(n: Node): nat
    requires n.offset <= |n.buf|
  {
    match n.state
    case Closed | SynSent | SynRcvd => MostData(|n.buf|)
    case Established => MostData(|n.buf| - n.offset)
    case Closing | FinSent1 | FinSent2 => 0
  }

  lemma {:induction false} DataBound(cf: Config, n: Node, chs: seq<Choice>)
    requires ValidConfig(cf) && ValidChoices(chs) && Reachable(n) && Returns(cf, n, chs)
    ensures DataPackets(RunPackets(cf, n, chs)) <= DataLeft(n)
    decreases |chs|
  {
    hide StepPackets, DataPackets;
    StepInRange(cf, n, chs[0]);
    RankDecreases(cf, n, chs[0]);
    StepData(cf, n, chs[0]);
    var n' := StepNode(cf, n, chs[0]);
    DataPacketsAppend(StepPackets(cf, n, chs[0]), RunPackets(cf, n', chs[1..]));
    if n'.state == Closed {
      assert chs[1..] == [];
      NoData();
    } else {
      DataBound(cf, n', chs[1..]);
      LeftDecreases(cf, n, chs[0]);
    }
  }

  lemma NoData()
    ensures DataPackets([]) == 0
  {}

  lemma LeftDecreases(cf: Config, n: Node, ch: Choice)
    requires ValidConfig(cf) && ValidChoice(ch) && Reachable(n) && n.state != FinSent2
    ensures StepNode(cf, n, ch).offset <= |StepNode(cf, n, ch).buf|
    ensures DataLeft(StepNode(cf, n, ch)) + (if n.state == Established then 1 else 0) <= DataLeft(n)
  {
    hide SegmentLen, Add32;
  }

  /** At most len / 4 + 1 data packets are sent for a stream. */
  lemma FewDataPackets(cf: Config, n: Node, chs: seq<Choice>)
    requires ValidConfig(cf) && ValidChoices(chs) && n.state == Closed && n.offset == 0
    requires Returns(cf, n, chs)
    ensures DataPackets(RunPackets(cf, n, chs)) <= |n.buf| / 4 + 1
  {
    DataBound(cf, n, chs);
  }

  // ---------- The code ----------

  /** struct buf_node, as send_packet updates it. */
  class BufNode {
    var buf: seq<Octet>
    var state: TcpState
    var offset: nat
    var seqNo: U32
    var ackSeq: U32
    var ts: U32
    var tsPeer: U32

    ghost function Value(): Node
      reads this
    {
      Node(buf, state, offset, seqNo, ackSeq, ts, tsPeer)
    }

    /** insert_buf_node followed by set_field */
    constructor (data: seq<Octet>, ch: Choice)
      ensures Value() == Node(data, Closed, 0, ch.nextSeq, ch.nextAckSeq, 0, 0)
    {
      buf, state, offset, seqNo, ackSeq, ts, tsPeer := data, Closed, 0, ch.nextSeq, ch.nextAckSeq, 0, 0;
    }

    /** send_syn */
    method SendSyn(ch: Choice) returns (p: Packet)
      requires state == Closed || state == SynSent || state == SynRcvd
      modifies this
      ensures old(state) == Closed ==>
                && Value() == old(Value()).(state := SynSent, ts := ch.now, tsPeer := Add32(ch.now, 1234))
                && p == Flags(Client, true, false, false, seqNo, 0, ts, 0)
      ensures old(state) == SynSent ==>
                && Value() == old(Value()).(state := SynRcvd, ackSeq := ch.peerSeq)
                && p == Flags(Server, true, false, true, Pred32(ackSeq), Add32(seqNo, 1), tsPeer, ts)
      ensures old(state) == SynRcvd ==>
                && Value() == old(Value()).(state := Established, seqNo := Add32(old(seqNo), 1))
                && p == Flags(Client, false, false, true, seqNo, ackSeq, ts, tsPeer)
    {
      if state == Closed {
        ts := ch.now;
        tsPeer := Add32(ts, 1234);
        p := Flags(Client, true, false, false, seqNo, 0, ts, 0);
        state := SynSent;
      } else if state == SynSent {
        ackSeq := ch.peerSeq;
        p := Flags(Server, true, false, true, Pred32(ackSeq), Add32(seqNo, 1), tsPeer, ts);
        state := SynRcvd;
      } else {
        seqNo := Add32(seqNo, 1);
        p := Flags(Client, false, false, true, seqNo, ackSeq, ts, tsPeer);
        state := Established;
      }
    }

    /** send_ack */
    method SendAck() returns (p: Packet)
      modifies this
      ensures Value() == old(Value()).(tsPeer := Add32(old(tsPeer), 1))
      ensures p == Flags(Server, false, false, true, ackSeq, seqNo, tsPeer, ts)
    {
      var tsRecent := ts;
      tsPeer := Add32(tsPeer, 1);
      p := Flags(Server, false, false, true, ackSeq, seqNo, tsPeer, tsRecent);
    }

    /** send_data_pkt */
    method SendDataPkt(wanted: nat) returns (p: Packet, a: Packet)
      requires offset <= |buf|
      modifies this
      ensures var n, k := old(Value()), if wanted >= old(|buf| - offset) then old(|buf| - offset) else wanted;
              && Value() == n.(state := if wanted >= |n.buf| - n.offset then Closing else n.state,
                               offset := n.offset + k, seqNo := Add32(n.seqNo, k),
                               ts := Add32(n.ts, 1), tsPeer := Add32(n.tsPeer, 1))
              && p == Packet(Client, false, false, true, true, n.seqNo, n.ackSeq, ts, n.tsPeer,
                             n.buf[n.offset..n.offset + k])
              && a == Flags(Server, false, false, true, n.ackSeq, seqNo, tsPeer, ts)
    {
      var restLen, length := |buf| - offset, wanted;
      if length >= restLen {
        length := restLen;
        state := Closing;
      }
      var tsRecent := tsPeer;
      ts := Add32(ts, 1);
      p := Packet(Client, false, false, true, true, seqNo, ackSeq, ts, tsRecent, buf[offset..offset + length]);
      offset := offset + length;
      seqNo := Add32(seqNo, length);
      a := SendAck();
    }

    /** send_fin */
    method SendFin(ch: Choice) returns (p: Packet)
      requires state == Closing || state == FinSent1 || state == FinSent2
      modifies this
      ensures old(state) == Closing ==>
                && Value() == old(Value()).(state := FinSent1, ts := Add32(old(ts), 1), tsPeer := Add32(old(tsPeer), 1))
                && p == Flags(Client, false, true, true, seqNo, ackSeq, ts, old(tsPeer))
      ensures old(state) == FinSent1 ==>
                && Value() == old(Value()).(state := FinSent2, ts := Add32(old(ts), 1))
                && p == Flags(Server, false, true, true, ackSeq, Add32(seqNo, 1), tsPeer, old(ts))
      ensures old(state) == FinSent2 ==>
                && Value() == Reset(old(Value()), ch)
                && p == Flags(Client, false, false, true, Add32(old(seqNo), 1), Add32(old(ackSeq), 1),
                              old(ts), old(tsPeer))
    {
      if state == Closing {
        var tsRecent := tsPeer;
        tsPeer := Add32(tsPeer, 1);
        ts := Add32(ts, 1);
        p := Flags(Client, false, true, true, seqNo, ackSeq, ts, tsRecent);
        state := FinSent1;
      } else if state == FinSent1 {
        var tsRecent := ts;
        ts := Add32(ts, 1);
        p := Flags(Server, false, true, true, ackSeq, Add32(seqNo, 1), tsPeer, tsRecent);
        state := FinSent2;
      } else {
        p := Flags(Client, false, false, true, Add32(seqNo, 1), Add32(ackSeq, 1), ts, tsPeer);
        seqNo, ackSeq, ts, tsPeer, state, offset := ch.nextSeq, ch.nextAckSeq, 0, 0, Closed, 0;
      }
    }

    /** send_packet; shift is the table built for the header end. */
    method SendPacket(cf: Config, ch: Choice, shift: array<nat>) returns (ps: seq<Packet>)
      requires ValidConfig(cf) && ValidChoice(ch) && offset <= |buf|
      requires IsShiftTable(shift[..], CRLF2)
      modifies this
      ensures Value() == StepNode(cf, old(Value()), ch)
      ensures ps == StepPackets(cf, old(Value()), ch)
    {
      hide Add32, Pred32, FindEnd, IsShiftTable;
      if state == Closed || state == SynSent || state == SynRcvd {
        if state == Closed && offset != 0 {
          return [];
        }
        var p := SendSyn(ch);
        ps := [p];
      } else if state == Established {
        var length: nat;
        if ch.fragment {
          length := DataLen(cf, |buf|, ch.nParts);
        } else {
          var m := SundayMatch(buf[offset..], CRLF2, shift, ch.past);
          FindEndIsFirst(buf[offset..], CRLF2);
          length := if m < 0 then TWO32 - 1 else m;
          if length > cf.maxSeg {
            length := DataLen(cf, |buf|, ch.nParts);
          }
        }
        assert length == WantedLen(cf, old(Value()), ch);
        var p, a := SendDataPkt(length);
        ps := [p, a];
      } else {
        var p := SendFin(ch);
        ps := [p];
      }
    }
  }
}
