/**
 * The multi-threaded mode of src/stream_gen/stream_gen.c: each thread sweeps over a fixed set of its
 * own nodes, and a finished stream exchanges its data with a node that is never sent from.
 */
module SendThreads {
  import opened Basics
  import opened StreamGen

  /** nb_stream, nb_concur and nb_snd_thread; run_send_threads exits unless every thread gets a stream. */
  datatype Setup = Setup(streams: nat, concur: nat, threads: nat)

  predicate ValidSetup(s: Setup) { s.threads > 0 && s.concur / s.threads > 0 }

  /** One call of send_packet on node i, with the number rand() gives should the stream end. */
  datatype Event = Event(i: nat, ch: Choice, rand: nat)

  /** The indices a thread sends from: id, id + threads, ... , concur / threads of them. */
  function Slot(s: Setup, id: nat, c: nat): nat { id + s.threads * c }

  /** No thread sends from an index at or above nb_concur. */
  lemma SendsBelow(s: Setup, id: nat, c: nat)
    requires ValidSetup(s) && id < s.threads && c < s.concur / s.threads
    ensures Slot(s, id, c) < s.concur
  {
    var q := s.concur / s.threads;
    MulMonotone(s.threads, c + 1, q);
    assert s.threads * q <= s.concur;
    assert s.threads * (c + 1) == s.threads * c + s.threads;
  }

  lemma MulMonotone(t: nat, a: nat, b: nat)
    requires a <= b
    ensures t * a <= t * b
  {}

  // ---------- The exchange at the end of a stream ----------

  /** Whether there are enough spare streams to exchange with. */
  predicate Exchanges(s: Setup) { s.streams - s.concur - 2 > 10 }

  /** A random index above nb_concur. */
  function Partner(s: Setup, rand: nat): (j: nat)
    requires Exchanges(s)
    ensures s.concur < j < s.streams
  {
    rand % (s.streams - s.concur - 2) + s.concur + 1
  }

  function Exchanged(nodes: seq<Node>, i: nat, j: nat): (r: seq<Node>)
    requires i < |nodes| && j < |nodes|
    ensures |r| == |nodes|
  {
    nodes[i := nodes[i].(buf := nodes[j].buf)][j := nodes[j].(buf := nodes[i].buf)]
  }

  ghost predicate Valid(s: Setup, nodes: seq<Node>) {
    && |nodes| == s.streams
    && forall i :: 0 <= i < |nodes| ==> Reachable(nodes[i])
  }

  /** The thread's nodes after one call. */
  function Sent(cf: Config, s: Setup, nodes: seq<Node>, e: Event): (r: seq<Node>)
    requires ValidConfig(cf) && ValidChoice(e.ch) && e.i < |nodes| == s.streams
    requires nodes[e.i].offset <= |nodes[e.i].buf|
    ensures |r| == |nodes|
  {
    hide StepNode;
    var stepped := nodes[e.i := StepNode(cf, nodes[e.i], e.ch)];
    if nodes[e.i].state == FinSent2 && Exchanges(s) then Exchanged(stepped, e.i, Partner(s, e.rand)) else stepped
  }

  // ---------- What every call keeps ----------

  /** The data of all nodes, as a multiset. */
  function Bufs(nodes: seq<Node>): seq<seq<Octet>> { seq(|nodes|, i requires 0 <= i < |nodes| => nodes[i].buf) }

  lemma SwapKeepsMultiset(a: seq<seq<Octet>>, i: nat, j: nat)
    requires i < |a| && j < |a|
    ensures multiset(a[i := a[j]][j := a[i]]) == multiset(a)
  {
    var b := a[i := a[j]][j := a[i]];
    if i == j {
      assert b == a;
    } else {
      assert multiset(a[i := a[j]]) == multiset(a) - multiset{a[i]} + multiset{a[j]};
      assert multiset(b) == multiset(a[i := a[j]]) - multiset{a[j]} + multiset{a[i]};
    }
  }

  lemma BufsKept(cf: Config, s: Setup, nodes: seq<Node>, e: Event)
    requires ValidConfig(cf) && ValidChoice(e.ch) && e.i < |nodes| == s.streams
    requires nodes[e.i].offset <= |nodes[e.i].buf|
    ensures multiset(Bufs(Sent(cf, s, nodes, e))) == multiset(Bufs(nodes))
  {
    hide StepNode;
    StepInRange(cf, nodes[e.i], e.ch);
    var stepped := nodes[e.i := StepNode(cf, nodes[e.i], e.ch)];
    assert Bufs(stepped) == Bufs(nodes);
    if nodes[e.i].state == FinSent2 && Exchanges(s) {
      var j := Partner(s, e.rand);
      var b := Bufs(stepped);
      assert Bufs(Exchanged(stepped, e.i, j)) == b[e.i := b[j]][j := b[e.i]];
      SwapKeepsMultiset(b, e.i, j);
    }
  }

  /** Spare nodes stay closed and unsent; a stream in progress other than the one sent from is untouched. */
  ghost predicate SparesIdle(s: Setup, nodes: seq<Node>) {
    forall i :: s.concur <= i < |nodes| ==> nodes[i].state == Closed && nodes[i].offset == 0
  }

  lemma SentKeeps(cf: Config, s: Setup, nodes: seq<Node>, e: Event)
    requires ValidConfig(cf) && ValidChoice(e.ch) && Valid(s, nodes) && SparesIdle(s, nodes)
    requires e.i < s.concur && e.i < s.streams
    ensures Valid(s, Sent(cf, s, nodes, e)) && SparesIdle(s, Sent(cf, s, nodes, e))
    ensures forall k :: 0 <= k < s.concur && k < s.streams && k != e.i ==> Sent(cf, s, nodes, e)[k] == nodes[k]
    ensures nodes[e.i].state != FinSent2 ==> Sent(cf, s, nodes, e)[e.i] == StepNode(cf, nodes[e.i], e.ch)
    ensures nodes[e.i].state == FinSent2 ==>
              var n := Sent(cf, s, nodes, e)[e.i]; n.state == Closed && n.offset == 0
  {
    hide StepNode;
    RankDecreases(cf, nodes[e.i], e.ch);
    var stepped := nodes[e.i := StepNode(cf, nodes[e.i], e.ch)];
    if nodes[e.i].state == FinSent2 && Exchanges(s) {
      var j := Partner(s, e.rand);
      var r := Exchanged(stepped, e.i, j);
      forall k | 0 <= k < |r| ensures Reachable(r[k]) {
        assert Reachable(nodes[k]);
      }
    }
  }

  /** The partners are the nodes after the sending ones, but for the first and the last of these. */
  lemma PartnerExactly(s: Setup, j: nat)
    requires Exchanges(s)
    ensures (exists rand: nat :: Partner(s, rand) == j) <==> s.concur < j < s.streams - 1
  {
    if s.concur < j < s.streams - 1 {
      var r := j - s.concur - 1;
      assert Partner(s, r) == j by {
        assert r % (s.streams - s.concur - 2) == r;
      }
    }
  }

  /**
   * At the end of a stream with more than twelve nodes to spare, the data of the node and of the one rand
   * picks are exchanged; no other node's data changes, and at no other time.
   */
  lemma ExchangeIs(cf: Config, s: Setup, nodes: seq<Node>, e: Event, k: nat)
    requires ValidConfig(cf) && ValidChoice(e.ch) && e.i < |nodes| == s.streams && k < |nodes|
    requires nodes[e.i].offset <= |nodes[e.i].buf| && e.i < s.concur
    ensures var r := Sent(cf, s, nodes, e);
            if nodes[e.i].state == FinSent2 && s.streams > s.concur + 12 then
              var j := s.concur + 1 + e.rand % (s.streams - s.concur - 2);
              && j < |nodes|
              && r[k].buf == if k == e.i then nodes[j].buf else if k == j then nodes[e.i].buf else nodes[k].buf
            else r[k].buf == nodes[k].buf
  {
    hide StepNode;
    StepInRange(cf, nodes[e.i], e.ch);
  }

  // ---------- Any run of a thread ----------

  ghost predicate ValidEvents(s: Setup, events: seq<Event>) {
    forall e :: e in events ==> ValidChoice(e.ch) && e.i < s.concur && e.i < s.streams
  }

  function Run(cf: Config, s: Setup, nodes: seq<Node>, events: seq<Event>): (r: seq<Node>)
    requires ValidConfig(cf) && Valid(s, nodes) && SparesIdle(s, nodes)
    requires ValidEvents(s, events)
    decreases |events|
  {
    hide Sent, Valid, SparesIdle;
    if events == [] then nodes
    else
      ValidAt(s, nodes, events[0].i);
      SentKeeps(cf, s, nodes, events[0]);
      Run(cf, s, Sent(cf, s, nodes, events[0]), events[1..])
  }

  lemma ValidAt(s: Setup, nodes: seq<Node>, i: nat)
    requires Valid(s, nodes) && i < s.streams
    ensures i < |nodes| == s.streams && nodes[i].offset <= |nodes[i].buf|
  {}

  /** Over any run: no offset passes its length, spares stay idle, and no stored stream is lost or doubled. */
  lemma {:induction false} RunKeeps(cf: Config, s: Setup, nodes: seq<Node>, events: seq<Event>)
    requires ValidConfig(cf) && Valid(s, nodes) && SparesIdle(s, nodes)
    requires ValidEvents(s, events)
    ensures Valid(s, Run(cf, s, nodes, events)) && SparesIdle(s, Run(cf, s, nodes, events))
    ensures multiset(Bufs(Run(cf, s, nodes, events))) == multiset(Bufs(nodes))
    decreases |events|
  {
    hide Sent, Valid, SparesIdle, Bufs;
    if events != [] {
      ValidAt(s, nodes, events[0].i);
      SentKeeps(cf, s, nodes, events[0]);
      BufsKept(cf, s, nodes, events[0]);
      RunKeeps(cf, s, Sent(cf, s, nodes, events[0]), events[1..]);
    }
  }

  /** The choices of the calls on one node. */
  function Mine(events: seq<Event>, i: nat): seq<Choice> {
    if events == [] then []
    else if events[0].i == i then [events[0].ch] + Mine(events[1..], i)
    else Mine(events[1..], i)
  }

  lemma {:induction false} MineValid(s: Setup, events: seq<Event>, i: nat)
    requires ValidEvents(s, events)
    ensures ValidChoices(Mine(events, i))
  {
    if events != [] {
      MineValid(s, events[1..], i);
    }
  }

  /** The node has not ended its stream before the last of these calls. */
  predicate InProgress(cf: Config, n: Node, chs: seq<Choice>)
    requires ValidConfig(cf) && ValidChoices(chs) && n.offset <= |n.buf|
    decreases |chs|
  {
    hide StepNode;
    chs == [] ||
    (StepInRange(cf, n, chs[0]);
     n.state != FinSent2 && InProgress(cf, StepNode(cf, n, chs[0]), chs[1..]))
  }

  /**
   * A stream in progress evolves as if it were alone: whatever the thread sends from other nodes in
   * between, its node is the one its own calls make, with its own buffer.
   */
  lemma {:induction false} StreamsIsolated(cf: Config, s: Setup, nodes: seq<Node>, events: seq<Event>, i: nat)
    requires ValidConfig(cf) && Valid(s, nodes) && SparesIdle(s, nodes)
    requires ValidEvents(s, events) && i < s.concur && i < s.streams
    requires ValidChoices(Mine(events, i)) && i < |nodes| && nodes[i].offset <= |nodes[i].buf|
    requires InProgress(cf, nodes[i], Mine(events, i))
    ensures |Run(cf, s, nodes, events)| == |nodes|
    ensures Run(cf, s, nodes, events)[i] == RunNode(cf, nodes[i], Mine(events, i))
    decreases |events|
  {
    hide Sent, StepNode;
    if events != [] {
      var e := events[0];
      ValidAt(s, nodes, e.i);
      SentKeeps(cf, s, nodes, e);
      var next := Sent(cf, s, nodes, e);
      ValidAt(s, next, i);
      MineValid(s, events[1..], i);
      if e.i == i {
        assert Mine(events, i)[1..] == Mine(events[1..], i);
      }
      StreamsIsolated(cf, s, next, events[1..], i);
    }
  }

  // ---------- What a thread puts on the wire ----------

  datatype Sending = Sending(node: nat, packet: Packet)

  function Tagged(i: nat, ps: seq<Packet>): seq<Sending> {
    if ps == [] then [] else [Sending(i, ps[0])] + Tagged(i, ps[1..])
  }

  /** The packets of a run, with the nodes they are sent from. */
  function Wire(cf: Config, s: Setup, nodes: seq<Node>, events: seq<Event>): seq<Sending>
    requires ValidConfig(cf) && Valid(s, nodes) && SparesIdle(s, nodes)
    requires ValidEvents(s, events)
    decreases |events|
  {
    hide Sent, Valid, SparesIdle, StepPackets;
    if events == [] then []
    else
      var e := events[0];
      ValidAt(s, nodes, e.i);
      SentKeeps(cf, s, nodes, e);
      Tagged(e.i, StepPackets(cf, nodes[e.i], e.ch)) + Wire(cf, s, Sent(cf, s, nodes, e), events[1..])
  }

  /** The packets on the wire that come from one node. */
  function From(wire: seq<Sending>, i: nat): seq<Packet> {
    if wire == [] then []
    else (if wire[0].node == i then [wire[0].packet] else []) + From(wire[1..], i)
  }

  lemma {:induction false} FromAppends(a: seq<Sending>, b: seq<Sending>, i: nat)
    ensures From(a + b, i) == From(a, i) + From(b, i)
  {
    if a == [] {
      assert a + b == b;
    } else {
      var c, head := a + b, if a[0].node == i then [a[0].packet] else [];
      assert c[0] == a[0] && c[1..] == a[1..] + b;
      FromAppends(a[1..], b, i);
      Reassociate(head, From(a[1..], i), From(b, i));
    }
  }

  lemma {:induction false} FromTagged(j: nat, ps: seq<Packet>, i: nat)
    ensures From(Tagged(j, ps), i) == if i == j then ps else []
  {
    if ps != [] {
      FromTagged(j, ps[1..], i);
      var t := Tagged(j, ps);
      assert t[0] == Sending(j, ps[0]) && t[1..] == Tagged(j, ps[1..]);
    }
  }

  /** The streams a node has completed in a run, as it held them. */
  function Finished(cf: Config, s: Setup, nodes: seq<Node>, events: seq<Event>, i: nat): seq<seq<Octet>>
    requires ValidConfig(cf) && Valid(s, nodes) && SparesIdle(s, nodes)
    requires ValidEvents(s, events)
    decreases |events|
  {
    hide Sent, Valid, SparesIdle;
    if events == [] then []
    else
      var e := events[0];
      ValidAt(s, nodes, e.i);
      SentKeeps(cf, s, nodes, e);
      (if e.i == i && nodes[i].state == FinSent2 then [nodes[i].buf] else [])
      + Finished(cf, s, Sent(cf, s, nodes, e), events[1..], i)
  }

  lemma {:induction false} FinishedStored(cf: Config, s: Setup, nodes: seq<Node>, events: seq<Event>, i: nat)
    requires ValidConfig(cf) && Valid(s, nodes) && SparesIdle(s, nodes)
    requires ValidEvents(s, events)
    ensures forall b :: b in Finished(cf, s, nodes, events, i) ==> b in Bufs(nodes)
    decreases |events|
  {
    hide Sent, Valid, SparesIdle;
    if events != [] {
      var e := events[0];
      ValidAt(s, nodes, e.i);
      SentKeeps(cf, s, nodes, e);
      BufsKept(cf, s, nodes, e);
      var next := Sent(cf, s, nodes, e);
      FinishedStored(cf, s, next, events[1..], i);
      forall b | b in Finished(cf, s, next, events[1..], i) ensures b in Bufs(nodes) {
        assert b in multiset(Bufs(next));
      }
      assert Bufs(nodes)[e.i] == nodes[e.i].buf;
    }
  }

  /** After a call the other nodes' connections and a fresh one of its own are still in step. */
  lemma SentInStep(cf: Config, s: Setup, nodes: seq<Node>, e: Event, i: nat, c: Conn, c': Conn)
    requires ValidConfig(cf) && ValidChoice(e.ch) && Valid(s, nodes) && SparesIdle(s, nodes)
    requires e.i < s.concur && e.i < s.streams && i < s.concur && i < s.streams
    requires InStep(nodes[i], c)
    requires e.i == i ==> InStep(StepNode(cf, nodes[i], e.ch), c')
    ensures InStep(Sent(cf, s, nodes, e)[i], if e.i == i then c' else c)
  {
    hide Sent, StepNode;
    SentKeeps(cf, s, nodes, e);
    if e.i == i && nodes[i].state == FinSent2 {
      RankDecreases(cf, nodes[i], e.ch);
      FreshInStep(StepNode(cf, nodes[i], e.ch), Sent(cf, s, nodes, e)[i], c');
    }
  }

  lemma FreshInStep(n: Node, m: Node, c: Conn)
    requires InStep(n, c) && n.state == Closed && m.state == Closed && m.offset == 0
    ensures InStep(m, c)
  {}

  /**
   * Over any run of a thread, whatever it sends from its other nodes in between: the packets of each
   * node form one connection after another, all accepted in order, and what they deliver is exactly the
   * streams the node has completed.
   */
  lemma {:induction false} WireDelivers(cf: Config, s: Setup, nodes: seq<Node>, events: seq<Event>, i: nat, w: Watched)
    requires ValidConfig(cf) && Valid(s, nodes) && SparesIdle(s, nodes)
    requires ValidEvents(s, events) && i < s.concur && i < s.streams
    requires i < |nodes| && w.ok && InStep(nodes[i], w.conn)
    ensures |Run(cf, s, nodes, events)| == |nodes|
    ensures var r := Watch(w, From(Wire(cf, s, nodes, events), i));
            && r.ok && InStep(Run(cf, s, nodes, events)[i], r.conn)
            && r.delivered == w.delivered + Finished(cf, s, nodes, events, i)
    decreases |events|
  {
    hide Sent, StepNode, StepPackets, InStep, Valid, SparesIdle, WatchOne, Watch, From, Tagged;
    if events == [] {
      NothingSent(w);
    } else {
      var e := events[0];
      ValidAt(s, nodes, e.i);
      SentKeeps(cf, s, nodes, e);
      var next := Sent(cf, s, nodes, e);
      var ps := StepPackets(cf, nodes[e.i], e.ch);
      var rest := Wire(cf, s, next, events[1..]);
      FromAppends(Tagged(e.i, ps), rest, i);
      FromTagged(e.i, ps, i);
      var w' := w;
      if e.i == i {
        StepWatched(cf, nodes[i], e.ch, w);
        w' := Watch(w, ps);
        WatchAppends(w, ps, From(rest, i));
      } else {
        assert [] + From(rest, i) == From(rest, i);
      }
      SentInStep(cf, s, nodes, e, i, w.conn, w'.conn);
      WireDelivers(cf, s, next, events[1..], i, w');
      Reassociate(w.delivered, if e.i == i && nodes[i].state == FinSent2 then [nodes[i].buf] else [],
              Finished(cf, s, next, events[1..], i));
    }
  }

  lemma NothingSent(w: Watched)
    ensures From([], 0) == [] && Watch(w, []) == w && w.delivered + [] == w.delivered
    ensures forall i: nat :: From([], i) == []
  {}

  /**
   * From a thread's start on: every node's packets are accepted, connection by connection, and each
   * connection delivers one of the thread's stored streams from beginning to end.
   */
  lemma ThreadDelivers(cf: Config, s: Setup, nodes: seq<Node>, events: seq<Event>, i: nat)
    requires ValidConfig(cf) && Valid(s, nodes) && SparesIdle(s, nodes)
    requires forall k :: 0 <= k < |nodes| ==> nodes[k].state == Closed
    requires ValidEvents(s, events) && i < s.concur && i < s.streams
    ensures var r := Watch(Watched(true, START, []), From(Wire(cf, s, nodes, events), i));
            r.ok && forall b :: b in r.delivered ==> b in Bufs(nodes)
  {
    hide Watch, From, Wire, Finished, Run;
    ValidAt(s, nodes, i);
    assert Reachable(nodes[i]);
    WireDelivers(cf, s, nodes, events, i, Watched(true, START, []));
    FinishedStored(cf, s, nodes, events, i);
    Reassociate([], [], Finished(cf, s, nodes, events, i));
  }

  lemma {:induction false} RunOneMore(cf: Config, s: Setup, nodes: seq<Node>, events: seq<Event>, e: Event)
    requires ValidConfig(cf) && Valid(s, nodes) && SparesIdle(s, nodes)
    requires ValidEvents(s, events + [e])
    ensures ValidEvents(s, events)
    ensures var r := Run(cf, s, nodes, events);
            && e.i < |r| == s.streams && r[e.i].offset <= |r[e.i].buf|
            && Run(cf, s, nodes, events + [e]) == Sent(cf, s, r, e)
    decreases |events|
  {
    hide Sent, Valid, SparesIdle;
    ValidPrefix(s, events, e);
    RunKeeps(cf, s, nodes, events);
    ValidAt(s, Run(cf, s, nodes, events), e.i);
    var all := events + [e];
    ValidAt(s, nodes, all[0].i);
    SentKeeps(cf, s, nodes, all[0]);
    if events == [] {
      assert all[1..] == [];
    } else {
      assert all[0] == events[0] && all[1..] == events[1..] + [e];
      RunOneMore(cf, s, Sent(cf, s, nodes, events[0]), events[1..], e);
    }
  }

  lemma {:induction false} WireOneMore(cf: Config, s: Setup, nodes: seq<Node>, events: seq<Event>, e: Event)
    requires ValidConfig(cf) && Valid(s, nodes) && SparesIdle(s, nodes)
    requires ValidEvents(s, events + [e])
    ensures ValidEvents(s, events)
    ensures var r := Run(cf, s, nodes, events);
            && e.i < |r| && r[e.i].offset <= |r[e.i].buf|
            && Wire(cf, s, nodes, events + [e])
               == Wire(cf, s, nodes, events) + Tagged(e.i, StepPackets(cf, r[e.i], e.ch))
    decreases |events|
  {
    hide Sent, Valid, SparesIdle, StepPackets, Tagged;
    RunOneMore(cf, s, nodes, events, e);
    var all := events + [e];
    ValidPrefix(s, events, e);
    ValidAt(s, nodes, all[0].i);
    SentKeeps(cf, s, nodes, all[0]);
    var t := Tagged(all[0].i, StepPackets(cf, nodes[all[0].i], all[0].ch));
    if events == [] {
      assert all[1..] == [];
      Reassociate(t, [], []);
    } else {
      assert all[0] == events[0] && all[1..] == events[1..] + [e];
      var next := Sent(cf, s, nodes, events[0]);
      WireOneMore(cf, s, next, events[1..], e);
      var r := Run(cf, s, next, events[1..]);
      Reassociate(t, Wire(cf, s, next, events[1..]), Tagged(e.i, StepPackets(cf, r[e.i], e.ch)));
    }
  }

  lemma ValidPrefix(s: Setup, events: seq<Event>, e: Event)
    requires ValidEvents(s, events + [e])
    ensures ValidEvents(s, events) && e.i < s.concur && e.i < s.streams && ValidChoice(e.ch)
  {
    assert e in events + [e];
    forall x | x in events ensures x in events + [e] {}
  }

  /** What one send draws: a choice, rand() for an exchange, and rand() for the number of packets. */
  datatype Draw = Draw(ch: Choice, rand: nat, count: nat)

  // ---------- One pass over the nodes ----------

  /** How many calls a node is to get, by the first draw of its turn. */
  function Wanted(draws: nat -> Draw, a: nat): nat { draws(a).count % 3 + 1 }

  /** The call on node i made with draw k. */
  function Drawn(draws: nat -> Draw, i: nat, k: nat): Event { Event(i, draws(k).ch, draws(k).rand) }

  /** Call k of a run ends the stream of its node. */
  ghost predicate Ends(cf: Config, s: Setup, nodes: seq<Node>, events: seq<Event>, k: nat)
    requires ValidConfig(cf) && Valid(s, nodes) && SparesIdle(s, nodes) && ValidEvents(s, events)
    requires k < |events|
  {
    hide Valid, SparesIdle, Run;
    ValidTake(s, events, k);
    RunKeeps(cf, s, nodes, events[..k]);
    ValidAt(s, Run(cf, s, nodes, events[..k]), events[k].i);
    Run(cf, s, nodes, events[..k])[events[k].i].state == FinSent2
  }

  lemma ValidTake(s: Setup, events: seq<Event>, k: nat)
    requires ValidEvents(s, events) && k < |events|
    ensures ValidEvents(s, events[..k]) && events[k].i < s.concur && events[k].i < s.streams
  {
    assert events[k] in events;
    forall e | e in events[..k] ensures e in events {}
  }

  /** Calls a to b - 1 are node i's turn: as many as wanted, or fewer because the last one ended its stream. */
  ghost predicate IsTurn(cf: Config, s: Setup, nodes: seq<Node>, draws: nat -> Draw, events: seq<Event>,
                         i: nat, a: nat, b: nat)
    requires ValidConfig(cf) && Valid(s, nodes) && SparesIdle(s, nodes) && ValidEvents(s, events)
  {
    && a < b <= |events| && b - a <= Wanted(draws, a)
    && (forall k :: a <= k < b ==> events[k] == Drawn(draws, i, k))
    && (forall k :: a <= k < b - 1 ==> !Ends(cf, s, nodes, events, k))
    && (b - a < Wanted(draws, a) ==> Ends(cf, s, nodes, events, b - 1))
  }

  /** Node i's turn has begun with call a and is not over. */
  ghost predicate InItsTurn(cf: Config, s: Setup, nodes: seq<Node>, draws: nat -> Draw, events: seq<Event>,
                            i: nat, a: nat)
    requires ValidConfig(cf) && Valid(s, nodes) && SparesIdle(s, nodes) && ValidEvents(s, events)
  {
    && a <= |events| < a + Wanted(draws, a)
    && (forall k :: a <= k < |events| ==> events[k] == Drawn(draws, i, k) && !Ends(cf, s, nodes, events, k))
  }

  lemma EndsBefore(cf: Config, s: Setup, nodes: seq<Node>, events: seq<Event>, e: Event, k: nat)
    requires ValidConfig(cf) && Valid(s, nodes) && SparesIdle(s, nodes) && ValidEvents(s, events + [e])
    requires k < |events|
    ensures ValidEvents(s, events)
    ensures Ends(cf, s, nodes, events + [e], k) == Ends(cf, s, nodes, events, k)
  {
    hide Valid, SparesIdle, Run;
    ValidPrefix(s, events, e);
    assert (events + [e])[..k] == events[..k];
  }

  lemma EndsNow(cf: Config, s: Setup, nodes: seq<Node>, events: seq<Event>, e: Event)
    requires ValidConfig(cf) && Valid(s, nodes) && SparesIdle(s, nodes) && ValidEvents(s, events + [e])
    ensures ValidEvents(s, events)
    ensures var r := Run(cf, s, nodes, events);
            e.i < |r| && Ends(cf, s, nodes, events + [e], |events|) == (r[e.i].state == FinSent2)
  {
    hide Valid, SparesIdle, Run;
    ValidPrefix(s, events, e);
    RunKeeps(cf, s, nodes, events);
    ValidAt(s, Run(cf, s, nodes, events), e.i);
    assert (events + [e])[..|events|] == events;
  }

  /** The next call continues the turn or completes it. */
  lemma TurnGoesOn(cf: Config, s: Setup, nodes: seq<Node>, draws: nat -> Draw, events: seq<Event>, i: nat, a: nat)
    requires ValidConfig(cf) && Valid(s, nodes) && SparesIdle(s, nodes)
    requires ValidEvents(s, events) && InItsTurn(cf, s, nodes, draws, events, i, a)
    requires ValidEvents(s, events + [Drawn(draws, i, |events|)])
    ensures var more := events + [Drawn(draws, i, |events|)];
            if Ends(cf, s, nodes, more, |events|) || |more| == a + Wanted(draws, a)
            then IsTurn(cf, s, nodes, draws, more, i, a, |more|) else InItsTurn(cf, s, nodes, draws, more, i, a)
  {
    hide Valid, SparesIdle, Ends, Wanted, ValidEvents;
    var e := Drawn(draws, i, |events|);
    forall k | a <= k < |events| ensures !Ends(cf, s, nodes, events + [e], k) {
      EndsBefore(cf, s, nodes, events, e, k);
    }
  }

  lemma TurnKept(cf: Config, s: Setup, nodes: seq<Node>, draws: nat -> Draw, events: seq<Event>, e: Event,
                 i: nat, a: nat, b: nat)
    requires ValidConfig(cf) && Valid(s, nodes) && SparesIdle(s, nodes)
    requires ValidEvents(s, events) && IsTurn(cf, s, nodes, draws, events, i, a, b) && ValidEvents(s, events + [e])
    ensures IsTurn(cf, s, nodes, draws, events + [e], i, a, b)
  {
    hide Valid, SparesIdle, Ends, Wanted, ValidEvents;
    forall k: nat | a <= k < b ensures Ends(cf, s, nodes, events + [e], k) == Ends(cf, s, nodes, events, k) {
      EndsBefore(cf, s, nodes, events, e, k);
    }
  }

  /** The nodes of the thread had one turn each, in order, cut at these places, as far as it got. */
  ghost predicate Turns(cf: Config, s: Setup, id: nat, nodes: seq<Node>, draws: nat -> Draw, events: seq<Event>,
                        cuts: seq<nat>)
    requires ValidConfig(cf) && Valid(s, nodes) && SparesIdle(s, nodes) && ValidEvents(s, events)
  {
    && cuts != [] && cuts[0] == 0 && cuts[|cuts| - 1] <= |events|
    && forall c :: 0 <= c < |cuts| - 1 ==> IsTurn(cf, s, nodes, draws, events, Slot(s, id, c), cuts[c], cuts[c + 1])
  }

  lemma TurnsKept(cf: Config, s: Setup, id: nat, nodes: seq<Node>, draws: nat -> Draw, events: seq<Event>,
                  cuts: seq<nat>, e: Event)
    requires ValidConfig(cf) && Valid(s, nodes) && SparesIdle(s, nodes)
    requires ValidEvents(s, events) && Turns(cf, s, id, nodes, draws, events, cuts) && ValidEvents(s, events + [e])
    ensures Turns(cf, s, id, nodes, draws, events + [e], cuts)
  {
    hide Valid, SparesIdle, IsTurn, ValidEvents, Slot;
    forall c | 0 <= c < |cuts| - 1
      ensures IsTurn(cf, s, nodes, draws, events + [e], Slot(s, id, c), cuts[c], cuts[c + 1])
    {
      TurnKept(cf, s, nodes, draws, events, e, Slot(s, id, c), cuts[c], cuts[c + 1]);
    }
  }

  lemma OneMoreTurn(cf: Config, s: Setup, id: nat, nodes: seq<Node>, draws: nat -> Draw, events: seq<Event>,
                    cuts: seq<nat>)
    requires ValidConfig(cf) && Valid(s, nodes) && SparesIdle(s, nodes)
    requires ValidEvents(s, events) && Turns(cf, s, id, nodes, draws, events, cuts)
    requires IsTurn(cf, s, nodes, draws, events, Slot(s, id, |cuts| - 1), cuts[|cuts| - 1], |events|)
    ensures Turns(cf, s, id, nodes, draws, events, cuts + [|events|])
  {
    hide Valid, SparesIdle, IsTurn, ValidEvents, Slot;
  }

  /** A whole pass: every node of the thread that exists has had its turn, and the calls are all in turns. */
  ghost predicate IsPass(cf: Config, s: Setup, id: nat, nodes: seq<Node>, draws: nat -> Draw, events: seq<Event>,
                         cuts: seq<nat>)
    requires ValidConfig(cf) && Valid(s, nodes) && SparesIdle(s, nodes) && ValidEvents(s, events)
  {
    && s.threads > 0 && Turns(cf, s, id, nodes, draws, events, cuts) && cuts[|cuts| - 1] == |events|
    && forall c: nat :: c < |cuts| - 1 <==> c < s.concur / s.threads && Slot(s, id, c) < s.streams
  }

  lemma AllServed(s: Setup, id: nat, n: nat)
    requires s.threads > 0 && n <= s.concur / s.threads && (n > 0 ==> Slot(s, id, n - 1) < s.streams)
    requires n == s.concur / s.threads || Slot(s, id, n) >= s.streams
    ensures forall c: nat :: c < n <==> c < s.concur / s.threads && Slot(s, id, c) < s.streams
  {
    forall c: nat ensures c < n <==> c < s.concur / s.threads && Slot(s, id, c) < s.streams {
      if c < n {
        MulMonotone(s.threads, c, n - 1);
      } else {
        MulMonotone(s.threads, n, c);
      }
    }
  }

  class SendThread {
    const cf: Config
    const setup: Setup
    const id: nat
    var nodes: seq<Node>

    ghost predicate Ready()
      reads this
    {
      && ValidConfig(cf) && ValidSetup(setup) && id < setup.threads
      && Valid(setup, nodes) && SparesIdle(setup, nodes)
    }

    constructor (cf: Config, setup: Setup, id: nat, nodes: seq<Node>)
      requires ValidConfig(cf) && ValidSetup(setup) && id < setup.threads
      requires |nodes| == setup.streams
      requires forall i :: 0 <= i < |nodes| ==> nodes[i].state == Closed && nodes[i].offset == 0
      ensures Ready() && this.cf == cf && this.setup == setup && this.id == id && this.nodes == nodes
    {
      this.cf, this.setup, this.id, this.nodes := cf, setup, id, nodes;
    }

    /** One call of send_packet in node i's turn, which began with call a. */
    method SendOne(draws: nat -> Draw, i: nat, ghost nodes0: seq<Node>, ghost events: seq<Event>,
                   ghost cuts: seq<nat>, d: nat, wire: seq<Sending>)
      returns (last: bool, wire': seq<Sending>)
      requires Ready() && Valid(setup, nodes0) && SparesIdle(setup, nodes0) && i < setup.concur && i < setup.streams
      requires ValidEvents(setup, events) && nodes == Run(cf, setup, nodes0, events) && d == |events|
      requires wire == Wire(cf, setup, nodes0, events) && ValidChoice(draws(d).ch)
      requires cuts != [] && Turns(cf, setup, id, nodes0, draws, events, cuts)
      requires InItsTurn(cf, setup, nodes0, draws, events, i, cuts[|cuts| - 1])
      modifies this
      ensures Ready()
      ensures var more := events + [Drawn(draws, i, d)];
              && ValidEvents(setup, more) && nodes == Run(cf, setup, nodes0, more)
              && wire' == Wire(cf, setup, nodes0, more) && Turns(cf, setup, id, nodes0, draws, more, cuts)
              && var a := cuts[|cuts| - 1];
                 if last || |more| == a + Wanted(draws, a)
                 then IsTurn(cf, setup, nodes0, draws, more, i, a, |more|)
                 else InItsTurn(cf, setup, nodes0, draws, more, i, a)
    {
      hide Valid, SparesIdle, Run, Wire, Sent, StepNode, StepPackets, Tagged, Ends, IsTurn, InItsTurn, Wanted, Turns;
      hide ValidEvents;
      ghost var e := Drawn(draws, i, d);
      ValidAt(setup, nodes, i);
      last := nodes[i].state == FinSent2;
      ExtendEvents(setup, events, e);
      RunOneMore(cf, setup, nodes0, events, e);
      WireOneMore(cf, setup, nodes0, events, e);
      SentKeeps(cf, setup, nodes, e);
      EndsNow(cf, setup, nodes0, events, e);
      TurnsKept(cf, setup, id, nodes0, draws, events, cuts, e);
      TurnGoesOn(cf, setup, nodes0, draws, events, i, cuts[|cuts| - 1]);
      wire' := wire + Tagged(i, StepPackets(cf, nodes[i], draws(d).ch));
      nodes := Sent(cf, setup, nodes, Event(i, draws(d).ch, draws(d).rand));
    }

    /** One pass of send_loop over the thread's nodes. */
    method Sweep(draws: nat -> Draw) returns (wire: seq<Sending>, ghost events: seq<Event>, ghost cuts: seq<nat>)
      requires Ready() && forall d :: ValidChoice(draws(d).ch)
      modifies this
      ensures Ready()
      ensures ValidEvents(setup, events) && nodes == Run(cf, setup, old(nodes), events)
      ensures wire == Wire(cf, setup, old(nodes), events)
      ensures IsPass(cf, setup, id, old(nodes), draws, events, cuts)
    {
      hide Valid, SparesIdle, Run, Wire, Turns, ValidEvents, IsTurn, InItsTurn, Slot;
      wire, events, cuts := [], [], [0];
      ghost var nodes0 := nodes;
      NoEvents(cf, setup, nodes0);
      NoTurns(cf, setup, id, nodes0, draws);
      SlotAt(setup, id, 0);
      var i, cnt, d := id, 0, 0;
      while i < setup.streams
        invariant Ready() && i == Slot(setup, id, cnt) && cnt < setup.concur / setup.threads
        invariant ValidEvents(setup, events) && nodes == Run(cf, setup, nodes0, events) && d == |events|
        invariant wire == Wire(cf, setup, nodes0, events)
        invariant |cuts| == cnt + 1 && cuts[cnt] == |events| && Turns(cf, setup, id, nodes0, draws, events, cuts)
        invariant cnt > 0 ==> Slot(setup, id, cnt - 1) < setup.streams
        decreases setup.streams - i
      {
        SendsBelow(setup, id, cnt);
        TurnBegins(cf, setup, nodes0, draws, events, i);
        var nSnd := draws(d).count % 3 + 1;
        var last := false;
        while nSnd > 0 && !last
          invariant Ready() && 0 <= nSnd && ValidEvents(setup, events) && d == |events|
          invariant nodes == Run(cf, setup, nodes0, events) && wire == Wire(cf, setup, nodes0, events)
          invariant |cuts| == cnt + 1 && Turns(cf, setup, id, nodes0, draws, events, cuts)
          invariant !last ==> |events| + nSnd == cuts[cnt] + Wanted(draws, cuts[cnt])
          invariant if last || nSnd == 0 then IsTurn(cf, setup, nodes0, draws, events, i, cuts[cnt], |events|)
                    else InItsTurn(cf, setup, nodes0, draws, events, i, cuts[cnt])
        {
          nSnd := nSnd - 1;
          last, wire := SendOne(draws, i, nodes0, events, cuts, d, wire);
          events := events + [Drawn(draws, i, d)];
          d := d + 1;
        }
        OneMoreTurn(cf, setup, id, nodes0, draws, events, cuts);
        cuts := cuts + [|events|];
        cnt := cnt + 1;
        SlotAt(setup, id, cnt);
        if cnt >= setup.concur / setup.threads {
          break;
        }
        i := i + setup.threads;
      }
      AllServed(setup, id, cnt);
    }
  }

  lemma NoTurns(cf: Config, s: Setup, id: nat, nodes: seq<Node>, draws: nat -> Draw)
    requires ValidConfig(cf) && Valid(s, nodes) && SparesIdle(s, nodes)
    ensures ValidEvents(s, []) && Turns(cf, s, id, nodes, draws, [], [0])
  {
    hide Valid, SparesIdle;
  }

  lemma TurnBegins(cf: Config, s: Setup, nodes: seq<Node>, draws: nat -> Draw, events: seq<Event>, i: nat)
    requires ValidConfig(cf) && Valid(s, nodes) && SparesIdle(s, nodes) && ValidEvents(s, events)
    ensures InItsTurn(cf, s, nodes, draws, events, i, |events|)
  {
    hide Valid, SparesIdle, ValidEvents;
  }

  lemma SlotAt(s: Setup, id: nat, c: nat)
    ensures Slot(s, id, 0) == id && (c > 0 ==> Slot(s, id, c) == Slot(s, id, c - 1) + s.threads)
  {}

  lemma NoEvents(cf: Config, s: Setup, nodes: seq<Node>)
    requires ValidConfig(cf) && Valid(s, nodes) && SparesIdle(s, nodes)
    ensures ValidEvents(s, []) && Run(cf, s, nodes, []) == nodes && Wire(cf, s, nodes, []) == []
  {}

  lemma ExtendEvents(s: Setup, events: seq<Event>, e: Event)
    requires ValidEvents(s, events) && ValidChoice(e.ch) && e.i < s.concur && e.i < s.streams
    ensures ValidEvents(s, events + [e])
  {}

  // ---------- Pass after pass ----------

  lemma {:induction false} MineAppends(a: seq<Event>, b: seq<Event>, i: nat)
    ensures Mine(a + b, i) == Mine(a, i) + Mine(b, i)
  {
    if a == [] {
      assert a + b == b;
    } else {
      assert (a + b)[0] == a[0] && (a + b)[1..] == a[1..] + b;
      MineAppends(a[1..], b, i);
    }
  }

  lemma {:induction false} MineHas(events: seq<Event>, k: nat)
    requires k < |events|
    ensures Mine(events, events[k].i) != []
    decreases |events|
  {
    if k > 0 {
      MineHas(events[1..], k - 1);
    }
  }

  /** In a pass every node of the thread is called at least once. */
  lemma PassCalls(cf: Config, s: Setup, id: nat, nodes: seq<Node>, draws: nat -> Draw, events: seq<Event>,
                  cuts: seq<nat>, c: nat)
    requires ValidConfig(cf) && Valid(s, nodes) && SparesIdle(s, nodes) && ValidEvents(s, events)
    requires IsPass(cf, s, id, nodes, draws, events, cuts) && c < s.concur / s.threads && Slot(s, id, c) < s.streams
    ensures Mine(events, Slot(s, id, c)) != []
  {
    hide Valid, SparesIdle, ValidEvents, Ends, Slot, Mine;
    assert c < |cuts| - 1;
    assert IsTurn(cf, s, nodes, draws, events, Slot(s, id, c), cuts[c], cuts[c + 1]);
    MineHas(events, cuts[c]);
  }

  lemma {:induction false} RunAppends(cf: Config, s: Setup, nodes: seq<Node>, a: seq<Event>, b: seq<Event>)
    requires ValidConfig(cf) && Valid(s, nodes) && SparesIdle(s, nodes)
    requires ValidEvents(s, a) && ValidEvents(s, b)
    ensures ValidEvents(s, a + b)
    ensures var r := Run(cf, s, nodes, a);
            && Valid(s, r) && SparesIdle(s, r) && Run(cf, s, nodes, a + b) == Run(cf, s, r, b)
            && Wire(cf, s, nodes, a + b) == Wire(cf, s, nodes, a) + Wire(cf, s, r, b)
    decreases |a|
  {
    hide Sent, Valid, SparesIdle, StepPackets, Tagged;
    RunKeeps(cf, s, nodes, a);
    if a == [] {
      assert a + b == b;
    } else {
      assert (a + b)[0] == a[0] && (a + b)[1..] == a[1..] + b;
      ValidAt(s, nodes, a[0].i);
      SentKeeps(cf, s, nodes, a[0]);
      var next := Sent(cf, s, nodes, a[0]);
      RunAppends(cf, s, next, a[1..], b);
      Reassociate(Tagged(a[0].i, StepPackets(cf, nodes[a[0].i], a[0].ch)), Wire(cf, s, next, a[1..]),
                  Wire(cf, s, Run(cf, s, next, a[1..]), b));
    }
  }

  /** No stored stream takes more calls than this, from opening to closing. */
  ghost predicate CallsAtMost(nodes: seq<Node>, most: nat) {
    forall b :: b in Bufs(nodes) ==> 6 + MostData(|b|) <= most
  }

  lemma SentCallsAtMost(cf: Config, s: Setup, nodes: seq<Node>, e: Event, most: nat)
    requires ValidConfig(cf) && ValidChoice(e.ch) && e.i < |nodes| == s.streams
    requires nodes[e.i].offset <= |nodes[e.i].buf| && CallsAtMost(nodes, most)
    ensures CallsAtMost(Sent(cf, s, nodes, e), most)
  {
    hide Sent, MostData;
    BufsKept(cf, s, nodes, e);
    var next := Sent(cf, s, nodes, e);
    forall b | b in Bufs(next) ensures b in Bufs(nodes) {
      assert b in multiset(Bufs(next));
    }
  }

  lemma FreshRank(nodes: seq<Node>, i: nat, most: nat)
    requires i < |nodes| && nodes[i].state == Closed && nodes[i].offset == 0 && CallsAtMost(nodes, most)
    ensures Rank(nodes[i]) <= most
  {
    assert Bufs(nodes)[i] == nodes[i].buf;
  }

  /**
   * A node that gets enough calls completes its stream, and then k more, whatever happens to the other
   * nodes: first the one it held, each within the number of calls the longest one takes.
   */
  lemma {:induction false} NodeFinishes(cf: Config, s: Setup, nodes: seq<Node>, events: seq<Event>, i: nat,
                                        most: nat, k: nat)
    requires ValidConfig(cf) && Valid(s, nodes) && SparesIdle(s, nodes) && ValidEvents(s, events)
    requires i < s.concur && i < s.streams && CallsAtMost(nodes, most)
    requires i < |nodes| && nodes[i].offset <= |nodes[i].buf| && |Mine(events, i)| >= Rank(nodes[i]) + k * most
    ensures |Finished(cf, s, nodes, events, i)| > k && Finished(cf, s, nodes, events, i)[0] == nodes[i].buf
    decreases |events|
  {
    hide Sent, StepNode, Valid, SparesIdle, CallsAtMost;
    assert events != [] by {
      assert Rank(nodes[i]) > 0;
    }
    var e := events[0];
    ValidAt(s, nodes, e.i);
    SentKeeps(cf, s, nodes, e);
    SentCallsAtMost(cf, s, nodes, e, most);
    var next := Sent(cf, s, nodes, e);
    ValidAt(s, next, i);
    if e.i != i {
      NodeFinishes(cf, s, next, events[1..], i, most, k);
    } else if nodes[i].state != FinSent2 {
      ReachableAt(s, nodes, i);
      RankDecreases(cf, nodes[i], e.ch);
      StepInRange(cf, nodes[i], e.ch);
      NodeFinishes(cf, s, next, events[1..], i, most, k);
    } else if k > 0 {
      FreshRank(next, i, most);
      assert k * most == most + (k - 1) * most;
      NodeFinishes(cf, s, next, events[1..], i, most, k - 1);
    }
  }

  lemma ReachableAt(s: Setup, nodes: seq<Node>, i: nat)
    requires Valid(s, nodes) && i < s.streams
    ensures i < |nodes| && Reachable(nodes[i])
  {}

  /** send_loop for a number of passes. */
  method SendLoop(t: SendThread, passes: nat, draws: nat -> nat -> Draw)
    returns (wire: seq<Sending>, ghost events: seq<Event>)
    requires t.Ready() && forall p, d :: ValidChoice(draws(p)(d).ch)
    modifies t
    ensures t.Ready() && ValidEvents(t.setup, events) && t.nodes == Run(t.cf, t.setup, old(t.nodes), events)
    ensures wire == Wire(t.cf, t.setup, old(t.nodes), events)
    ensures forall c: nat :: c < t.setup.concur / t.setup.threads && Slot(t.setup, t.id, c) < t.setup.streams ==>
              |Mine(events, Slot(t.setup, t.id, c))| >= passes
  {
    hide Valid, SparesIdle, Run, Wire, ValidEvents, IsPass, Slot, Mine;
    wire, events := [], [];
    ghost var nodes0 := t.nodes;
    NoEvents(t.cf, t.setup, nodes0);
    var p := 0;
    while p < passes
      invariant p <= passes && t.Ready() && ValidEvents(t.setup, events)
      invariant t.nodes == Run(t.cf, t.setup, nodes0, events) && wire == Wire(t.cf, t.setup, nodes0, events)
      invariant forall c: nat :: c < t.setup.concur / t.setup.threads && Slot(t.setup, t.id, c) < t.setup.streams ==>
                  |Mine(events, Slot(t.setup, t.id, c))| >= p
    {
      ghost var nodes1 := t.nodes;
      var w;
      ghost var more, cuts;
      w, more, cuts := t.Sweep(draws(p));
      RunAppends(t.cf, t.setup, nodes0, events, more);
      forall c: nat | c < t.setup.concur / t.setup.threads && Slot(t.setup, t.id, c) < t.setup.streams
        ensures |Mine(events + more, Slot(t.setup, t.id, c))| >= p + 1
      {
        PassCalls(t.cf, t.setup, t.id, nodes1, draws(p), more, cuts, c);
        MineAppends(events, more, Slot(t.setup, t.id, c));
      }
      wire, events := wire + w, events + more;
      p := p + 1;
    }
  }

  /** As many calls as so many passes give a node: it completes its stream and k more. */
  lemma PassesFinish(cf: Config, s: Setup, nodes: seq<Node>, events: seq<Event>, i: nat, most: nat, k: nat)
    requires ValidConfig(cf) && Valid(s, nodes) && SparesIdle(s, nodes) && ValidEvents(s, events)
    requires i < s.concur && i < s.streams && CallsAtMost(nodes, most) && |Mine(events, i)| >= (k + 1) * most
    ensures i < |nodes|
    ensures |Finished(cf, s, nodes, events, i)| > k && Finished(cf, s, nodes, events, i)[0] == nodes[i].buf
  {
    hide Valid, SparesIdle, ValidEvents, Mine, Finished, CallsAtMost;
    RankAtMost(s, nodes, i, most);
    assert (k + 1) * most == most + k * most;
    NodeFinishes(cf, s, nodes, events, i, most, k);
  }

  lemma RankAtMost(s: Setup, nodes: seq<Node>, i: nat, most: nat)
    requires Valid(s, nodes) && i < s.streams && CallsAtMost(nodes, most)
    ensures i < |nodes| && nodes[i].offset <= |nodes[i].buf| && Rank(nodes[i]) <= most
  {
    assert Bufs(nodes)[i] == nodes[i].buf;
  }
}
