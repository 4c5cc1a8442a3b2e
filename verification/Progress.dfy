/**
 No deadlock on a channel that loses nothing and keeps the order: as long as anything
 is queued something can be delivered, every delivery makes a measure smaller, and
 where nothing is left to deliver every request has completed.

 There is no timer, so on a channel that drops packets nothing of the kind holds.
 */
module Progress {
  import opened Psn
  import opened Types
  import opened Scatter
  import opened Requester
  import opened Segment
  import opened Responder
  import opened Delivery
  import opened Streams
  import opened Protocol
  import opened Safety

  /** The first f packets and the first g replies have been delivered, in order. */
  datatype Fifo = Fifo(net: Net, f: nat, g: nat)

  datatype Move =
    | Send(w: SendWr, data: seq<byte>)
    | Receives(wr: RecvWr)
    | NextPacket
    | NextReply

  function EventOf(s: Fifo, m: Move): Event {
    match m
    case Send(w, data) => PostSend(w, data)
    case Receives(wr) => PostReceive(wr)
    case NextPacket => DeliverPacket(s.f)
    case NextReply => DeliverReply(s.g)
  }

  /** A packet or reply is there to be delivered; and the receiver, which finds the packet
      it expects, has a receive request for it and takes it. */
  predicate Can(c: Config, s: Fifo, m: Move) {
    match m
    case Send(w, data) => Enabled(c, s.net, PostSend(w, data))
    case Receives(_) => true
    case NextPacket =>
      && s.f < |s.net.req.wire|
      && (Judge(s.net.rsp.rqPsn, s.net.req.wire[s.f].psn) == Expected ==>
            Receive(c.env, s.net.rsp.data, s.net.req.wire[s.f]).Took?)
    case NextReply => s.g < |s.net.rsp.replies|
  }

  function Do(c: Config, s: Fifo, m: Move): Fifo
    requires Inv(c, s.net) && Enabled(c, s.net, EventOf(s, m))
  {
    Fifo(Apply(c, s.net, EventOf(s, m)), if m.NextPacket? then s.f + 1 else s.f, if m.NextReply? then s.g + 1 else s.g)
  }

  /** The acknowledgements that packets lo up to hi ask for. */
  function AckPoints(b: seq<Pkt>, lo: nat, hi: nat): seq<nat>
    requires hi <= |b|
    decreases hi - lo
  {
    if lo >= hi then [] else (if b[lo].ack then [lo + 1] else []) + AckPoints(b, lo + 1, hi)
  }

  /** In flight are the packets that are out and not taken yet, and the acknowledgements
      asked for by the packets that are taken and not retired yet. */
  predicate InFlight(n: Net, f: nat, g: nat, b: seq<Pkt>) {
    && f <= |n.sent| && n.sent[f..] == Span(|n.taken|, n.retired + n.req.out)
    && |n.taken| <= |b|
    && g <= |n.upTo| && n.upTo[g..] == AckPoints(b, n.retired, |n.taken|)
    && |n.rsp.replies| == |n.upTo| && (forall j :: g <= j < |n.rsp.replies| ==> !n.rsp.replies[j].nak)
  }

  predicate FifoInv(c: Config, s: Fifo) {
    Inv(c, s.net) && InFlight(s.net, s.f, s.g, AllBuilt(c, s.net))
  }

  // ----- spans and acknowledgement points

  lemma {:induction false} SpanHead(a: int, z: int)
    requires 0 <= a < z
    ensures Span(a, z) == [a] + Span(a + 1, z)
  {
  }

  lemma {:induction false} SpanConcat(a: int, m: int, z: int)
    requires 0 <= a <= m <= z
    ensures Span(a, z) == Span(a, m) + Span(m, z)
  {
  }

  lemma {:induction false} AckPointsSnoc(b: seq<Pkt>, lo: nat, hi: nat)
    requires lo <= hi < |b|
    ensures AckPoints(b, lo, hi + 1) == AckPoints(b, lo, hi) + if b[hi].ack then [hi + 1] else []
    decreases hi - lo
  {
    if lo < hi {
      AckPointsSnoc(b, lo + 1, hi);
      Assoc(if b[lo].ack then [lo + 1] else [], AckPoints(b, lo + 1, hi), if b[hi].ack then [hi + 1] else []);
    }
  }

  /** After the first acknowledgement come the ones beyond it. */
  lemma {:induction false} AckPointsTail(b: seq<Pkt>, lo: nat, hi: nat)
    requires hi <= |b| && AckPoints(b, lo, hi) != []
    ensures var a := AckPoints(b, lo, hi);
      lo < a[0] <= hi && a[1..] == AckPoints(b, a[0], hi)
    decreases hi - lo
  {
    if b[lo].ack {
    } else {
      AckPointsTail(b, lo + 1, hi);
      assert AckPoints(b, lo, hi) == AckPoints(b, lo + 1, hi);
    }
  }

  lemma {:induction false} AckPointsNone(b: seq<Pkt>, lo: nat, hi: nat, i: nat)
    requires hi <= |b| && AckPoints(b, lo, hi) == [] && lo <= i < hi
    ensures !b[i].ack
    decreases hi - lo
  {
    if i > lo {
      AckPointsNone(b, lo + 1, hi, i);
    }
  }

  lemma {:induction false} AckPointsMore(b: seq<Pkt>, more: seq<Pkt>, lo: nat, hi: nat)
    requires hi <= |b|
    ensures AckPoints(b + more, lo, hi) == AckPoints(b, lo, hi)
    decreases hi - lo
  {
    if lo < hi {
      AckPointsMore(b, more, lo + 1, hi);
    }
  }

  lemma {:induction false} MultipleAhead(n: int) returns (i: nat)
    ensures i < MAX_OUTGOING && Wrap(n + i) % MAX_OUTGOING == 0
  {
    var q, r := n / MAX_OUTGOING, n % MAX_OUTGOING;
    i := if r == 0 then 0 else MAX_OUTGOING - r;
    EightDivides(n + i, if r == 0 then q else q + 1);
  }

  lemma {:induction false} EightDivides(m: int, k: int)
    requires m == MAX_OUTGOING * k
    ensures Wrap(m) % MAX_OUTGOING == 0
  {
    var w := m / PSN_SPACE;
    assert Wrap(m) == MAX_OUTGOING * (k - 0x20_0000 * w);
  }

  /** A window that is not empty asks for an acknowledgement: nine consecutive numbers
      contain a multiple of eight, and a shorter window ends with the end of a message. */
  lemma {:induction false} WindowAsks(q: seq<Pkt>, n: int) returns (i: nat)
    requires Shape(q, n) && q != []
    ensures i < Min(|q|, MAX_OUTGOING + 1) && q[i].ack
  {
    if |q| <= MAX_OUTGOING + 1 {
      i := |q| - 1;
    } else {
      i := MultipleAhead(n);
    }
    ShapeAt(q, n, i);
  }

  // ----- what every move keeps

  /** The packet delivered is the one that the receiver expects. */
  lemma {:induction false} NextIsExpected(c: Config, s: Fifo)
    requires FifoInv(c, s) && s.f < |s.net.req.wire|
    ensures Enabled(c, s.net, DeliverPacket(s.f)) && s.net.sent[s.f] == |s.net.taken|
    ensures Judge(s.net.rsp.rqPsn, s.net.req.wire[s.f].psn) == Expected
    ensures |s.net.taken| < s.net.retired + s.net.req.out
  {
    var n := s.net;
    assert n.sent[s.f..][0] == n.sent[s.f];
    AllShape(c, n);
    ArrivesInOrder(c, n, AllBuilt(c, n), s.f);
    ExpectedIsNext(c.base, |n.taken|, |n.taken|);
  }

  /** The reply delivered acknowledges packets that are not retired yet. */
  lemma {:induction false} NextReplyCounts(c: Config, s: Fifo)
    requires FifoInv(c, s) && s.g < |s.net.rsp.replies|
    ensures Enabled(c, s.net, DeliverReply(s.g)) && s.net.upTo[s.g] > s.net.retired
    ensures s.net.upTo[s.g + 1..] == AckPoints(AllBuilt(c, s.net), s.net.upTo[s.g], |s.net.taken|)
  {
    var n := s.net;
    assert n.upTo[s.g..][0] == n.upTo[s.g] && n.upTo[s.g..][1..] == n.upTo[s.g + 1..];
    AckPointsTail(AllBuilt(c, n), n.retired, |n.taken|);
  }

  lemma {:induction false} DropAppend<T>(a: seq<T>, k: nat, z: seq<T>)
    requires k <= |a|
    ensures (a + z)[k..] == a[k..] + z
  {
  }

  lemma {:induction false} TakenInFlight(n: Net, f: nat, g: nat, b: seq<Pkt>, r: Rsp, pkt: Pkt)
    requires InFlight(n, f, g, b) && f < |n.sent| && |n.taken| < |b| && |n.taken| < n.retired + n.req.out
    requires n.retired <= |n.taken| && pkt == b[|n.taken|]
    requires Responds(n.rsp, r, true, pkt)
    ensures InFlight(AfterPacket(n, r, true, pkt), f + 1, g, b)
  {
    var k := |n.taken|;
    SpanHead(k, n.retired + n.req.out);
    assert n.sent[f..][1..] == n.sent[f + 1..];
    AckPointsSnoc(b, n.retired, k);
    DropAppend(n.upTo, g, if pkt.ack then [k + 1] else []);
  }

  lemma {:induction false} RetiredInFlight(n: Net, f: nat, g: nat, b: seq<Pkt>, r: Req, k: nat)
    requires InFlight(n, f, g, b) && g < |n.upTo| && n.upTo[g] == n.retired + k
    requires n.upTo[g + 1..] == AckPoints(b, n.upTo[g], |n.taken|)
    requires |n.req.queue| - |r.queue| == k && n.retired + n.req.out <= n.retired + k + r.out
    requires |n.taken| <= n.retired + n.req.out
    ensures InFlight(AfterReply(n, r, false), f, g + 1, b)
  {
    var lo, hi := n.retired + n.req.out, n.retired + k + r.out;
    DropAppend(n.sent, f, Span(lo, hi));
    SpanConcat(|n.taken|, lo, hi);
    assert n.rsp.replies[g + 1..] == n.rsp.replies[g..][1..];
  }

  lemma {:induction false} PostedInFlight(n: Net, f: nat, g: nat, b: seq<Pkt>, r: Req, w: SendWr, data: seq<byte>,
          pkts: seq<Pkt>)
    requires InFlight(n, f, g, b) && n.req.out <= r.out && |n.taken| <= n.retired + n.req.out
    ensures InFlight(AfterPost(n, r, w, data), f, g, b + pkts)
  {
    var lo, hi := n.retired + n.req.out, n.retired + r.out;
    DropAppend(n.sent, f, Span(lo, hi));
    SpanConcat(|n.taken|, lo, hi);
    AckPointsMore(b, pkts, n.retired, |n.taken|);
  }

  lemma {:induction false} MoveKeeps(c: Config, s: Fifo, m: Move)
    requires FifoInv(c, s) && Can(c, s, m)
    ensures Enabled(c, s.net, EventOf(s, m)) && FifoInv(c, Do(c, s, m))
  {
    match m
    case Send(w, data) =>
      SendKeeps(c, s, w, data);
      assert Do(c, s, m) == Fifo(ApplyPost(c, s.net, w, data), s.f, s.g);
    case Receives(wr) =>
      ReceivesKeeps(c, s, wr);
      assert Do(c, s, m) == Fifo(WithRecv(s.net, wr), s.f, s.g);
    case NextPacket =>
      PacketKeeps(c, s);
      assert Do(c, s, m) == Fifo(ApplyPacket(c, s.net, s.net.req.wire[s.f]), s.f + 1, s.g);
    case NextReply =>
      ReplyKeeps(c, s);
      assert Do(c, s, m) == Fifo(ApplyReply(c, s.net, s.net.rsp.replies[s.g]), s.f, s.g + 1);
  }

  function WithRecv(n: Net, wr: RecvWr): Net { n.(rsp := PostRecv(n.rsp, wr), recvs := n.recvs + [wr]) }

  lemma {:induction false} ReceivesKeeps(c: Config, s: Fifo, wr: RecvWr)
    requires FifoInv(c, s)
    ensures FifoInv(c, Fifo(WithRecv(s.net, wr), s.f, s.g))
  {
  }

  lemma {:induction false} SendKeeps(c: Config, s: Fifo, w: SendWr, data: seq<byte>)
    requires FifoInv(c, s) && Enabled(c, s.net, PostSend(w, data))
    ensures FifoInv(c, Fifo(ApplyPost(c, s.net, w, data), s.f, s.g))
  {
    PostKeepsInv(c, s.net, w, data);
    SendMove(c, s, w, data);
  }

  lemma {:induction false} PacketKeeps(c: Config, s: Fifo)
    requires FifoInv(c, s) && Can(c, s, NextPacket)
    ensures Enabled(c, s.net, DeliverPacket(s.f))
    ensures FifoInv(c, Fifo(ApplyPacket(c, s.net, s.net.req.wire[s.f]), s.f + 1, s.g))
  {
    NextIsExpected(c, s);
    PacketKeepsInv(c, s.net, s.f);
    PacketMove(c, s);
  }

  lemma {:induction false} ReplyKeeps(c: Config, s: Fifo)
    requires FifoInv(c, s) && Can(c, s, NextReply)
    ensures Enabled(c, s.net, DeliverReply(s.g))
    ensures FifoInv(c, Fifo(ApplyReply(c, s.net, s.net.rsp.replies[s.g]), s.f, s.g + 1))
  {
    NextReplyCounts(c, s);
    ReplyKeepsInv(c, s.net, s.g);
    ReplyMove(c, s);
  }

  lemma {:induction false} SendMove(c: Config, s: Fifo, w: SendWr, data: seq<byte>)
    requires FifoInv(c, s) && Enabled(c, s.net, PostSend(w, data))
    ensures InFlight(ApplyPost(c, s.net, w, data), s.f, s.g, AllBuilt(c, ApplyPost(c, s.net, w, data)))
  {
    var n, b, pkts := s.net, AllBuilt(c, s.net), Packets(w, data, c.mtu, s.net.req.reqPsn);
    BuiltAfterPost(c, n, Post(n.req, w, pkts), w, data, pkts);
    WireAfterPost(n.req, b, n.retired, w, pkts);
    PostedInFlight(n, s.f, s.g, b, Post(n.req, w, pkts), w, data, pkts);
  }

  lemma {:induction false} PacketMove(c: Config, s: Fifo)
    requires FifoInv(c, s) && s.f < |s.net.req.wire| && s.net.sent[s.f] == |s.net.taken|
    requires Takes(c.env, s.net.rsp, s.net.req.wire[s.f]) && |s.net.taken| < s.net.retired + s.net.req.out
    ensures InFlight(ApplyPacket(c, s.net, s.net.req.wire[s.f]), s.f + 1, s.g, AllBuilt(c, s.net))
  {
    var n, pkt := s.net, s.net.req.wire[s.f];
    RecvResponds(c.env, n.rsp, pkt);
    TakenInFlight(n, s.f, s.g, AllBuilt(c, n), RecvRc(c.env, n.rsp, pkt), pkt);
  }

  lemma {:induction false} ReplyMove(c: Config, s: Fifo)
    requires FifoInv(c, s) && s.g < |s.net.rsp.replies| && s.net.upTo[s.g] > s.net.retired
    requires Enabled(c, s.net, DeliverReply(s.g))
    requires s.net.upTo[s.g + 1..] == AckPoints(AllBuilt(c, s.net), s.net.upTo[s.g], |s.net.taken|)
    ensures InFlight(ApplyReply(c, s.net, s.net.rsp.replies[s.g]), s.f, s.g + 1, AllBuilt(c, s.net))
  {
    var n, reply, b := s.net, s.net.rsp.replies[s.g], AllBuilt(c, s.net);
    var k := n.upTo[s.g] - n.retired;
    var r := AckAndRefill(c.sigAll, n.req, reply.psn);
    AckMoves(c, n.req, b, n.retired, n.upTo[s.g], reply.psn);
    RetiredInFlight(n, s.f, s.g, b, r, k);
    assert ApplyReply(c, n, reply) == AfterReply(n, r, false);
  }

  lemma {:induction false} AckMoves(c: Config, q: Req, b: seq<Pkt>, retired: nat, upTo: nat, psn: psn24)
    requires ReqInv(q) && SendOk(c.base, q, b, retired) && retired < upTo <= retired + q.out
    requires |b| + 1 - upTo < PSN_SPACE && psn == Wrap(c.base + (upTo - 1))
    ensures var r, k := AckAndRefill(c.sigAll, q, psn), upTo - retired;
      |q.queue| - |r.queue| == k && retired + q.out <= retired + k + r.out
  {
    var r, k := AckAndRefill(c.sigAll, q, psn), upTo - retired;
    AckCovers(c, q, b, retired, upTo, k, psn);
    SendAfterRetire(c.base, c.sigAll, q, r, b, retired, k, false);
  }

  // ----- progress

  function Measure(s: Fifo): int {
    3 * (|s.net.req.queue| - s.net.req.out) + 2 * (|s.net.req.wire| - s.f) + (|s.net.rsp.replies| - s.g)
  }

  lemma {:induction false} MeasureIsNat(c: Config, s: Fifo)
    requires FifoInv(c, s)
    ensures Measure(s) >= 0
  {
  }

  lemma {:induction false} ReplyShrinks(sigAll: bool, q: Req, r: Req, k: nat)
    requires Retired(sigAll, q, r, k, false)
    ensures 3 * (|r.queue| - r.out) + 2 * |r.wire| <= 3 * (|q.queue| - q.out) + 2 * |q.wire|
  {
  }

  /** Every delivery makes the measure smaller: packets that wait weigh three, packets in
      flight two, acknowledgements one. */
  lemma {:induction false} DeliveryShrinks(c: Config, s: Fifo, m: Move)
    requires FifoInv(c, s) && Can(c, s, m) && (m.NextPacket? || m.NextReply?)
    ensures Enabled(c, s.net, EventOf(s, m)) && Measure(Do(c, s, m)) < Measure(s)
  {
    MoveKeeps(c, s, m);
    if m.NextPacket? {
      NextIsExpected(c, s);
      RecvResponds(c.env, s.net.rsp, s.net.req.wire[s.f]);
    } else {
      NextReplyCounts(c, s);
      var reply := s.net.rsp.replies[s.g];
      AckRetires(c.sigAll, s.net.req, reply.psn);
      ReplyShrinks(c.sigAll, s.net.req, AckAndRefill(c.sigAll, s.net.req, reply.psn), Acked(s.net.req, reply.psn));
    }
  }

  /** Everything handed to the network has been delivered. */
  predicate Idle(s: Fifo) {
    s.f == |s.net.req.wire| && s.g == |s.net.rsp.replies|
  }

  lemma {:induction false} NothingOut(c: Config, s: Fifo)
    requires FifoInv(c, s) && Idle(s)
    ensures s.net.req.queue == []
  {
    var n, b := s.net, AllBuilt(c, s.net);
    if n.req.queue != [] {
      assert |Span(|n.taken|, n.retired + n.req.out)| == 0;
      assert |n.taken| == n.retired + n.req.out;
      var i := WindowAsks(n.req.queue, n.req.sqPsn);
      assert n.req.queue[i] == b[n.retired + i];
      AckPointsNone(b, n.retired, |n.taken|, n.retired + i);
    }
  }

  lemma {:induction false} RealNone(sq: seq<SendWr>)
    requires Real(sq) == [] && (sq != [] ==> !Skippable(sq[0]))
    ensures sq == []
  {
  }

  /** With no packet queued every request has completed, in posting order. */
  lemma {:induction false} EmptyMeansDone(c: Config, n: Net)
    requires Inv(c, n) && n.req.queue == []
    ensures n.req.sq == [] && n.req.cq == Completions(c.sigAll, Ws(n.msgs))
    ensures n.taken == AllBuilt(c, n)
    ensures Finished(AllBuilt(c, n), n.retired) == |n.msgs|
  {
    assert |AllBuilt(c, n)| == n.retired == |n.taken|;
    var ws := Real(n.req.sq);
    assert |Ptrs(ws)| == 0;
    PtrsDrop(ws, 0);
    RealNone(n.req.sq);
    assert Ws(n.msgs)[..|Ws(n.msgs)|] == Ws(n.msgs);
  }

  /** No deadlock: where nothing is left to deliver both queues are empty. */
  lemma {:induction false} IdleMeansDone(c: Config, s: Fifo)
    requires FifoInv(c, s) && Idle(s)
    ensures s.net.req.queue == [] && s.net.req.sq == []
    ensures s.net.req.cq == Completions(c.sigAll, Ws(s.net.msgs))
    ensures s.net.taken == AllBuilt(c, s.net)
  {
    NothingOut(c, s);
    EmptyMeansDone(c, s.net);
  }

  // ----- runs

  /** Where a sequence of moves leads, if they can all be made. */
  function Play(c: Config, s: Fifo, moves: seq<Move>): (r: Option<Fifo>)
    requires FifoInv(c, s)
    ensures r.Some? ==> FifoInv(c, r.value)
    decreases |moves|
  {
    if moves == [] then Some(s)
    else if !Can(c, s, moves[0]) then None
    else
      MoveKeeps(c, s, moves[0]);
      Play(c, Do(c, s, moves[0]), moves[1..])
  }

  function Begin(c: Config, mem: Mem): (s: Fifo)
    ensures FifoInv(c, s)
  {
    InitInv(c, mem);
    Fifo(Init(c, mem), 0, 0)
  }

  predicate Deliveries(moves: seq<Move>) {
    forall i :: 0 <= i < |moves| ==> moves[i].NextPacket? || moves[i].NextReply?
  }

  /** A run of deliveries alone cannot be longer than the measure. */
  lemma {:induction false} DeliveriesEnd(c: Config, s: Fifo, moves: seq<Move>)
    requires FifoInv(c, s) && Deliveries(moves) && Play(c, s, moves).Some?
    ensures |moves| <= Measure(s)
    decreases |moves|
  {
    MeasureIsNat(c, s);
    if moves != [] {
      MoveKeeps(c, s, moves[0]);
      DeliveryShrinks(c, s, moves[0]);
      DeliveriesEnd(c, Do(c, s, moves[0]), moves[1..]);
    }
  }

  /** From every state that can be reached by any posts and deliveries, deliveries alone
      end after finitely many, and where they end everything that was posted is done. */
  lemma {:induction false} EveryRunDrains(c: Config, mem: Mem, before: seq<Move>, moves: seq<Move>, s: Fifo, t: Fifo)
    requires Play(c, Begin(c, mem), before) == Some(s)
    requires Deliveries(moves) && Play(c, s, moves) == Some(t)
    ensures |moves| <= Measure(s)
    ensures Idle(t) ==> t.net.req.queue == [] && t.net.req.sq == []
                        && t.net.req.cq == Completions(c.sigAll, Ws(t.net.msgs))
  {
    DeliveriesEnd(c, s, moves);
    if Idle(t) {
      IdleMeansDone(c, t);
    }
  }

  /** Until then a delivery is possible, provided the receiver takes what it expects. */
  lemma {:induction false} NeverStuck(c: Config, s: Fifo)
    requires FifoInv(c, s) && s.net.req.queue != []
    requires s.f < |s.net.req.wire| ==> Receive(c.env, s.net.rsp.data, s.net.req.wire[s.f]).Took?
    ensures Can(c, s, NextPacket) || Can(c, s, NextReply)
  {
    if Idle(s) {
      NothingOut(c, s);
    }
  }
}
