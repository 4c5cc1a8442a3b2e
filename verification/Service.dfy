/**
 The protocol does its work: on a channel that loses nothing and keeps the order, with
 a receive request for every message, deliveries always go on until every request has
 completed, and then the receiver's memory and completion queue are exactly what the
 messages, applied one after the other, make of them.
 */
module Service {
  import opened Psn
  import opened Types
  import opened Scatter
  import opened Requester
  import opened Segment
  import opened Responder
  import opened Delivery
  import opened Streams
  import opened Protocol
  import opened Safety
  import opened Integrity
  import opened EndToEnd
  import opened Progress

  lemma {:induction false} StillLeft(c: Config, s: Fifo, left: seq<Pkt>)
    requires FifoInv(c, s) && AllBuilt(c, s.net) == s.net.taken + left && s.f < |s.net.req.wire|
    ensures left != [] && s.net.req.wire[s.f] == left[0]
    ensures Judge(s.net.rsp.rqPsn, left[0].psn) == Expected
  {
    NextIsExpected(c, s);
    AllShape(c, s.net);
    ExpectedIsLeft(c, s.net, AllBuilt(c, s.net), left, s.f);
  }

  lemma {:induction false} NextTaken(c: Config, mem: Mem, msgs: seq<Msg>, recvs: seq<RecvWr>, r: Rsp, left: seq<Pkt>,
          psn: int, p: Place)
    requires c.mtu <= c.env.pageSize
    requires AllFit(c.env, msgs, recvs) && Integrity.At(c, mem, msgs, recvs, r.data, left, psn, p)
    requires left != [] && |msgs| <= |recvs| && Judge(r.rqPsn, left[0].psn) == Expected
    ensures Takes(c.env, r, left[0])
    ensures var q, after := PlaceAfter(c.mtu, msgs, p), RecvRc(c.env, r, left[0]).data;
      Integrity.At(c, mem, msgs, recvs, after, left[1..], psn + 1, q)
  {
    var d := DataAt(c, mem, msgs, recvs, PlaceAfter(c.mtu, msgs, p));
    PieceAtPlace(c, mem, msgs, recvs, r.data, left, psn, p);
    ExpectedTaken(c, mem, msgs, recvs, r.data, psn, p, left[0]);
    RecvTook(c.env, r, left[0], d);
  }

  /** Until the queues are empty something can be delivered. */
  lemma {:induction false} ServedNotStuck(c: Config, mem: Mem, s: Fifo, left: seq<Pkt>, psn: int, p: Place)
    requires FifoInv(c, s) && Tracks(c, mem, s.net, left, psn, p)
    requires |s.net.msgs| <= |s.net.recvs| && s.net.req.queue != []
    ensures Can(c, s, NextPacket) || Can(c, s, NextReply)
  {
    if s.f < |s.net.req.wire| {
      StillLeft(c, s, left);
      NextTaken(c, mem, s.net.msgs, s.net.recvs, s.net.rsp, left, psn, p);
    }
    NeverStuck(c, s);
  }

  /** What the receiver has once everything is done. */
  lemma {:induction false} DoneMeansSettled(c: Config, mem: Mem, s: Net, left: seq<Pkt>, psn: int, p: Place)
    requires Inv(c, s) && Tracks(c, mem, s, left, psn, p) && s.req.queue == []
    ensures s.req.sq == [] && s.req.cq == Completions(c.sigAll, Ws(s.msgs))
    ensures s.rsp.data == Settled(c.env, mem, s.msgs, s.recvs, |s.msgs|)
  {
    EmptyMeansDone(c, s);
    CompletedAreWhole(c, mem, s, left, psn, p);
    assert p.i == |s.msgs|;
  }

  /** The packet delivered is taken, and leaves the receiver where the message says. */
  lemma {:induction false} DeliveryMoves(c: Config, mem: Mem, s: Fifo, m: Move, left: seq<Pkt>, psn: int, p: Place)
    returns (left': seq<Pkt>, psn': int, q: Place)
    requires FifoInv(c, s) && Tracks(c, mem, s.net, left, psn, p) && |s.net.msgs| <= |s.net.recvs|
    requires Can(c, s, m) && (m.NextPacket? || m.NextReply?)
    ensures Enabled(c, s.net, EventOf(s, m)) && Tracks(c, mem, Do(c, s, m).net, left', psn', q)
    ensures Do(c, s, m).net.msgs == s.net.msgs && Do(c, s, m).net.recvs == s.net.recvs
  {
    MoveKeeps(c, s, m);
    if m.NextReply? {
      left', psn', q := left, psn, p;
    } else {
      StillLeft(c, s, left);
      left', psn', q := HeadTracks(c, mem, s.net, left, psn, p);
    }
  }

  lemma {:induction false} HeadTracks(c: Config, mem: Mem, s: Net, left: seq<Pkt>, psn: int, p: Place)
    returns (left': seq<Pkt>, psn': int, q: Place)
    requires Tracks(c, mem, s, left, psn, p) && |s.msgs| <= |s.recvs|
    requires left != [] && Judge(s.rsp.rqPsn, left[0].psn) == Expected
    ensures Tracks(c, mem, ApplyPacket(c, s, left[0]), left', psn', q)
  {
    left', psn', q := left[1..], psn + 1, PlaceAfter(c.mtu, s.msgs, p);
    TakenMoves(c, mem, s, left, psn, p, RecvRc(c.env, s.rsp, left[0]));
    assert ApplyPacket(c, s, left[0]) == AfterPacket(s, RecvRc(c.env, s.rsp, left[0]), true, left[0]) by {
      ApplyTaken(c, s, left[0]);
    }
  }

  lemma {:induction false} TakenMoves(c: Config, mem: Mem, s: Net, left: seq<Pkt>, psn: int, p: Place, r: Rsp)
    requires Tracks(c, mem, s, left, psn, p) && |s.msgs| <= |s.recvs|
    requires left != [] && Judge(s.rsp.rqPsn, left[0].psn) == Expected && r == RecvRc(c.env, s.rsp, left[0])
    ensures Takes(c.env, s.rsp, left[0])
    ensures Tracks(c, mem, AfterPacket(s, r, true, left[0]), left[1..], psn + 1, PlaceAfter(c.mtu, s.msgs, p))
  {
    NextTaken(c, mem, s.msgs, s.recvs, s.rsp, left, psn, p);
    TracksTaken(c, mem, s, r, left, psn, PlaceAfter(c.mtu, s.msgs, p));
  }

  lemma {:induction false} ApplyTaken(c: Config, s: Net, pkt: Pkt)
    requires Takes(c.env, s.rsp, pkt)
    ensures ApplyPacket(c, s, pkt) == AfterPacket(s, RecvRc(c.env, s.rsp, pkt), true, pkt)
  {
  }

  lemma {:induction false} TracksTaken(c: Config, mem: Mem, s: Net, r: Rsp, left: seq<Pkt>, psn: int, q: Place)
    requires c.mtu <= c.env.pageSize
    requires AllFit(c.env, s.msgs, s.recvs) && psn == c.base + |s.taken|
    requires left != [] && AllBuilt(c, s) == s.taken + left
    requires Integrity.At(c, mem, s.msgs, s.recvs, r.data, left[1..], psn + 1, q)
    ensures Tracks(c, mem, AfterPacket(s, r, true, left[0]), left[1..], psn + 1, q)
  {
    AfterMoves(c, mem, s, r, true, left[0], left[1..], psn + 1, q);
    HeadMoves(c, s, r, AllBuilt(c, s), left);
  }

  lemma {:induction false} HeadMoves(c: Config, s: Net, r: Rsp, b: seq<Pkt>, left: seq<Pkt>)
    requires left != [] && b == s.taken + left
    ensures b == AfterPacket(s, r, true, left[0]).taken + left[1..]
  {
  }

  lemma {:induction false} DeliveriesCons(m: Move, rest: seq<Move>)
    requires Deliveries(rest) && (m.NextPacket? || m.NextReply?)
    ensures var all := [m] + rest; Deliveries(all) && all[0] == m && all[1..] == rest
  {
  }

  lemma {:induction false} PlayCons(c: Config, s: Fifo, all: seq<Move>, next: Fifo, t: Fifo)
    requires FifoInv(c, s) && all != [] && Can(c, s, all[0]) && Enabled(c, s.net, EventOf(s, all[0]))
    requires next == Do(c, s, all[0]) && FifoInv(c, next) && Play(c, next, all[1..]) == Some(t)
    ensures Play(c, s, all) == Some(t)
  {
  }

  /** From a state of a run there are deliveries that finish everything: the sender's
      queues are empty, every request completed in posting order, and the receiver has
      taken in exactly the messages, in order.  By DeliveriesEnd and ServedNotStuck any
      other choice of deliveries comes to an end too, and not before that. */
  lemma {:induction false} DeliversAll(c: Config, mem: Mem, s: Fifo, left: seq<Pkt>, psn: int, p: Place)
    returns (moves: seq<Move>, t: Fifo)
    requires FifoInv(c, s) && Tracks(c, mem, s.net, left, psn, p) && |s.net.msgs| <= |s.net.recvs|
    ensures Deliveries(moves) && Play(c, s, moves) == Some(t)
    ensures t.net.msgs == s.net.msgs && t.net.recvs == s.net.recvs
    ensures t.net.req.queue == [] && t.net.req.sq == []
    ensures t.net.req.cq == Completions(c.sigAll, Ws(s.net.msgs))
    ensures t.net.rsp.data == Settled(c.env, mem, s.net.msgs, s.net.recvs, |s.net.msgs|)
    decreases Measure(s)
  {
    MeasureIsNat(c, s);
    if s.net.req.queue == [] {
      moves, t := [], s;
      DoneMeansSettled(c, mem, s.net, left, psn, p);
    } else {
      ServedNotStuck(c, mem, s, left, psn, p);
      var m := if Can(c, s, NextReply) then NextReply else NextPacket;
      var left', psn', q := DeliveryMoves(c, mem, s, m, left, psn, p);
      MoveKeeps(c, s, m);
      DeliveryShrinks(c, s, m);
      var rest;
      rest, t := DeliversAll(c, mem, Do(c, s, m), left', psn', q);
      moves := [m] + rest;
      DeliveriesCons(m, rest);
      PlayCons(c, s, moves, Do(c, s, m), t);
    }
  }

  // ----- runs

  /** Every move can be made when its turn comes and suits the state. */
  predicate Suited(c: Config, s: Fifo, moves: seq<Move>)
    requires FifoInv(c, s)
    decreases |moves|
  {
    moves != [] ==>
      && Can(c, s, moves[0]) && Suits(c, s.net, EventOf(s, moves[0]))
      && (MoveKeeps(c, s, moves[0]); Suited(c, Do(c, s, moves[0]), moves[1..]))
  }

  lemma {:induction false} PlayTracks(c: Config, mem: Mem, s: Fifo, moves: seq<Move>, left: seq<Pkt>, psn: int,
          p: Place)
    returns (left': seq<Pkt>, psn': int, q: Place)
    requires FifoInv(c, s) && Suited(c, s, moves) && Tracks(c, mem, s.net, left, psn, p)
    ensures Play(c, s, moves).Some? && Tracks(c, mem, Play(c, s, moves).value.net, left', psn', q)
    decreases |moves|
  {
    left', psn', q := left, psn, p;
    if moves != [] {
      MoveKeeps(c, s, moves[0]);
      left', psn', q := EventMoves(c, mem, s.net, EventOf(s, moves[0]), left, psn, p);
      left', psn', q := PlayTracks(c, mem, Do(c, s, moves[0]), moves[1..], left', psn', q);
    }
  }

  /** Whatever was posted and delivered before, in any order: as soon as there is a
      receive request for every message, the rest can be delivered, and then both ends
      are done and the receiver's memory, its completions and its receive queue are what
      the messages alone determine. */
  lemma {:induction false} EverythingArrives(c: Config, mem: Mem, before: seq<Move>, s: Fifo)
    returns (moves: seq<Move>, t: Fifo)
    requires c.mtu <= c.env.pageSize
    requires Suited(c, Begin(c, mem), before) && Play(c, Begin(c, mem), before) == Some(s)
    requires |s.net.msgs| <= |s.net.recvs|
    ensures Deliveries(moves) && Play(c, s, moves) == Some(t) && t.net.msgs == s.net.msgs
    ensures t.net.req.queue == [] && t.net.req.sq == []
    ensures t.net.req.cq == Completions(c.sigAll, Ws(s.net.msgs))
    ensures t.net.rsp.data == Settled(c.env, mem, s.net.msgs, s.net.recvs, |s.net.msgs|)
  {
    StartTracks(c, mem);
    var left, psn, p := PlayTracks(c, mem, Begin(c, mem), before, [], c.base, Place(0, 0));
    moves, t := DeliversAll(c, mem, s, left, psn, p);
  }
}
