/**
 How a lost packet is recovered: the packet after it is answered by one NAK, the NAK puts
 the lost packet and those after it on the wire again, and from there everything arrives.

 There is no timer: where no later packet arrives, nothing is sent again.
 */
module Recovery {
  import opened Psn
  import opened Types
  import opened Scatter
  import opened Requester
  import opened Segment
  import opened Responder
  import opened Delivery
  import opened Streams
  import opened Protocol
  import opened Safety
  import opened Integrity
  import opened EndToEnd
  import opened Progress
  import opened Service

  // ----- one packet

  /** A number ahead of the expected one, by up to 2^23: one NAK for the expected number,
      unless one is pending, and nothing else. */
  lemma {:induction false} GapIsAnswered(env: Env, r: Rsp, pkt: Pkt, d: nat)
    requires r.rqPsn < PSN_SPACE && 0 < d <= HALF_SPACE && pkt.psn == Wrap(r.rqPsn + d)
    ensures var t := Rsp(r.rqPsn, true, r.data, r.replies + if r.inNak then [] else [Reply(true, r.rqPsn)]);
      RecvRc(env, r, pkt) == t && RecvBroken(r, pkt.psn) == t
  {
    assert Judge(r.rqPsn, pkt.psn) == OutOfSequence by { Ahead(r.rqPsn, d); }
    assert r.replies + [] == r.replies;
  }

  /** The expected number: no NAK is pending any more, whatever comes of the packet. */
  lemma {:induction false} ExpectedClearsFlag(env: Env, r: Rsp, pkt: Pkt)
    requires r.rqPsn < PSN_SPACE && pkt.psn == r.rqPsn
    ensures !RecvRc(env, r, pkt).inNak && RecvBroken(r, pkt.psn) == Rsp(r.rqPsn, false, r.data, r.replies)
  {
  }

  /** A number behind the expected one, by less than 2^23: nothing happens. */
  lemma {:induction false} OldIsIgnored(env: Env, r: Rsp, pkt: Pkt, d: nat)
    requires r.rqPsn < PSN_SPACE && 0 < d < HALF_SPACE && pkt.psn == Wrap(r.rqPsn - d)
    ensures RecvRc(env, r, pkt) == r && RecvBroken(r, pkt.psn) == r
  {
    assert Judge(r.rqPsn, pkt.psn) == Duplicate by { Behind(r.rqPsn, d); }
  }

  lemma {:induction false} Behind(rqPsn: psn24, d: nat)
    requires 0 < d < HALF_SPACE
    ensures Judge(rqPsn, Wrap(rqPsn - d)) == Duplicate
  {
    WrapDifference(rqPsn - d, rqPsn);
  }

  lemma {:induction false} Ahead(rqPsn: psn24, d: nat)
    requires 0 < d <= HALF_SPACE
    ensures Judge(rqPsn, Wrap(rqPsn + d)) == OutOfSequence
  {
    WrapDifference(rqPsn + d, rqPsn);
  }

  // ----- a gap in a run

  /** A packet that was sent lies at most nine places beyond the expected one. */
  lemma {:induction false} NotFarAhead(c: Config, s: Net, k: nat)
    requires Inv(c, s) && Enabled(c, s, DeliverPacket(k)) && s.sent[k] > |s.taken|
    ensures 0 < s.sent[k] - |s.taken| <= MAX_OUTGOING + 1 && s.rsp.rqPsn < PSN_SPACE
    ensures s.rsp.rqPsn == Wrap(c.base + |s.taken|)
    ensures s.req.wire[k].psn == Wrap(s.rsp.rqPsn + (s.sent[k] - |s.taken|))
    ensures |s.taken| < |AllBuilt(c, s)|
  {
    AllShape(c, s);
    ArrivesInOrder(c, s, AllBuilt(c, s), k);
    WrapAdd(c.base + |s.taken|, s.sent[k] - |s.taken|);
  }

  /** In every run the packet after a gap is answered by a NAK for the first missing one. */
  lemma {:induction false} GapInRun(c: Config, s: Net, k: nat, t: Net)
    requires Inv(c, s) && Enabled(c, s, DeliverPacket(k)) && s.sent[k] > |s.taken|
    requires t == Apply(c, s, DeliverPacket(k))
    ensures t.rsp == Rsp(s.rsp.rqPsn, true, s.rsp.data,
                         s.rsp.replies + if s.rsp.inNak then [] else [Reply(true, Wrap(c.base + |s.taken|))])
    ensures t.req == s.req && t.taken == s.taken && t.upTo == s.upTo + if s.rsp.inNak then [] else [|s.taken|]
    ensures t.sent == s.sent && t.msgs == s.msgs && t.recvs == s.recvs && t.retired == s.retired
  {
    var pkt := s.req.wire[k];
    NotFarAhead(c, s, k);
    GapIsAnswered(c.env, s.rsp, pkt, s.sent[k] - |s.taken|);
    assert !Takes(c.env, s.rsp, pkt) by { Ahead(s.rsp.rqPsn, s.sent[k] - |s.taken|); }
    assert s.taken + [] == s.taken && s.upTo + [] == s.upTo;
  }

  /** The j-th reply is a NAK for the first missing packet. */
  predicate NakAt(s: Net, j: nat) {
    j < |s.rsp.replies| && j < |s.upTo| && s.rsp.replies[j].nak && s.upTo[j] == |s.taken|
  }

  /** r is the sender with everything retired that the receiver took, and the rest resent. */
  predicate BackTo(base: int, sigAll: bool, q: Req, b: seq<Pkt>, retired: nat, taken: nat, r: Req) {
    && retired <= taken && ReqInv(r) && SendOk(base, q, b, retired)
    && Retired(sigAll, q, r, taken - retired, true)
  }

  lemma {:induction false} NakGoesBackTo(c: Config, q: Req, b: seq<Pkt>, retired: nat, taken: nat, psn: psn24)
    requires ReqInv(q) && SendOk(c.base, q, b, retired) && retired <= taken <= retired + q.out
    requires psn == ReplyPsn(c.base, taken, true)
    ensures BackTo(c.base, c.sigAll, q, b, retired, taken, Nak(c.sigAll, q, psn))
  {
    NakCovers(c, q, b, retired, taken, taken - retired, psn);
  }

  lemma {:induction false} NakFacts(c: Config, s: Net, j: nat)
    requires Inv(c, s) && NakAt(s, j)
    ensures ReqInv(s.req) && SendOk(c.base, s.req, AllBuilt(c, s), s.retired)
    ensures s.retired <= |s.taken| <= s.retired + s.req.out && s.rsp.replies[j].psn == ReplyPsn(c.base, |s.taken|, true)
  {
  }

  lemma {:induction false} WindowAgain(c: Config, s: Net, b: seq<Pkt>, r: Req, t: Net)
    requires BackTo(c.base, c.sigAll, s.req, b, s.retired, |s.taken|, r) && t == AfterReply(s, r, true)
    ensures t.retired == |s.taken| <= |b| && r.queue == b[t.retired..]
    ensures r.out == Min(|r.queue|, MAX_OUTGOING + 1) && r.wire == s.req.wire + r.queue[..r.out]
    ensures t.sent == s.sent + Span(t.retired, t.retired + r.out)
  {
    var k := |s.taken| - s.retired;
    SendAfterRetire(c.base, c.sigAll, s.req, r, b, s.retired, k, true);
    AfterReplyLogs(s, r, k, true);
  }

  lemma {:induction false} NakApplied(c: Config, s: Net, j: nat, t: Net)
    requires s.req.out <= |s.req.queue| && Enabled(c, s, DeliverReply(j)) && s.rsp.replies[j].nak
    requires t == Apply(c, s, DeliverReply(j))
    ensures t == AfterReply(s, Nak(c.sigAll, s.req, s.rsp.replies[j].psn), true)
  {
  }

  /** The NAK puts the first missing packet on the wire again, and after it the others that
      the window holds. */
  lemma {:induction false} NakResends(c: Config, s: Net, j: nat, t: Net)
    requires Inv(c, s) && NakAt(s, j) && Enabled(c, s, DeliverReply(j)) && t == Apply(c, s, DeliverReply(j))
    ensures t.rsp == s.rsp && t.taken == s.taken && t.upTo == s.upTo && t.msgs == s.msgs && t.recvs == s.recvs
    ensures t.retired == |s.taken| <= |AllBuilt(c, s)| && t.req.queue == AllBuilt(c, s)[|s.taken|..]
    ensures t.req.out == Min(|t.req.queue|, MAX_OUTGOING + 1)
    ensures t.req.wire == s.req.wire + t.req.queue[..t.req.out]
    ensures t.sent == s.sent + Span(|s.taken|, |s.taken| + t.req.out)
  {
    var b, psn := AllBuilt(c, s), s.rsp.replies[j].psn;
    NakFacts(c, s, j);
    var r := Nak(c.sigAll, s.req, psn);
    assert t == AfterReply(s, r, true) by { NakApplied(c, s, j, t); }
    assert BackTo(c.base, c.sigAll, s.req, b, s.retired, |s.taken|, r) by {
      NakGoesBackTo(c, s.req, b, s.retired, |s.taken|, psn);
    }
    WindowAgain(c, s, b, r, t);
  }

  lemma {:induction false} NakIsEnabled(c: Config, s: Net, j: nat)
    requires Inv(c, s) && j < |s.rsp.replies| && s.upTo[j] == |s.taken|
    ensures Enabled(c, s, DeliverReply(j))
  {
  }

  // ----- while a NAK is pending

  /** The pending NAK is among the replies that were sent. */
  ghost predicate Pending(s: Net) {
    s.rsp.inNak ==> exists j: nat :: NakAt(s, j)
  }

  /** Whoever leaves the flag set has changed nothing, or sent the NAK. */
  lemma {:induction false} FlagAfter(env: Env, r: Rsp, pkt: Pkt, t: Rsp)
    requires t == RecvRc(env, r, pkt) && t.inNak
    ensures !Takes(env, r, pkt)
    ensures t.replies == r.replies + if r.inNak then [] else [Reply(true, Wrap(r.rqPsn))]
  {
    assert r.replies + [] == r.replies;
  }

  lemma {:induction false} LogsAfter(s: Net, r: Rsp, pkt: Pkt, t: Net)
    requires |s.upTo| == |s.rsp.replies| && Pending(s)
    requires r.inNak && r.replies == s.rsp.replies + if s.rsp.inNak then [] else [Reply(true, Wrap(s.rsp.rqPsn))]
    requires t == AfterPacket(s, r, false, pkt)
    ensures Pending(t)
  {
    assert s.taken + [] == s.taken && s.upTo + [] == s.upTo;
    if s.rsp.inNak {
      var j: nat :| NakAt(s, j);
      assert NakAt(t, j);
    } else {
      assert NakAt(t, |s.upTo|);
    }
  }

  lemma {:induction false} PacketKeepsPending(c: Config, s: Net, pkt: Pkt, t: Net)
    requires Inv(c, s) && Pending(s) && t == ApplyPacket(c, s, pkt)
    ensures Pending(t)
  {
    var r := RecvRc(c.env, s.rsp, pkt);
    if r.inNak {
      FlagAfter(c.env, s.rsp, pkt, r);
      LogsAfter(s, r, pkt, t);
    }
  }

  lemma {:induction false} SameReceiver(s: Net, t: Net)
    requires Pending(s) && t.rsp.inNak == s.rsp.inNak && t.rsp.replies == s.rsp.replies
    requires t.upTo == s.upTo && t.taken == s.taken
    ensures Pending(t)
  {
    if t.rsp.inNak {
      var j: nat :| NakAt(s, j);
      assert NakAt(t, j);
    }
  }

  lemma {:induction false} StepKeepsPending(c: Config, s: Net, e: Event, t: Net)
    requires Inv(c, s) && Enabled(c, s, e) && Pending(s) && t == Apply(c, s, e)
    ensures Pending(t)
  {
    if e.DeliverPacket? {
      PacketKeepsPending(c, s, s.req.wire[e.k], t);
    } else {
      SameReceiver(s, t);
    }
  }

  lemma {:induction false} RunKeepsPending(c: Config, s: Net, events: seq<Event>, t: Net)
    requires Inv(c, s) && Pending(s) && Run(c, s, events) == Some(t)
    ensures Pending(t)
    decreases |events|
  {
    if events != [] {
      var next := Apply(c, s, events[0]);
      StepKeepsInv(c, s, events[0]);
      StepKeepsPending(c, s, events[0], next);
      RunKeepsPending(c, next, events[1..], t);
    }
  }

  // ----- from the gap on

  /** What is on the way once the NAK has been handled, everything before it aside: the
      packets from the first missing one on, in order. */
  lemma {:induction false} FreshWindow(c: Config, s: Net, j: nat, t: Net)
    requires Inv(c, s) && NakAt(s, j) && Enabled(c, s, DeliverReply(j)) && t == Apply(c, s, DeliverReply(j))
    ensures FifoInv(c, Fifo(t, |s.sent|, |s.rsp.replies|))
  {
    assert Inv(c, t) by { StepKeepsInv(c, s, DeliverReply(j)); }
    assert InFlight(t, |s.sent|, |s.rsp.replies|, AllBuilt(c, s)) by {
      NakResends(c, s, j, t);
      FreshFlight(t, s.sent, AllBuilt(c, s));
    }
  }

  lemma {:induction false} FreshFlight(t: Net, before: seq<nat>, b: seq<Pkt>)
    requires t.sent == before + Span(|t.taken|, t.retired + t.req.out)
    requires t.retired == |t.taken| <= |b| && |t.upTo| == |t.rsp.replies|
    ensures InFlight(t, |before|, |t.upTo|, b)
  {
  }

  /** The packet delivered leaves a NAK for the first missing packet among the replies, the
      last of them if none was pending. */
  lemma {:induction false} GapLeavesNak(c: Config, mem: Mem, events: seq<Event>, s: Net, k: nat, t: Net)
    returns (j: nat)
    requires Leads(c, mem, events, s) && Inv(c, s) && Enabled(c, s, DeliverPacket(k)) && s.sent[k] > |s.taken|
    requires t == Apply(c, s, DeliverPacket(k))
    ensures NakAt(t, j) && (!s.rsp.inNak ==> j == |t.rsp.replies| - 1 == |s.rsp.replies|)
  {
    GapInRun(c, s, k, t);
    if s.rsp.inNak {
      InitInv(c, mem);
      RunKeepsPending(c, Init(c, mem), events, s);
      StepKeepsPending(c, s, DeliverPacket(k), t);
      j :| NakAt(t, j);
    } else {
      j := |s.rsp.replies|;
    }
  }

  /** Everything arrives after a loss.  In any run over a channel that drops, repeats and
      reorders, let a packet beyond the expected one arrive: there is a NAK for the expected
      one, and once that is delivered the wire holds the missing packet again, and from there
      deliveries of what is sent from then on, in order, finish everything that was posted. */
  lemma {:induction false} EverythingArrivesAfterLoss(c: Config, mem: Mem, events: seq<Event>, s: Net, k: nat)
    returns (j: nat, t: Net, u: Net, moves: seq<Move>, v: Fifo)
    requires Leads(c, mem, events, s) && Inv(c, s) && |s.msgs| <= |s.recvs|
    requires Enabled(c, s, DeliverPacket(k)) && s.sent[k] > |s.taken|
    ensures t == Apply(c, s, DeliverPacket(k)) && NakAt(t, j) && (!s.rsp.inNak ==> j == |t.rsp.replies| - 1)
    ensures Inv(c, t) && Enabled(c, t, DeliverReply(j)) && u == Apply(c, t, DeliverReply(j))
    ensures |u.req.wire| > |t.req.wire| == |t.sent| && u.req.wire[|t.sent|] == AllBuilt(c, s)[|s.taken|]
    ensures FifoInv(c, Fifo(u, |t.sent|, |t.rsp.replies|)) && Deliveries(moves)
    ensures Play(c, Fifo(u, |t.sent|, |t.rsp.replies|), moves) == Some(v)
    ensures v.net.req.queue == [] && v.net.req.sq == []
    ensures v.net.req.cq == Completions(c.sigAll, Ws(s.msgs))
    ensures v.net.rsp.data == Settled(c.env, mem, s.msgs, s.recvs, |s.msgs|)
  {
    var left, psn, p := LeadsSomewhere(c, mem, events, s);
    t := Apply(c, s, DeliverPacket(k));
    assert Suits(c, s, DeliverPacket(k)) by { GapSuits(c, s, k); }
    left, psn, p := EventMoves(c, mem, s, DeliverPacket(k), left, psn, p);
    StepKeepsInv(c, s, DeliverPacket(k));
    j := GapLeavesNak(c, mem, events, s, k, t);
    NakIsEnabled(c, t, j);
    u := Apply(c, t, DeliverReply(j));
    left, psn, p := EventMoves(c, mem, t, DeliverReply(j), left, psn, p);
    MissingIsOut(c, s, k, t, j, u);
    FreshWindow(c, t, j, u);
    moves, v := DeliversAll(c, mem, Fifo(u, |t.sent|, |t.rsp.replies|), left, psn, p);
  }

  lemma {:induction false} GapSuits(c: Config, s: Net, k: nat)
    requires Inv(c, s) && Enabled(c, s, DeliverPacket(k)) && s.sent[k] > |s.taken|
    ensures Suits(c, s, DeliverPacket(k))
  {
    NotFarAhead(c, s, k);
    Ahead(s.rsp.rqPsn, s.sent[k] - |s.taken|);
  }

  lemma {:induction false} MissingIsOut(c: Config, s: Net, k: nat, t: Net, j: nat, u: Net)
    requires Inv(c, s) && Enabled(c, s, DeliverPacket(k)) && s.sent[k] > |s.taken|
    requires t == Apply(c, s, DeliverPacket(k)) && Inv(c, t) && NakAt(t, j)
    requires Enabled(c, t, DeliverReply(j)) && u == Apply(c, t, DeliverReply(j))
    ensures |u.req.wire| > |t.req.wire| == |t.sent| && u.req.wire[|t.sent|] == AllBuilt(c, s)[|s.taken|]
    ensures u.msgs == s.msgs && u.recvs == s.recvs
  {
    NotFarAhead(c, s, k);
    GapInRun(c, s, k, t);
    NakResends(c, t, j, u);
  }
}
