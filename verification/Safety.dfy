/**
 Every step of the protocol keeps its invariant, and what follows for every run:
 no request completes before all of it was received, and the packets that are
 received are the ones that were built, each once, in order.
 */
module Safety {
  import opened Psn
  import opened Types
  import opened Scatter
  import opened Requester
  import opened Segment
  import opened Responder
  import opened Delivery
  import opened Streams
  import opened Protocol

  // ----- the logs of the network

  lemma {:induction false} SentGrows(wire: seq<Pkt>, sent: seq<nat>, b: seq<Pkt>, limit: int, b2: seq<Pkt>, lo: int,
          hi: int)
    requires SentOk(wire, sent, b, limit) && b <= b2
    requires 0 <= lo <= hi <= |b2| && limit <= hi
    ensures SentOk(wire + b2[lo..hi], sent + Span(lo, hi), b2, hi)
  {
  }

  lemma {:induction false} SliceOfRest<T>(b: seq<T>, i: nat, lo: nat, hi: nat)
    requires i <= |b| && lo <= hi <= |b| - i
    ensures b[i..][lo..hi] == b[i + lo..i + hi]
  {
  }

  lemma {:induction false} SlideWire(q: Req)
    requires q.out <= |q.queue|
    ensures var r := Slide(q);
      && q.out <= r.out <= |r.queue| && r.queue == q.queue
      && r.wire == q.wire + q.queue[q.out..r.out]
  {
  }

  // ----- posting

  lemma {:induction false} NextNumber(base: int, q: Req, b: seq<Pkt>, retired: nat)
    requires ReqInv(q) && SendOk(base, q, b, retired)
    ensures q.reqPsn == Wrap(base + |b|) && Wrap(q.reqPsn) == q.reqPsn
  {
    WrapAdd(base + retired, |q.queue|);
    WrapAdd(base + |b|, 0);
  }

  lemma {:induction false} StreamAfterPost(c: Config, msgs: seq<Msg>, w: SendWr, data: seq<byte>, psn: int)
    requires Wrap(psn) == Wrap(c.base + |Stream(Cutter(c.mtu), msgs, c.base)|)
    ensures var more := msgs + if Skippable(w) then [] else [Msg(w, data)];
      Stream(Cutter(c.mtu), more, c.base)
      == Stream(Cutter(c.mtu), msgs, c.base) + Packets(w, data, c.mtu, psn)
  {
    var b := Stream(Cutter(c.mtu), msgs, c.base);
    if Skippable(w) {
      assert msgs + [] == msgs && b + [] == b;
    } else {
      var n := c.base + |b|;
      StreamConcat(Cutter(c.mtu), msgs, [Msg(w, data)], c.base);
      StreamOfOne(Cutter(c.mtu), Msg(w, data), n);
      PacketsMod(w, data, c.mtu, n, psn);
    }
  }

  lemma {:induction false} SendAfterPost(base: int, q: Req, b: seq<Pkt>, retired: nat, w: SendWr, pkts: seq<Pkt>)
    requires ReqInv(q) && SendOk(base, q, b, retired) && Requester.Built(w, pkts, q.reqPsn)
    requires |q.queue| + |pkts| < HALF_SPACE
    ensures var r := Post(q, w, pkts);
      && ReqInv(r) && SendOk(base, r, b + pkts, retired)
      && r.cq == q.cq && Real(r.sq) == Real(q.sq) + (if Skippable(w) then [] else [w])
  {
    PostKeeps(q, w, pkts);
    assert (b + pkts)[retired..] == b[retired..] + pkts;
  }

  lemma {:induction false} WireAfterPost(q: Req, b: seq<Pkt>, retired: nat, w: SendWr, pkts: seq<Pkt>)
    requires retired <= |b| && q.queue == b[retired..] && q.out <= |q.queue|
    ensures var r := Post(q, w, pkts);
      && q.out <= r.out && retired + r.out <= |b + pkts|
      && r.wire == q.wire + (b + pkts)[retired + q.out..retired + r.out]
  {
    var e := Enqueue(q, w, pkts);
    SlideWire(e);
    assert (b + pkts)[retired..] == b[retired..] + pkts;
    SliceOfRest(b + pkts, retired, q.out, Slide(e).out);
  }

  lemma {:induction false} DoneAfterPost(sigAll: bool, q: Req, r: Req, msgs: seq<Msg>, done: nat, m: Msg)
    requires DoneOk(sigAll, q, Ws(msgs), done)
    requires r.cq == q.cq && Real(r.sq) == Real(q.sq) + [m.w]
    ensures DoneOk(sigAll, r, Ws(msgs + [m]), done)
  {
    assert Ws(msgs + [m]) == Ws(msgs) + [m.w];
    assert (Ws(msgs) + [m.w])[done..] == Ws(msgs)[done..] + [m.w];
    assert (Ws(msgs) + [m.w])[..done] == Ws(msgs)[..done];
  }

  lemma {:induction false} FinishedOfPrefix(b: seq<Pkt>, more: seq<Pkt>, n: nat)
    requires n <= |b|
    ensures Finished(b + more, n) == Finished(b, n)
  {
    assert (b + more)[..n] == b[..n];
  }

  /** r is q with a request and its packets queued and the window filled up again. */
  predicate Posted(base: int, q: Req, r: Req, b: seq<Pkt>, retired: nat, w: SendWr, pkts: seq<Pkt>) {
    && SendOk(base, r, b + pkts, retired)
    && q.out <= r.out && retired + r.out <= |b + pkts|
    && r.cq == q.cq && Real(r.sq) == Real(q.sq) + (if Skippable(w) then [] else [w])
    && r.wire == q.wire + (b + pkts)[retired + q.out..retired + r.out]
  }

  lemma {:induction false} PostIsPosted(base: int, q: Req, b: seq<Pkt>, retired: nat, w: SendWr, pkts: seq<Pkt>)
    requires ReqInv(q) && SendOk(base, q, b, retired) && Requester.Built(w, pkts, q.reqPsn)
    requires |q.queue| + |pkts| < HALF_SPACE
    ensures Posted(base, q, Post(q, w, pkts), b, retired, w, pkts) && ReqInv(Post(q, w, pkts))
  {
    SendAfterPost(base, q, b, retired, w, pkts);
    WireAfterPost(q, b, retired, w, pkts);
  }

  lemma {:induction false} PostKeepsAll(c: Config, s: Net, b: seq<Pkt>, r: Req, w: SendWr, data: seq<byte>,
          pkts: seq<Pkt>)
    requires Consistent(c, s, b) && Posted(c.base, s.req, r, b, s.retired, w, pkts)
    ensures Consistent(c, AfterPost(s, r, w, data), b + pkts)
  {
    var t := AfterPost(s, r, w, data);
    assert RecvOk(c.base, t.rsp, t.taken, b + pkts) by { assert s.taken <= b + pkts; }
    assert Finished(b + pkts, s.retired) == Finished(b, s.retired) by { FinishedOfPrefix(b, pkts, s.retired); }
    assert DoneOk(c.sigAll, r, Ws(t.msgs), Finished(b, s.retired)) by {
      DoneAfterAny(c.sigAll, s.req, r, s.msgs, Finished(b, s.retired), w, data);
    }
    assert SentOk(r.wire, t.sent, b + pkts, s.retired + r.out) by {
      PostSent(c.base, s.req, r, b, s.retired, w, pkts, s.sent);
    }
  }

  lemma {:induction false} PostSent(base: int, q: Req, r: Req, b: seq<Pkt>, retired: nat, w: SendWr, pkts: seq<Pkt>,
          sent: seq<nat>)
    requires Posted(base, q, r, b, retired, w, pkts) && SentOk(q.wire, sent, b, retired + q.out)
    ensures SentOk(r.wire, sent + Span(retired + q.out, retired + r.out), b + pkts, retired + r.out)
  {
    SentGrows(q.wire, sent, b, retired + q.out, b + pkts, retired + q.out, retired + r.out);
  }

  lemma {:induction false} DoneAfterAny(sigAll: bool, q: Req, r: Req, msgs: seq<Msg>, done: nat, w: SendWr,
          data: seq<byte>)
    requires DoneOk(sigAll, q, Ws(msgs), done)
    requires r.cq == q.cq && Real(r.sq) == Real(q.sq) + (if Skippable(w) then [] else [w])
    ensures DoneOk(sigAll, r, Ws(msgs + if Skippable(w) then [] else [Msg(w, data)]), done)
  {
    if Skippable(w) {
      assert msgs + [] == msgs && Real(q.sq) + [] == Real(q.sq);
    } else {
      DoneAfterPost(sigAll, q, r, msgs, done, Msg(w, data));
    }
  }

  lemma {:induction false} PostKeepsConsistent(c: Config, s: Net, b: seq<Pkt>, w: SendWr, data: seq<byte>,
          pkts: seq<Pkt>)
    requires ReqInv(s.req) && Consistent(c, s, b) && Requester.Built(w, pkts, s.req.reqPsn)
    requires |s.req.queue| + |pkts| < HALF_SPACE
    ensures Consistent(c, AfterPost(s, Post(s.req, w, pkts), w, data), b + pkts)
    ensures ReqInv(Post(s.req, w, pkts))
  {
    var r := Post(s.req, w, pkts);
    PostIsPosted(c.base, s.req, b, s.retired, w, pkts);
    PostKeepsAll(c, s, b, r, w, data, pkts);
  }

  lemma {:induction false} BuiltAfterPost(c: Config, s: Net, r: Req, w: SendWr, data: seq<byte>, pkts: seq<Pkt>)
    requires Inv(c, s) && (Silent(w) ==> Skippable(w)) && pkts == Packets(w, data, c.mtu, s.req.reqPsn)
    ensures Requester.Built(w, pkts, s.req.reqPsn)
    ensures AllBuilt(c, AfterPost(s, r, w, data)) == AllBuilt(c, s) + pkts
    ensures AllAnswered(AfterPost(s, r, w, data).msgs)
  {
    NextNumber(c.base, s.req, AllBuilt(c, s), s.retired);
    StreamAfterPost(c, s.msgs, w, data, s.req.reqPsn);
    PacketsBuilt(w, data, c.mtu, s.req.reqPsn);
  }

  lemma {:induction false} PostKeepsInv(c: Config, s: Net, w: SendWr, data: seq<byte>)
    requires Inv(c, s) && Enabled(c, s, PostSend(w, data))
    ensures Inv(c, ApplyPost(c, s, w, data))
  {
    var pkts := Packets(w, data, c.mtu, s.req.reqPsn);
    BuiltAfterPost(c, s, Post(s.req, w, pkts), w, data, pkts);
    PostKeepsConsistent(c, s, AllBuilt(c, s), w, data, pkts);
  }

  // ----- a packet arrives

  /** What a packet may do to the numbers and the replies of the receiver. */
  predicate Responds(r: Rsp, t: Rsp, took: bool, pkt: Pkt) {
    if took then
      t.rqPsn == Inc(r.rqPsn) && t.replies == r.replies + if pkt.ack then [Reply(false, pkt.psn)] else []
    else
      && t.rqPsn == r.rqPsn
      && (t.replies == r.replies || t.replies == r.replies + [Reply(true, Wrap(r.rqPsn))])
  }

  lemma {:induction false} RecvResponds(env: Env, r: Rsp, pkt: Pkt)
    ensures Responds(r, RecvRc(env, r, pkt), Takes(env, r, pkt), pkt)
  {
    assert r.replies + [] == r.replies;
  }

  /** A packet that is not too old carries the expected number only if it is the expected
      packet. */
  lemma {:induction false} ExpectedIsNext(base: int, taken: nat, n: nat)
    requires n < taken + PSN_SPACE && taken < n + PSN_SPACE
    ensures Judge(Wrap(base + taken), Wrap(base + n)) == Expected <==> n == taken
  {
    WrapDifference(base + n, base + taken);
  }

  lemma {:induction false} RepliesGrow(base: int, replies: seq<Reply>, upTo: seq<nat>, taken: nat, now: nat,
          more: seq<Reply>)
    requires RepliesOk(base, replies, upTo, taken) && taken <= now
    requires |more| <= 1 && (more != [] ==> more[0].psn == ReplyPsn(base, now, more[0].nak))
    ensures RepliesOk(base, replies + more, upTo + if more != [] then [now] else [], now)
  {
  }

  lemma {:induction false} AllShape(c: Config, s: Net)
    requires AllAnswered(s.msgs)
    ensures Shape(AllBuilt(c, s), c.base)
  {
    CutterCuts(c.mtu, s.msgs);
    StreamShape(Cutter(c.mtu), s.msgs, c.base);
  }

  /** The packets that the receiver takes are taken in order. */
  lemma {:induction false} ArrivesInOrder(c: Config, s: Net, b: seq<Pkt>, k: nat)
    requires Consistent(c, s, b) && Shape(b, c.base) && Enabled(c, s, DeliverPacket(k))
    ensures s.sent[k] < |b| && s.sent[k] < s.retired + s.req.out
    ensures s.req.wire[k] == b[s.sent[k]] && b[s.sent[k]].psn == Wrap(c.base + s.sent[k])
    ensures Judge(s.rsp.rqPsn, b[s.sent[k]].psn) == Expected ==> s.sent[k] == |s.taken|
  {
    ShapeAt(b, c.base, s.sent[k]);
    ExpectedIsNext(c.base, |s.taken|, s.sent[k]);
  }

  lemma {:induction false} RepliesAfterPacket(base: int, s: Rsp, r: Rsp, took: bool, pkt: Pkt, upTo: seq<nat>,
          taken: nat)
    requires RepliesOk(base, s.replies, upTo, taken) && Responds(s, r, took, pkt)
    requires s.rqPsn == Wrap(base + taken) && (took ==> pkt.psn == s.rqPsn)
    ensures var now := if took then taken + 1 else taken;
      RepliesOk(base, r.replies, upTo + if |r.replies| > |s.replies| then [now] else [], now)
  {
    WrapAdd(base + taken, 0);
    var more := r.replies[|s.replies|..];
    assert r.replies == s.replies + more;
    RepliesGrow(base, s.replies, upTo, taken, if took then taken + 1 else taken, more);
  }

  /** pkt is the packet numbered n. */
  lemma {:induction false} TakeKeeps(c: Config, s: Net, b: seq<Pkt>, r: Rsp, took: bool, n: nat, pkt: Pkt)
    requires Consistent(c, s, b) && Responds(s.rsp, r, took, pkt)
    requires n < |b| && n < s.retired + s.req.out && pkt == b[n] && pkt.psn == Wrap(c.base + n)
    requires took ==> n == |s.taken|
    ensures Consistent(c, AfterPacket(s, r, took, pkt), b)
  {
    var t := AfterPacket(s, r, took, pkt);
    RepliesAfterPacket(c.base, s.rsp, r, took, pkt, s.upTo, |s.taken|);
    IncWraps(c.base + |s.taken|);
  }

  lemma {:induction false} PacketKeepsInv(c: Config, s: Net, k: nat)
    requires Inv(c, s) && Enabled(c, s, DeliverPacket(k))
    ensures Inv(c, ApplyPacket(c, s, s.req.wire[k]))
  {
    var b, pkt := AllBuilt(c, s), s.req.wire[k];
    AllShape(c, s);
    ArrivesInOrder(c, s, b, k);
    RecvResponds(c.env, s.rsp, pkt);
    TakeKeeps(c, s, b, RecvRc(c.env, s.rsp, pkt), Takes(c.env, s.rsp, pkt), s.sent[k], pkt);
  }

  // ----- a reply arrives

  /** How far behind an acknowledgement may be: it retires exactly the packets that it
      covers, and none when they are all retired, as long as the number it carries is less
      than 2^24 behind the next one to be built. */
  lemma {:induction false} AckedExactly(base: int, q: Req, b: seq<Pkt>, retired: nat, upTo: int)
    requires SendOk(base, q, b, retired)
    requires upTo <= retired + q.out && |b| + 1 - upTo < PSN_SPACE
    ensures Acked(q, Wrap(base + (upTo - 1))) == if upTo > retired then upTo - retired else 0
  {
    var n := upTo - 1;
    WrapDifference(base + n, base + retired);
    assert (n - retired) % PSN_SPACE == if n >= retired then n - retired else n - retired + PSN_SPACE;
  }

  /** One number farther behind, the same acknowledgement is taken for a new one. */
  lemma {:induction false} AckTooOld(base: int, q: Req, b: seq<Pkt>, retired: nat, upTo: int)
    requires SendOk(base, q, b, retired) && q.out > 0
    requires retired < upTo + PSN_SPACE && upTo <= retired
    ensures Acked(q, Wrap(base + (upTo - 1))) == 0 <==> |b| + 1 - upTo < PSN_SPACE
  {
    var n := upTo - 1;
    WrapDifference(base + n, base + retired);
  }

  lemma {:induction false} FinishedMore(b: seq<Pkt>, n: nat, k: nat)
    requires n + k <= |b|
    ensures Finished(b, n + k) == Finished(b, n) + |Owners(b[n..][..k])|
  {
    assert b[..n + k] == b[..n] + b[n..][..k];
    OwnersConcat(b[..n], b[n..][..k]);
  }

  lemma {:induction false} CompletionsConcat(sigAll: bool, a: seq<SendWr>, z: seq<SendWr>)
    ensures Completions(sigAll, a + z) == Completions(sigAll, a) + Completions(sigAll, z)
  {
    if a == [] {
      assert a + z == z;
    } else {
      assert (a + z)[0] == a[0] && (a + z)[1..] == a[1..] + z;
      CompletionsConcat(sigAll, a[1..], z);
    }
  }

  lemma {:induction false} DoneAfterRetire(sigAll: bool, q: Req, r: Req, ws: seq<SendWr>, done: nat, m: nat)
    requires DoneOk(sigAll, q, ws, done) && m <= |Real(q.sq)|
    requires Real(r.sq) == Real(q.sq)[m..] && r.cq == q.cq + Completions(sigAll, Real(q.sq)[..m])
    ensures DoneOk(sigAll, r, ws, done + m)
  {
    assert ws[done..][m..] == ws[done + m..] && ws[..done + m] == ws[..done] + ws[done..][..m];
    CompletionsConcat(sigAll, ws[..done], ws[done..][..m]);
  }

  /** r is q with its first k packets retired and the window filled up again, resent being
      set when the rest of the old window went out once more. */
  predicate Retired(sigAll: bool, q: Req, r: Req, k: nat, resent: bool) {
    && k <= q.out <= |q.queue|
    && r.queue == q.queue[k..] && r.sqPsn == Wrap(q.sqPsn + k)
    && q.out - k <= r.out <= |r.queue|
    && r.wire == q.wire + r.queue[if resent then 0 else q.out - k..r.out]
    && var m, ws := |Owners(q.queue[..k])|, Real(q.sq);
    && m <= |ws| && Real(r.sq) == ws[m..] && r.cq == q.cq + Completions(sigAll, ws[..m])
  }

  lemma {:induction false} AckRetires(sigAll: bool, q: Req, psn: psn24)
    requires ReqInv(q)
    ensures Retired(sigAll, q, AckAndRefill(sigAll, q, psn), Acked(q, psn), false)
    ensures ReqInv(AckAndRefill(sigAll, q, psn))
  {
    var k := Acked(q, psn);
    RetireAgrees(sigAll, q, k);
    SlideWire(Retire(sigAll, q, k));
    AckKeeps(sigAll, q, psn);
  }

  lemma {:induction false} NakRetires(sigAll: bool, q: Req, psn: psn24)
    requires ReqInv(q)
    ensures Retired(sigAll, q, Nak(sigAll, q, psn), Acked(q, Wrap(psn - 1)), true)
    ensures ReqInv(Nak(sigAll, q, psn))
  {
    var k := Acked(q, Wrap(psn - 1));
    RetireAgrees(sigAll, q, k);
    ResendWire(Retire(sigAll, q, k));
    NakKeeps(sigAll, q, psn);
  }

  lemma {:induction false} SendAfterRetire(base: int, sigAll: bool, q: Req, r: Req, b: seq<Pkt>, retired: nat, k: nat,
          resent: bool)
    requires SendOk(base, q, b, retired) && Retired(sigAll, q, r, k, resent)
    ensures SendOk(base, r, b, retired + k)
    ensures |q.queue| - |r.queue| == k
    ensures retired + q.out <= retired + k + r.out <= |b|
    ensures var lo := if resent then retired + k else retired + q.out;
      lo <= retired + k + r.out && r.wire == q.wire + b[lo..retired + k + r.out]
  {
    assert b[retired..][k..] == b[retired + k..];
    WrapAdd(base + retired, k);
    SliceOfRest(b, retired + k, if resent then 0 else q.out - k, r.out);
  }

  lemma {:induction false} RetireQueue(c: Config, s: Net, b: seq<Pkt>, r: Req, k: nat, resent: bool)
    requires SendOk(c.base, s.req, b, s.retired) && Retired(c.sigAll, s.req, r, k, resent)
    ensures var t := AfterReply(s, r, resent);
      SendOk(c.base, r, b, t.retired) && t.retired == s.retired + k && s.retired + s.req.out <= t.retired + r.out
  {
    SendAfterRetire(c.base, c.sigAll, s.req, r, b, s.retired, k, resent);
  }

  lemma {:induction false} RetireDone(c: Config, s: Net, b: seq<Pkt>, r: Req, k: nat, resent: bool)
    requires SendOk(c.base, s.req, b, s.retired) && Retired(c.sigAll, s.req, r, k, resent)
    requires DoneOk(c.sigAll, s.req, Ws(s.msgs), Finished(b, s.retired))
    ensures DoneOk(c.sigAll, r, Ws(s.msgs), Finished(b, AfterReply(s, r, resent).retired))
  {
    FinishedMore(b, s.retired, k);
    DoneAfterRetire(c.sigAll, s.req, r, Ws(s.msgs), Finished(b, s.retired), |Owners(s.req.queue[..k])|);
  }

  lemma {:induction false} WireAfterRetire(base: int, sigAll: bool, q: Req, r: Req, b: seq<Pkt>, retired: nat, k: nat,
          resent: bool, sent: seq<nat>)
    requires SendOk(base, q, b, retired) && Retired(sigAll, q, r, k, resent)
    requires SentOk(q.wire, sent, b, retired + q.out)
    ensures |q.queue| - |r.queue| == k
    ensures var now := retired + k; var lo := if resent then now else retired + q.out;
      SentOk(r.wire, sent + Span(lo, now + r.out), b, now + r.out)
  {
    SendAfterRetire(base, sigAll, q, r, b, retired, k, resent);
    var now, lo := retired + k, if resent then retired + k else retired + q.out;
    SentGrows(q.wire, sent, b, retired + q.out, b, lo, now + r.out);
  }

  lemma {:induction false} AfterReplyLogs(s: Net, r: Req, k: nat, resent: bool)
    requires |s.req.queue| - |r.queue| == k
    ensures var t, now := AfterReply(s, r, resent), s.retired + k;
      t.retired == now && t.sent == s.sent + Span(if resent then now else s.retired + s.req.out, now + r.out)
  {
  }

  lemma {:induction false} RetireSent(c: Config, s: Net, b: seq<Pkt>, r: Req, k: nat, resent: bool)
    requires SendOk(c.base, s.req, b, s.retired) && Retired(c.sigAll, s.req, r, k, resent)
    requires SentOk(s.req.wire, s.sent, b, s.retired + s.req.out)
    ensures var t := AfterReply(s, r, resent);
      SentOk(r.wire, t.sent, b, t.retired + r.out)
  {
    WireAfterRetire(c.base, c.sigAll, s.req, r, b, s.retired, k, resent, s.sent);
    LogsSent(s, b, r, k, resent);
  }

  lemma {:induction false} LogsSent(s: Net, b: seq<Pkt>, r: Req, k: nat, resent: bool)
    requires |s.req.queue| - |r.queue| == k
    requires var now := s.retired + k;
      SentOk(r.wire, s.sent + Span(if resent then now else s.retired + s.req.out, now + r.out), b, now + r.out)
    ensures var t := AfterReply(s, r, resent); SentOk(r.wire, t.sent, b, t.retired + r.out)
  {
    AfterReplyLogs(s, r, k, resent);
  }

  lemma {:induction false} RetireKeeps(c: Config, s: Net, b: seq<Pkt>, r: Req, k: nat, resent: bool)
    requires Consistent(c, s, b) && Retired(c.sigAll, s.req, r, k, resent)
    requires s.retired + k <= |s.taken|
    ensures Consistent(c, AfterReply(s, r, resent), b)
  {
    RetireQueue(c, s, b, r, k, resent);
    RetireDone(c, s, b, r, k, resent);
    RetireSent(c, s, b, r, k, resent);
  }

  lemma {:induction false} AckCovers(c: Config, q: Req, b: seq<Pkt>, retired: nat, upTo: nat, k: nat, psn: psn24)
    requires ReqInv(q) && SendOk(c.base, q, b, retired)
    requires upTo <= retired + q.out && |b| + 1 - upTo < PSN_SPACE && psn == Wrap(c.base + (upTo - 1))
    requires k == if upTo > retired then upTo - retired else 0
    ensures ReqInv(AckAndRefill(c.sigAll, q, psn)) && Retired(c.sigAll, q, AckAndRefill(c.sigAll, q, psn), k, false)
  {
    assert Acked(q, psn) == k by { AckedExactly(c.base, q, b, retired, upTo); }
    AckRetires(c.sigAll, q, psn);
  }

  lemma {:induction false} NakCovers(c: Config, q: Req, b: seq<Pkt>, retired: nat, upTo: nat, k: nat, psn: psn24)
    requires ReqInv(q) && SendOk(c.base, q, b, retired)
    requires upTo <= retired + q.out && |b| + 1 - upTo < PSN_SPACE && psn == Wrap(c.base + upTo)
    requires k == if upTo > retired then upTo - retired else 0
    ensures ReqInv(Nak(c.sigAll, q, psn)) && Retired(c.sigAll, q, Nak(c.sigAll, q, psn), k, true)
  {
    assert Acked(q, Wrap(psn - 1)) == k by {
      WrapAdd(c.base + upTo, -1);
      AckedExactly(c.base, q, b, retired, upTo);
    }
    NakRetires(c.sigAll, q, psn);
  }

  lemma {:induction false} ReplyKeepsInv(c: Config, s: Net, j: nat)
    requires Inv(c, s) && Enabled(c, s, DeliverReply(j))
    ensures Inv(c, ApplyReply(c, s, s.rsp.replies[j]))
  {
    var b, reply, n := AllBuilt(c, s), s.rsp.replies[j], s.upTo[j];
    var k := if n > s.retired then n - s.retired else 0;
    if reply.nak {
      NakCovers(c, s.req, b, s.retired, n, k, reply.psn);
      RetireKeeps(c, s, b, Nak(c.sigAll, s.req, reply.psn), k, true);
    } else {
      AckCovers(c, s.req, b, s.retired, n, k, reply.psn);
      RetireKeeps(c, s, b, AckAndRefill(c.sigAll, s.req, reply.psn), k, false);
    }
  }

  // ----- runs

  lemma {:induction false} StepKeepsInv(c: Config, s: Net, e: Event)
    requires Inv(c, s) && Enabled(c, s, e)
    ensures Inv(c, Apply(c, s, e))
  {
    match e
    case PostSend(w, data) => PostKeepsInv(c, s, w, data);
    case PostReceive(wr) =>
    case DeliverPacket(k) => PacketKeepsInv(c, s, k);
    case DeliverReply(j) => ReplyKeepsInv(c, s, j);
  }

  lemma {:induction false} InitInv(c: Config, mem: Mem)
    ensures Inv(c, Init(c, mem))
  {
    StartConsistent(c, mem);
    assert AllBuilt(c, Init(c, mem)) == [];
  }

  lemma {:induction false} StartConsistent(c: Config, mem: Mem)
    ensures Consistent(c, Init(c, mem), []) && ReqInv(Init(c, mem).req)
  {
    WrapAdd(c.base, 0);
    assert Ws([]) == [];
  }

  /** Where a sequence of events leads, if the environment may do them all. */
  function Run(c: Config, s: Net, events: seq<Event>): (r: Option<Net>)
    requires Inv(c, s)
    ensures r.Some? ==> Inv(c, r.value)
    decreases |events|
  {
    if events == [] then Some(s)
    else if !Enabled(c, s, events[0]) then None
    else
      StepKeepsInv(c, s, events[0]);
      Run(c, Apply(c, s, events[0]), events[1..])
  }

  /** s is the state after some run. */
  ghost predicate Reachable(c: Config, s: Net) {
    exists mem: Mem, events: seq<Event> :: ReachedBy(c, s, mem, events)
  }

  ghost predicate ReachedBy(c: Config, s: Net, mem: Mem, events: seq<Event>) {
    InitInv(c, mem);
    Run(c, Init(c, mem), events) == Some(s)
  }

  lemma {:induction false} ReachableInv(c: Config, s: Net)
    requires Reachable(c, s)
    ensures Inv(c, s)
  {
    var mem, events :| ReachedBy(c, s, mem, events);
    InitInv(c, mem);
  }

  /** No false completion: in every run the requests that have completed are the first
      ones posted, in posting order, each raised once, and the receiver has taken every
      packet of every one of them. */
  lemma {:induction false} NoFalseCompletion(c: Config, s: Net)
    requires Reachable(c, s)
    ensures var d := Finished(AllBuilt(c, s), s.retired);
      && d <= |s.msgs|
      && s.req.cq == Completions(c.sigAll, Ws(s.msgs)[..d])
      && Real(s.req.sq) == Ws(s.msgs)[d..]
      && Stream(Cutter(c.mtu), s.msgs[..d], c.base) <= s.taken
  {
    ReachableInv(c, s);
    var b, d := AllBuilt(c, s), Finished(AllBuilt(c, s), s.retired);
    CutterCuts(c.mtu, s.msgs);
    FinishedIsWhole(Cutter(c.mtu), s.msgs, c.base, s.retired);
    WholeFits(Cutter(c.mtu), s.msgs, c.base, s.retired);
    StreamPrefix(Cutter(c.mtu), s.msgs, d, c.base);
  }

  /** Exactly once, in order: in every run the packets that the receiver took are the
      first ones that were built, without a gap and without a repetition. */
  lemma {:induction false} ExactlyOnceInOrder(c: Config, s: Net)
    requires Reachable(c, s)
    ensures s.taken <= Stream(Cutter(c.mtu), s.msgs, c.base)
  {
    ReachableInv(c, s);
  }

  lemma {:induction false} ReachableNumbers(c: Config, s: Net)
    requires Reachable(c, s)
    ensures ReqInv(s.req) && s.req.sqPsn == Wrap(c.base + s.retired)
  {
    ReachableInv(c, s);
  }

  lemma {:induction false} InWindow(q: Req, n: int, i: nat)
    requires ReqInv(q) && q.sqPsn == Wrap(n) && i < |q.queue|
    ensures q.queue[i].psn == Wrap(n + i) && q.reqPsn == Wrap(n + |q.queue|)
    ensures i < q.out ==> Compare(q.sqPsn + MAX_OUTGOING, q.queue[i].psn) == 256 * (MAX_OUTGOING - i)
    ensures if i < q.out then i <= MAX_OUTGOING else q.out == MAX_OUTGOING + 1
  {
    ShapeAt(q.queue, q.sqPsn, i);
    WrapAdd(n, i);
    WrapAdd(n, |q.queue|);
    if i < q.out {
      LimitTest(q.sqPsn, i);
    }
  }

  /** Numbers and window: in every run the queued packets carry consecutive numbers from
      sq_psn up to the one before req.psn, those that are out lie in [sq_psn, sq_psn + 8],
      and a packet waits only while nine are out. */
  lemma {:induction false} WindowInEveryRun(c: Config, s: Net, i: nat)
    requires Reachable(c, s) && i < |s.req.queue|
    ensures var q, n := s.req, c.base + s.retired;
      && q.sqPsn == Wrap(n) && q.queue[i].psn == Wrap(n + i) && q.reqPsn == Wrap(n + |q.queue|)
      && (i < q.out ==> Compare(q.sqPsn + MAX_OUTGOING, q.queue[i].psn) == 256 * (MAX_OUTGOING - i))
      && (if i < q.out then i <= MAX_OUTGOING else q.out == MAX_OUTGOING + 1)
  {
    var q, n := s.req, c.base + s.retired;
    assert ReqInv(q) && q.sqPsn == Wrap(n) by { ReachableNumbers(c, s); }
    InWindow(q, n, i);
  }

  /** The two queues of the sender stay in step: the request popped for a packet is the
      one the packet names. */
  lemma {:induction false} QueuesAgreeInEveryRun(c: Config, s: Net)
    requires Reachable(c, s)
    ensures Ptrs(Real(s.req.sq)) == Owners(s.req.queue)
    ensures s.req.sq != [] ==> !Skippable(s.req.sq[0])
  {
    ReachableInv(c, s);
  }
}
