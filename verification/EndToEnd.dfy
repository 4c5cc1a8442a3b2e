/**
 The two ends put together: when the sender reports a request as done, its data is
 where it belongs and the receiver has been told so.
 */
module EndToEnd {
  import opened Psn
  import opened Types
  import opened Scatter
  import opened Requester
  import opened Segment
  import opened Responder
  import opened Delivery
  import opened Streams
  import opened Protocol
  import opened Safety
  import opened Integrity

  // ----- what every event keeps

  predicate Tracks(c: Config, mem: Mem, s: Net, left: seq<Pkt>, psn: int, p: Place) {
    AllBuilt(c, s) == s.taken + left && AtPlace(c, mem, s, left, psn, p)
  }

  lemma {:induction false} PacketEvent(c: Config, mem: Mem, s: Net, left: seq<Pkt>, psn: int, k: nat, p: Place)
    returns (left': seq<Pkt>, psn': int, q: Place)
    requires Inv(c, s) && Tracks(c, mem, s, left, psn, p)
    requires Enabled(c, s, DeliverPacket(k)) && Suits(c, s, DeliverPacket(k))
    ensures Tracks(c, mem, ApplyPacket(c, s, s.req.wire[k]), left', psn', q)
  {
    AllShape(c, s);
    ExpectedIsLeft(c, s, AllBuilt(c, s), left, k);
    left', psn', q := PacketMoves(c, mem, s, left, psn, s.req.wire[k], p);
  }

  lemma {:induction false} EventMoves(c: Config, mem: Mem, s: Net, e: Event, left: seq<Pkt>, psn: int, p: Place)
    returns (left': seq<Pkt>, psn': int, q: Place)
    requires Inv(c, s) && Tracks(c, mem, s, left, psn, p) && Enabled(c, s, e) && Suits(c, s, e)
    ensures Tracks(c, mem, Apply(c, s, e), left', psn', q)
  {
    left', psn', q := left, psn, p;
    match e
    case PostSend(w, data) => left' := PostEvent(c, mem, s, left, psn, w, data, p);
    case PostReceive(wr) => RecvEvent(c, mem, s, left, psn, wr, p);
    case DeliverPacket(k) => left', psn', q := PacketEvent(c, mem, s, left, psn, k, p);
    case DeliverReply(j) =>
  }

  /** Every event of a run is one that may happen and suits the state it happens in. */
  predicate AllSuit(c: Config, s: Net, events: seq<Event>)
    requires Inv(c, s)
    decreases |events|
  {
    events != [] ==>
      && Enabled(c, s, events[0]) && Suits(c, s, events[0])
      && (StepKeepsInv(c, s, events[0]); AllSuit(c, Apply(c, s, events[0]), events[1..]))
  }

  lemma {:induction false} RunMoves(c: Config, mem: Mem, s: Net, events: seq<Event>, left: seq<Pkt>, psn: int, p: Place)
    returns (left': seq<Pkt>, psn': int, q: Place)
    requires Inv(c, s) && AllSuit(c, s, events) && Tracks(c, mem, s, left, psn, p)
    ensures Run(c, s, events).Some? && Tracks(c, mem, Run(c, s, events).value, left', psn', q)
    decreases |events|
  {
    left', psn', q := left, psn, p;
    if events != [] {
      left', psn', q := EventMoves(c, mem, s, events[0], left, psn, p);
      StepKeepsInv(c, s, events[0]);
      left', psn', q := RunMoves(c, mem, Apply(c, s, events[0]), events[1..], left', psn', q);
    }
  }

  lemma {:induction false} StartTracks(c: Config, mem: Mem)
    requires c.mtu <= c.env.pageSize
    ensures Tracks(c, mem, Init(c, mem), [], c.base, Place(0, 0))
  {
  }

  // ----- how far the receiver is

  lemma {:induction false} FragmentsSize(w: SendWr, data: seq<byte>, total: nat, mtu: pos, n: int, m: int, first: bool)
    requires IsSend(w.op) || IsWrite(w.op)
    ensures |Fragments(w, data, total, mtu, n, first)| == |Fragments(w, data, total, mtu, m, first)|
    decreases |data|
  {
    if |data| > mtu {
      FragmentsSize(w, data[mtu..], total, mtu, n + 1, m + 1, false);
    }
  }

  lemma {:induction false} CutterSize(mtu: pos, x: Msg, n: int, m: int)
    ensures |Cutter(mtu)(x, n)| == |Cutter(mtu)(x, m)|
  {
    if !Skippable(x.w) && !Silent(x.w) {
      FragmentsSize(x.w, x.data, |x.data|, mtu, n, m, true);
    }
  }

  lemma {:induction false} StreamSize(mtu: pos, msgs: seq<Msg>, n: int, m: int)
    ensures |Stream(Cutter(mtu), msgs, n)| == |Stream(Cutter(mtu), msgs, m)|
  {
    if msgs != [] {
      CutterSize(mtu, msgs[0], n, m);
      StreamSize(mtu, msgs[1..], n + |Cutter(mtu)(msgs[0], n)|, m + |Cutter(mtu)(msgs[0], m)|);
    }
  }

  lemma {:induction false} RestSize(m: Msg, n: nat, mtu: pos, psn: int)
    requires Delivered(m.w) && n <= |m.data|
    ensures |Rest(m, n, mtu, psn)| > 0
  {
  }

  lemma {:induction false} FrontSize(mtu: pos, msgs: seq<Msg>, base: int, i: nat)
    requires i <= |msgs|
    ensures |Stream(Cutter(mtu), msgs, base)|
         == |Stream(Cutter(mtu), msgs[..i], base)| + |Stream(Cutter(mtu), msgs[i..], 0)|
  {
    assert msgs == msgs[..i] + msgs[i..];
    StreamConcat(Cutter(mtu), msgs[..i], msgs[i..], base);
    StreamSize(mtu, msgs[i..], base + |Stream(Cutter(mtu), msgs[..i], base)|, 0);
  }

  lemma {:induction false} LeftSize(mtu: pos, msgs: seq<Msg>, p: Place, psn: int)
    requires p.i < |msgs| && Delivered(msgs[p.i].w) && p.n <= |msgs[p.i].data|
    ensures |LeftOver(mtu, msgs, p.i, p.n, psn)| > |Stream(Cutter(mtu), msgs[p.i + 1..], 0)|
  {
    RestSize(msgs[p.i], p.n, mtu, psn);
    StreamSize(mtu, msgs[p.i + 1..], psn + |Rest(msgs[p.i], p.n, mtu, psn)|, 0);
  }

  /** A packet of the message in progress is still missing. */
  lemma {:induction false} StillMissing(mtu: pos, base: int, msgs: seq<Msg>, taken: seq<Pkt>, left: seq<Pkt>, psn: int,
          p: Place)
    requires p.i < |msgs| && Delivered(msgs[p.i].w) && p.n <= |msgs[p.i].data|
    requires Stream(Cutter(mtu), msgs, base) == taken + left && left == LeftOver(mtu, msgs, p.i, p.n, psn)
    ensures |taken| < |Stream(Cutter(mtu), msgs[..p.i + 1], base)|
  {
    FrontSize(mtu, msgs, base, p.i + 1);
    LeftSize(mtu, msgs, p, psn);
  }

  lemma {:induction false} PrefixGrows(mtu: pos, msgs: seq<Msg>, base: int, i: nat, d: nat)
    requires i <= d <= |msgs|
    ensures |Stream(Cutter(mtu), msgs[..i], base)| <= |Stream(Cutter(mtu), msgs[..d], base)|
  {
    assert msgs[..d][..i] == msgs[..i];
    StreamPrefix(Cutter(mtu), msgs[..d], i, base);
  }

  lemma {:induction false} CompletedAreWhole(c: Config, mem: Mem, s: Net, left: seq<Pkt>, psn: int, p: Place)
    requires Inv(c, s) && Tracks(c, mem, s, left, psn, p)
    ensures Finished(AllBuilt(c, s), s.retired) <= p.i
  {
    var b, d := AllBuilt(c, s), Finished(AllBuilt(c, s), s.retired);
    CutterCuts(c.mtu, s.msgs);
    FinishedIsWhole(Cutter(c.mtu), s.msgs, c.base, s.retired);
    WholeFits(Cutter(c.mtu), s.msgs, c.base, s.retired);
    if d > p.i {
      LaterMissing(c.mtu, c.base, s.msgs, s.taken, left, psn, p, d);
    }
  }

  lemma {:induction false} LaterMissing(mtu: pos, base: int, msgs: seq<Msg>, taken: seq<Pkt>, left: seq<Pkt>, psn: int,
          p: Place, d: nat)
    requires p.i < d <= |msgs| && Delivered(msgs[p.i].w) && p.n <= |msgs[p.i].data|
    requires Stream(Cutter(mtu), msgs, base) == taken + left && left == LeftOver(mtu, msgs, p.i, p.n, psn)
    ensures |taken| < |Stream(Cutter(mtu), msgs[..d], base)|
  {
    StillMissing(mtu, base, msgs, taken, left, psn, p);
    PrefixGrows(mtu, msgs, base, p.i + 1, d);
  }

  // ----- what the receiver has

  /** The target of message k has no address twice, and no later message is written there,
      nor the beginning of one. */
  predicate Alone(env: Env, msgs: seq<Msg>, recvs: seq<RecvWr>, k: nat)
    requires AllFit(env, msgs, recvs) && k < |msgs| && k < |recvs|
  {
    var t := Target(env, msgs[k], recvs[k]);
    && Distinct(t)
    && (forall j :: k < j < |msgs| && j < |recvs| ==> Disjoint(Target(env, msgs[j], recvs[j]), t))
    && (forall j :: k < j < |msgs| && RemoteReady(env, msgs[j]) ==> Disjoint(RemoteTarget(env, msgs[j]), t))
  }

  lemma {:induction false} MemHas(env: Env, mem: Mem, msgs: seq<Msg>, recvs: seq<RecvWr>, i: nat)
    requires 0 < i <= |msgs| && i <= |recvs|
    requires Fits(env, msgs[i - 1], recvs[i - 1]) && Distinct(Target(env, msgs[i - 1], recvs[i - 1]))
    ensures Read(MemAfter(env, mem, msgs, recvs, i), Target(env, msgs[i - 1], recvs[i - 1])) == msgs[i - 1].data
  {
    ReadBack(MemAfter(env, mem, msgs, recvs, i - 1), Target(env, msgs[i - 1], recvs[i - 1]), msgs[i - 1].data);
  }

  lemma {:induction false} MemStep(env: Env, mem: Mem, msgs: seq<Msg>, recvs: seq<RecvWr>, i: nat, t: seq<nat>,
          data: seq<byte>)
    requires 0 < i <= |msgs| && i <= |recvs|
    requires Fits(env, msgs[i - 1], recvs[i - 1]) && Disjoint(Target(env, msgs[i - 1], recvs[i - 1]), t)
    requires Read(MemAfter(env, mem, msgs, recvs, i - 1), t) == data
    ensures Read(MemAfter(env, mem, msgs, recvs, i), t) == data
  {
    ReadUntouched(MemAfter(env, mem, msgs, recvs, i - 1), Target(env, msgs[i - 1], recvs[i - 1]), msgs[i - 1].data, t);
  }

  /** No message after message k is written to t. */
  predicate ApartFrom(env: Env, msgs: seq<Msg>, recvs: seq<RecvWr>, k: nat, t: seq<nat>) {
    forall j :: k < j < |msgs| && j < |recvs| ==>
      Fits(env, msgs[j], recvs[j]) && Disjoint(Target(env, msgs[j], recvs[j]), t)
  }

  lemma {:induction false} MemKeeps(env: Env, mem: Mem, msgs: seq<Msg>, recvs: seq<RecvWr>, k: nat, i: nat, t: seq<nat>,
          data: seq<byte>)
    requires k < i <= |msgs| && i <= |recvs| && ApartFrom(env, msgs, recvs, k, t)
    requires Read(MemAfter(env, mem, msgs, recvs, k + 1), t) == data
    ensures Read(MemAfter(env, mem, msgs, recvs, i), t) == data
    decreases i
  {
    if i > k + 1 {
      MemKeeps(env, mem, msgs, recvs, k, i - 1, t, data);
      MemStep(env, mem, msgs, recvs, i, t, data);
    }
  }

  /** A message in progress does not touch the target either. */
  lemma {:induction false} PartialKeeps(env: Env, d: Data, m: Msg, n: nat, t: seq<nat>)
    requires d.rq != [] && Fits(env, m, d.rq[0]) ==> Disjoint(Target(env, m, d.rq[0]), t)
    requires RemoteReady(env, m) ==> Disjoint(RemoteTarget(env, m), t)
    ensures Read(Partial(env, d, m, n).mem, t) == Read(d.mem, t)
    ensures Partial(env, d, m, n).cq == d.cq
  {
    if n > 0 && n <= |m.data| && CanBegin(env, d, m) {
      var u := if m.w.op.WrWriteWithImm? then RemoteTarget(env, m) else Target(env, m, d.rq[0]);
      assert Disjoint(u[..n], t);
      ReadUntouched(d.mem, u[..n], m.data[..n], t);
    }
  }

  lemma {:induction false} CqOf(msgs: seq<Msg>, recvs: seq<RecvWr>, i: nat, k: nat)
    requires k < i <= |msgs| && i <= |recvs|
    ensures |CqAfter(msgs, recvs, i - 1)| == i - 1 && |CqAfter(msgs, recvs, i)| == i
    ensures CqAfter(msgs, recvs, i)[k] == RecvWcOf(msgs[k], recvs[k])
    decreases i
  {
    if i > 1 {
      CqOf(msgs, recvs, i - 1, if k < i - 1 then k else 0);
    }
  }

  /** What the receiver has of a message when it has reached a later place. */
  lemma {:induction false} ArrivedCq(c: Config, mem: Mem, msgs: seq<Msg>, recvs: seq<RecvWr>, p: Place, k: nat)
    requires InMessage(msgs, recvs, p) && k < p.i
    ensures var d := DataAt(c, mem, msgs, recvs, p);
      k < |d.cq| && d.cq[k] == RecvWcOf(msgs[k], recvs[k])
  {
    CqOf(msgs, recvs, p.i, k);
    if p.i < |msgs| {
      PartialKeeps(c.env, Settled(c.env, mem, msgs, recvs, p.i), msgs[p.i], p.n, []);
    }
  }

  lemma {:induction false} ArrivedMem(c: Config, mem: Mem, msgs: seq<Msg>, recvs: seq<RecvWr>, p: Place, k: nat,
          t: seq<nat>)
    requires AllFit(c.env, msgs, recvs) && InMessage(msgs, recvs, p) && k < p.i && Alone(c.env, msgs, recvs, k)
    requires t == Target(c.env, msgs[k], recvs[k])
    ensures Read(DataAt(c, mem, msgs, recvs, p).mem, t) == msgs[k].data
  {
    MemHas(c.env, mem, msgs, recvs, k + 1);
    MemKeeps(c.env, mem, msgs, recvs, k, p.i, t, msgs[k].data);
    if p.i < |msgs| {
      PartialKeeps(c.env, Settled(c.env, mem, msgs, recvs, p.i), msgs[p.i], p.n, t);
    }
  }

  /** s is where the events lead from the start; a packet is no longer than a page. */
  ghost predicate Leads(c: Config, mem: Mem, events: seq<Event>, s: Net) {
    InitInv(c, mem);
    c.mtu <= c.env.pageSize && AllSuit(c, Init(c, mem), events) && Run(c, Init(c, mem), events) == Some(s)
  }

  lemma {:induction false} LeadsSomewhere(c: Config, mem: Mem, events: seq<Event>, s: Net)
    returns (left: seq<Pkt>, psn: int, p: Place)
    requires Leads(c, mem, events, s)
    ensures Inv(c, s) && Tracks(c, mem, s, left, psn, p)
  {
    InitInv(c, mem);
    StartTracks(c, mem);
    left, psn, p := RunMoves(c, mem, Init(c, mem), events, [], c.base, Place(0, 0));
  }

  /** Completion means delivery.  Over any channel that drops, repeats and reorders, when
      request k has completed at the sender, the receiver has raised the completion that
      belongs to it, with its length and immediate; and the memory it was sent to holds
      exactly its bytes, if nothing that came later was sent there. */
  lemma {:induction false} CompletionMeansDelivery(c: Config, mem: Mem, events: seq<Event>, s: Net, k: nat)
    requires Leads(c, mem, events, s) && k < Finished(AllBuilt(c, s), s.retired)
    ensures AllFit(c.env, s.msgs, s.recvs) && k < |s.msgs| && k < |s.recvs|
    ensures k < |s.rsp.data.cq| && s.rsp.data.cq[k] == RecvWcOf(s.msgs[k], s.recvs[k])
    ensures Alone(c.env, s.msgs, s.recvs, k) ==>
      Read(s.rsp.data.mem, Target(c.env, s.msgs[k], s.recvs[k])) == s.msgs[k].data
  {
    var left, psn, p := LeadsSomewhere(c, mem, events, s);
    CompletedAreWhole(c, mem, s, left, psn, p);
    ArrivedCq(c, mem, s.msgs, s.recvs, p, k);
    if Alone(c.env, s.msgs, s.recvs, k) {
      ArrivedMem(c, mem, s.msgs, s.recvs, p, k, Target(c.env, s.msgs[k], s.recvs[k]));
    }
  }
}
