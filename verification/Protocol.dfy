/**
 The two ends of a connection and a network that may drop, repeat and reorder
 what it is given.

 Packets and acknowledgements are identified here by unbounded numbers: the i-th
 packet ever built has number i, and carries base + i modulo 2^24.  Nothing that
 was handed to the network is ever taken away from it, so any packet or reply
 can arrive at any time, any number of times, or never.
 */
module Protocol {
  import opened Psn
  import opened Types
  import opened Requester
  import opened Segment
  import opened Scatter
  import opened Responder
  import opened Delivery
  import opened Streams

  type pos = x: nat | 0 < x witness 1

  /** base is the number that both ends were set to. */
  datatype Config = Config(sigAll: bool, mtu: pos, base: psn24, env: Env)

  /** msgs are the posted requests that are answered by packets, retired counts the
      packets the sender has retired, and taken are those the receiver took.  sent[k] is
      the number of the k-th packet on the wire, upTo[j] the number of packets that the
      j-th reply acknowledges.  recvs are the receive requests that were posted. */
  datatype Net = Net(
    req: Req,
    rsp: Rsp,
    msgs: seq<Msg>,
    retired: nat,
    taken: seq<Pkt>,
    sent: seq<nat>,
    upTo: seq<nat>,
    recvs: seq<RecvWr>)

  function Init(c: Config, mem: Mem): Net {
    Net(Req([], [], 0, c.base, c.base, [], []), Rsp(c.base, false, Data(Idle, [], mem, []), []), [], 0, [], [], [], [])
  }

  // ----- everything that was built

  function Cutter(mtu: pos): (Msg, int) -> seq<Pkt> {
    (m: Msg, n: int) => Packets(m.w, m.data, mtu, n)
  }

  function AllBuilt(c: Config, s: Net): seq<Pkt> { Stream(Cutter(c.mtu), s.msgs, c.base) }

  predicate Answered(m: Msg) { !Skippable(m.w) && !Silent(m.w) }

  predicate AllAnswered(msgs: seq<Msg>) {
    forall i :: 0 <= i < |msgs| ==> Answered(msgs[i])
  }

  function Ws(msgs: seq<Msg>): (r: seq<SendWr>)
    ensures |r| == |msgs|
  {
    seq(|msgs|, i requires 0 <= i < |msgs| => msgs[i].w)
  }

  /** How many requests the first n packets of a stream finish. */
  function Finished(stream: seq<Pkt>, n: nat): nat {
    if n <= |stream| then |Owners(stream[..n])| else 0
  }

  // ----- steps

  /** w is posted; data is what its buffers hold. */
  datatype Event =
    | PostSend(w: SendWr, data: seq<byte>)
    | PostReceive(wr: RecvWr)
    | DeliverPacket(k: nat)
    | DeliverReply(j: nat)

  function Span(a: int, b: int): seq<nat> {
    if 0 <= a <= b then seq(b - a, i requires 0 <= i < b - a => a + i) else []
  }

  predicate Takes(env: Env, r: Rsp, pkt: Pkt) {
    Judge(r.rqPsn, pkt.psn) == Expected && Receive(env, r.data, pkt).Took?
  }

  /** What the environment may do next.  Requests that build no packet although they wait
      for one are not posted; fewer than 2^23 packets are queued; and what arrives is not
      older than the space of numbers: less than 2^24 behind the next packet that the
      receiver expects, or less than 2^24 behind the next one that will be built. */
  predicate Enabled(c: Config, s: Net, e: Event) {
    match e
    case PostSend(w, data) =>
      && (Silent(w) ==> Skippable(w))
      && |s.req.queue| + |Packets(w, data, c.mtu, s.req.reqPsn)| < HALF_SPACE
    case PostReceive(_) => true
    case DeliverPacket(k) => k < |s.req.wire| && k < |s.sent| && |s.taken| - s.sent[k] < PSN_SPACE
    case DeliverReply(j) =>
      j < |s.rsp.replies| && j < |s.upTo| && s.retired + |s.req.queue| + 1 - s.upTo[j] < PSN_SPACE
  }

  function AfterPost(s: Net, r: Req, w: SendWr, data: seq<byte>): Net {
    s.(req := r,
       msgs := s.msgs + if Skippable(w) then [] else [Msg(w, data)],
       sent := s.sent + Span(s.retired + s.req.out, s.retired + r.out))
  }

  function ApplyPost(c: Config, s: Net, w: SendWr, data: seq<byte>): Net
    requires s.req.out <= |s.req.queue|
  {
    AfterPost(s, Post(s.req, w, Packets(w, data, c.mtu, s.req.reqPsn)), w, data)
  }

  function AfterPacket(s: Net, r: Rsp, took: bool, pkt: Pkt): Net {
    var taken := s.taken + if took then [pkt] else [];
    s.(rsp := r, taken := taken,
       upTo := s.upTo + if |r.replies| > |s.rsp.replies| then [|taken|] else [])
  }

  function ApplyPacket(c: Config, s: Net, pkt: Pkt): Net {
    AfterPacket(s, RecvRc(c.env, s.rsp, pkt), Takes(c.env, s.rsp, pkt), pkt)
  }

  function AfterReply(s: Net, r: Req, nak: bool): Net {
    var retired := s.retired + Less(|s.req.queue|, |r.queue|);
    s.(req := r, retired := retired,
       sent := s.sent + Span(if nak then retired else s.retired + s.req.out, retired + r.out))
  }

  function ApplyReply(c: Config, s: Net, reply: Reply): Net
    requires s.req.out <= |s.req.queue|
  {
    AfterReply(s, if reply.nak then Nak(c.sigAll, s.req, reply.psn) else AckAndRefill(c.sigAll, s.req, reply.psn),
               reply.nak)
  }

  function Apply(c: Config, s: Net, e: Event): Net
    requires s.req.out <= |s.req.queue| && Enabled(c, s, e)
  {
    match e
    case PostSend(w, data) => ApplyPost(c, s, w, data)
    case PostReceive(wr) => s.(rsp := PostRecv(s.rsp, wr), recvs := s.recvs + [wr])
    case DeliverPacket(k) => ApplyPacket(c, s, s.req.wire[k])
    case DeliverReply(j) => ApplyReply(c, s, s.rsp.replies[j])
  }

  // ----- the invariant

  /** The send queue holds exactly the built packets that are not retired. */
  predicate SendOk(base: int, q: Req, b: seq<Pkt>, retired: nat) {
    && retired <= |b| && q.queue == b[retired..] && q.sqPsn == Wrap(base + retired)
    && q.out <= |q.queue| < HALF_SPACE
  }

  /** Exactly the requests finished by the retired packets have completed. */
  predicate DoneOk(sigAll: bool, q: Req, ws: seq<SendWr>, done: nat) {
    done <= |ws| && Real(q.sq) == ws[done..] && q.cq == Completions(sigAll, ws[..done])
  }

  /** The packets taken are the first ones built. */
  predicate RecvOk(base: int, r: Rsp, taken: seq<Pkt>, b: seq<Pkt>) {
    taken <= b && r.rqPsn == Wrap(base + |taken|)
  }

  predicate SentOk(wire: seq<Pkt>, sent: seq<nat>, b: seq<Pkt>, limit: int) {
    && |sent| == |wire| && limit <= |b|
    && forall k :: 0 <= k < |sent| ==> sent[k] < limit && wire[k] == b[sent[k]]
  }

  function ReplyPsn(base: int, upTo: int, nak: bool): psn24 {
    Wrap(if nak then base + upTo else base + (upTo - 1))
  }

  predicate RepliesOk(base: int, replies: seq<Reply>, upTo: seq<nat>, taken: nat) {
    && |upTo| == |replies|
    && forall j :: 0 <= j < |upTo| ==> upTo[j] <= taken && replies[j].psn == ReplyPsn(base, upTo[j], replies[j].nak)
  }

  /** b is everything that was built. */
  predicate Consistent(c: Config, s: Net, b: seq<Pkt>) {
    && SendOk(c.base, s.req, b, s.retired)
    && DoneOk(c.sigAll, s.req, Ws(s.msgs), Finished(b, s.retired))
    && RecvOk(c.base, s.rsp, s.taken, b)
    && s.retired <= |s.taken| <= s.retired + s.req.out
    && SentOk(s.req.wire, s.sent, b, s.retired + s.req.out)
    && RepliesOk(c.base, s.rsp.replies, s.upTo, |s.taken|)
  }

  predicate Inv(c: Config, s: Net) {
    AllAnswered(s.msgs) && ReqInv(s.req) && Consistent(c, s, AllBuilt(c, s))
  }

  // ----- the stream of packets

  lemma {:induction false} PacketsMod(w: SendWr, data: seq<byte>, mtu: pos, n: int, m: int)
    requires Wrap(n) == Wrap(m)
    ensures Packets(w, data, mtu, n) == Packets(w, data, mtu, m)
  {
    if !Skippable(w) && !Silent(w) {
      FragmentsMod(w, data, |data|, mtu, n, m, true);
    }
  }

  /** Only the last packet of a message finishes a request. */
  lemma {:induction false} FragmentsOwners(w: SendWr, data: seq<byte>, total: nat, mtu: pos, psn: int, first: bool,
          k: nat)
    requires IsSend(w.op) || IsWrite(w.op)
    requires k <= |Fragments(w, data, total, mtu, psn, first)|
    ensures var f := Fragments(w, data, total, mtu, psn, first);
      |Owners(f[..k])| == if k == |f| then 1 else 0
    decreases |data|
  {
    var f := Fragments(w, data, total, mtu, psn, first);
    if k == 0 {
    } else if |data| <= mtu {
      assert f[..k] == f && f[1..] == [];
    } else {
      var g := Fragments(w, data[mtu..], total, mtu, psn + 1, false);
      FragmentsOwners(w, data[mtu..], total, mtu, psn + 1, false, k - 1);
      assert f[..k][1..] == g[..k - 1];
    }
  }

  /** Every cut of a message in msgs finishes one request, with its last packet, and
      carries the numbers asked for. */
  ghost predicate Cuts(cut: (Msg, int) -> seq<Pkt>, msgs: seq<Msg>) {
    forall i, n: int :: 0 <= i < |msgs| ==> CutsOne(cut, msgs[i], n)
  }

  ghost predicate CutsOne(cut: (Msg, int) -> seq<Pkt>, m: Msg, n: int) {
    var p := cut(m, n);
    && Shape(p, n)
    && (forall k: nat :: k <= |p| ==> |Owners(p[..k])| == if k == |p| then 1 else 0)
  }

  lemma {:induction false} CutterCuts(mtu: pos, msgs: seq<Msg>)
    requires AllAnswered(msgs)
    ensures Cuts(Cutter(mtu), msgs)
  {
    forall i, n: int | 0 <= i < |msgs|
      ensures CutsOne(Cutter(mtu), msgs[i], n)
    {
      CutterCutsOne(mtu, msgs[i], n);
    }
  }

  lemma {:induction false} CutterCutsOne(mtu: pos, m: Msg, n: int)
    requires Answered(m)
    ensures CutsOne(Cutter(mtu), m, n)
  {
    var p := Packets(m.w, m.data, mtu, n);
    PacketsShape(m.w, m.data, mtu, n);
    forall k: nat | k <= |p|
      ensures |Owners(p[..k])| == if k == |p| then 1 else 0
    {
      FragmentsOwners(m.w, m.data, |m.data|, mtu, n, true, k);
    }
  }

  lemma {:induction false} StreamShape(cut: (Msg, int) -> seq<Pkt>, msgs: seq<Msg>, n: int)
    requires Cuts(cut, msgs)
    ensures Shape(Stream(cut, msgs, n), n)
  {
    if msgs != [] {
      var p := cut(msgs[0], n);
      assert CutsOne(cut, msgs[0], n);
      StreamShape(cut, msgs[1..], n + |p|);
      ShapeConcat(p, n, Stream(cut, msgs[1..], n + |p|));
    }
  }

  /** The first k packets of a stream finish exactly the whole messages among them. */
  lemma {:induction false} FinishedIsWhole(cut: (Msg, int) -> seq<Pkt>, msgs: seq<Msg>, n: int, k: nat)
    requires Cuts(cut, msgs) && k <= |Stream(cut, msgs, n)|
    ensures Finished(Stream(cut, msgs, n), k) == Whole(cut, msgs, n, k)
  {
    if msgs != [] {
      assert CutsOne(cut, msgs[0], n);
      var p := cut(msgs[0], n);
      var t := Stream(cut, msgs[1..], n + |p|);
      TakeAcross(p, t, k);
      if k >= |p| {
        OwnersConcat(p[..|p|], t[..k - |p|]);
        FinishedIsWhole(cut, msgs[1..], n + |p|, k - |p|);
      }
    }
  }
}
