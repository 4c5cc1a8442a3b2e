/**
 The two ends joined by frames: in every run both read nothing but bytes, of frames that
 carry what the other end sent, altered on the way under the masks, dropped, repeated and
 reordered.  What holds of runs of packets holds of these.
 */
module FrameRuns {
  import opened Psn
  import opened Types
  import opened Scatter
  import opened Requester
  import opened Segment
  import opened Responder
  import opened Delivery
  import opened Streams
  import opened Protocol
  import opened Safety
  import opened Integrity
  import opened EndToEnd
  import opened Headers
  import opened Wire
  import opened PacketForm
  import opened OverTheWire

  /** The ports of the receiving and of the sending queue pair. */
  datatype Ports = Ports(receiver: Port, sender: Port)

  /** What the two ends know. */
  datatype Ends = Ends(req: Req, rsp: Rsp)

  function EndsOf(s: Net): Ends { Ends(s.req, s.rsp) }

  // ----- replies on the wire

  function HandleReply(sigAll: bool, q: Req, reply: Reply): Req
    requires q.out <= |q.queue|
  {
    if reply.nak then Nak(sigAll, q, reply.psn) else AckAndRefill(sigAll, q, reply.psn)
  }

  /** A frame arrives for the queue pair that sends requests. */
  function ReplyArrives(sigAll: bool, port: Port, q: Req, frame: seq<byte>): Option<Req>
    requires q.out <= |q.queue|
  {
    match Decap(port.vnet, port.mac, frame)
    case Dropped => Some(q)
    case Overrun => None
    case Taken(f, body) =>
      if |f.bth| != BTH_SIZE then Some(q)
      else match UnpackReply(f.bth, body)
        case None => Some(q)
        case Some((qpn, reply)) => Some(if qpn == port.qpn then HandleReply(sigAll, q, reply) else q)
  }

  /** A frame, how it travelled, and the credits or code and the message count of a reply. */
  datatype Carriage = Carriage(j: Journey, val: nat, msn: nat, frame: seq<byte>)

  predicate CarriesReply(port: Port, reply: Reply, w: Carriage) {
    && PathOk(w.j.path) && |w.j.smac| == 6 && |port.mac| == 6 && w.val < 32
    && |w.j.sent.vnet| == port.vnet
    && var v4, bth, body := w.j.path.Ip4?, EncodeBth(ReplyBth(reply.psn, port.qpn)), ReplyBody(reply.nak, w.val, w.msn);
    && w.j.sent == HeadOf(w.j.sent.vnet, port.mac, w.j.smac, w.j.path, bth, body)
    && SameUnmasked(v4, w.j.sent, w.j.arrived)
    && w.frame == Bytes(v4, w.j.arrived, body, Icrc(v4, w.j.sent.ip, [], w.j.sent.udp, bth, body))
  }

  /** A reply's frame does what the reply does. */
  lemma {:induction false} ReplyDelivers(sigAll: bool, port: Port, q: Req, reply: Reply, w: Carriage)
    requires CarriesReply(port, reply, w) && q.out <= |q.queue|
    ensures ReplyArrives(sigAll, port, q, w.frame) == Some(HandleReply(sigAll, q, reply))
  {
    ReplyRoundTrip(reply, port.qpn, w.val, w.msn, w.j.smac, w.j.path, w.j.sent, w.j.arrived);
  }

  /** A frame that is not taken, or not for this queue pair, changes nothing. */
  lemma {:induction false} OtherRepliesChangeNothing(sigAll: bool, port: Port, q: Req, frame: seq<byte>)
    requires q.out <= |q.queue|
    requires var d := Decap(port.vnet, port.mac, frame);
      !d.Overrun? && (d.Taken? && |d.frame.bth| == BTH_SIZE ==> DecodeBth(d.frame.bth).destqp != port.qpn)
    ensures ReplyArrives(sigAll, port, q, frame) == Some(q)
  {
  }

  // ----- everything that is sent fits a frame

  /** Addresses are 64-bit and lengths 32-bit numbers. */
  predicate InRange(m: Msg) {
    Delivered(m.w) && m.w.remoteAddr < Power(8) && |m.data| < WORD
  }

  predicate AllInRange(msgs: seq<Msg>) {
    forall i :: 0 <= i < |msgs| ==> InRange(msgs[i])
  }

  lemma {:induction false} StreamSendable(mtu: pos, msgs: seq<Msg>, n: int)
    requires AllInRange(msgs) && mtu <= 4096
    ensures AllSendable(Stream(Cutter(mtu), msgs, n))
  {
    if msgs != [] {
      PacketsSendable(msgs[0].w, msgs[0].data, mtu, n);
      StreamSendable(mtu, msgs[1..], n + |Cutter(mtu)(msgs[0], n)|);
    }
  }

  lemma {:induction false} SentSendable(c: Config, s: Net, k: nat)
    requires Inv(c, s) && AllInRange(s.msgs) && c.mtu <= 4096
    requires k < |s.req.wire| && k < |s.sent|
    ensures Sendable(s.req.wire[k])
  {
    StreamSendable(c.mtu, s.msgs, c.base);
    assert s.req.wire[k] == AllBuilt(c, s)[s.sent[k]];
  }

  // ----- steps of the two ends

  /** What an event does to the two ends; of a delivery they see the frame only. */
  function EndStep(c: Config, ports: Ports, x: Ends, e: Event, frame: seq<byte>): Option<Ends>
    requires x.req.out <= |x.req.queue|
  {
    match e
    case PostSend(w, data) => Some(x.(req := Post(x.req, w, Packets(w, data, c.mtu, x.req.reqPsn))))
    case PostReceive(wr) => Some(x.(rsp := PostRecv(x.rsp, wr)))
    case DeliverPacket(_) =>
      (match FrameArrives(c.env, ports.receiver, x.rsp, frame)
       case None => None
       case Some(rsp) => Some(x.(rsp := rsp)))
    case DeliverReply(_) =>
      match ReplyArrives(c.sigAll, ports.sender, x.req, frame)
      case None => None
      case Some(req) => Some(x.(req := req))
  }

  /** The frame carries the packet or reply that the event delivers. */
  predicate Carried(s: Net, ports: Ports, e: Event, w: Carriage) {
    match e
    case DeliverPacket(k) => k < |s.req.wire| && Carries(ports.receiver, s.req.wire[k], w.j, w.frame)
    case DeliverReply(j) => j < |s.rsp.replies| && CarriesReply(ports.sender, s.rsp.replies[j], w)
    case _ => true
  }

  predicate PostsInRange(e: Event) {
    e.PostSend? && !Skippable(e.w) ==> InRange(Msg(e.w, e.data))
  }

  lemma {:induction false} PacketEnds(c: Config, ports: Ports, s: Net, k: nat, w: Carriage)
    requires Inv(c, s) && AllInRange(s.msgs) && c.mtu <= 4096
    requires Enabled(c, s, DeliverPacket(k)) && Carried(s, ports, DeliverPacket(k), w)
    ensures FrameArrives(c.env, ports.receiver, s.rsp, w.frame) == Some(RecvRc(c.env, s.rsp, s.req.wire[k]))
  {
    SentSendable(c, s, k);
    FrameDelivers(c.env, ports.receiver, s.rsp, s.req.wire[k], w.j, w.frame);
  }

  lemma {:induction false} ReplyEnds(c: Config, ports: Ports, s: Net, j: nat, w: Carriage)
    requires Inv(c, s) && Enabled(c, s, DeliverReply(j)) && Carried(s, ports, DeliverReply(j), w)
    ensures ReplyArrives(c.sigAll, ports.sender, s.req, w.frame) == Some(ApplyReply(c, s, s.rsp.replies[j]).req)
  {
    ReplyDelivers(c.sigAll, ports.sender, s.req, s.rsp.replies[j], w);
  }

  lemma {:induction false} EndStepIs(c: Config, ports: Ports, s: Net, e: Event, w: Carriage)
    requires Inv(c, s) && AllInRange(s.msgs) && c.mtu <= 4096
    requires Enabled(c, s, e) && Carried(s, ports, e, w)
    ensures EndStep(c, ports, EndsOf(s), e, w.frame) == Some(EndsOf(Apply(c, s, e)))
  {
    match e
    case PostSend(_, _) =>
    case PostReceive(_) =>
    case DeliverPacket(k) => PacketEnds(c, ports, s, k, w);
    case DeliverReply(j) => ReplyEnds(c, ports, s, j, w);
  }

  lemma {:induction false} RangeKept(c: Config, s: Net, e: Event)
    requires Inv(c, s) && Enabled(c, s, e) && AllInRange(s.msgs) && PostsInRange(e)
    ensures AllInRange(Apply(c, s, e).msgs)
  {
  }

  // ----- runs

  /** Where frames lead the two ends. */
  function EndRun(c: Config, ports: Ports, x: Ends, events: seq<Event>, ws: seq<Carriage>): Option<Ends>
    requires |ws| == |events|
    decreases |events|
  {
    if events == [] then Some(x)
    else if x.req.out > |x.req.queue| then None
    else match EndStep(c, ports, x, events[0], ws[0].frame)
      case None => None
      case Some(y) => EndRun(c, ports, y, events[1..], ws[1..])
  }

  /** Every event may happen when it does, and every frame carries what it delivers. */
  predicate AllCarriedBy(c: Config, ports: Ports, s: Net, events: seq<Event>, ws: seq<Carriage>)
    requires Inv(c, s)
    decreases |events|
  {
    && |ws| == |events|
    && (events != [] ==>
          && Enabled(c, s, events[0]) && Carried(s, ports, events[0], ws[0]) && PostsInRange(events[0])
          && (StepKeepsInv(c, s, events[0]); AllCarriedBy(c, ports, Apply(c, s, events[0]), events[1..], ws[1..])))
  }

  lemma {:induction false} EndRunIs(c: Config, ports: Ports, s: Net, events: seq<Event>, ws: seq<Carriage>)
    requires Inv(c, s) && AllInRange(s.msgs) && c.mtu <= 4096 && AllCarriedBy(c, ports, s, events, ws)
    ensures Run(c, s, events).Some?
    ensures EndRun(c, ports, EndsOf(s), events, ws) == Some(EndsOf(Run(c, s, events).value))
    decreases |events|
  {
    if events != [] {
      var t := Apply(c, s, events[0]);
      StepKeepsInv(c, s, events[0]);
      RangeKept(c, s, events[0]);
      EndRunIs(c, ports, t, events[1..], ws[1..]);
      EndStepIs(c, ports, s, events[0], ws[0]);
    }
  }

  /** Completion means delivery, from bytes to bytes: two ends that exchange frames over a
      network that alters, drops, repeats and reorders them are, after any run, in the state
      x; and when the sender has reported request k, the receiver has its completion and,
      unless something later was sent there, its bytes. */
  lemma {:induction false} FramesMeanDelivery(c: Config, mem: Mem, ports: Ports, events: seq<Event>, ws: seq<Carriage>,
          s: Net, k: nat)
    requires Leads(c, mem, events, s) && c.mtu <= 4096
    requires Inv(c, Init(c, mem)) && AllCarriedBy(c, ports, Init(c, mem), events, ws)
    requires k < Finished(AllBuilt(c, s), s.retired)
    ensures EndRun(c, ports, EndsOf(Init(c, mem)), events, ws) == Some(EndsOf(s))
    ensures s.req.cq == Completions(c.sigAll, Ws(s.msgs)[..Finished(AllBuilt(c, s), s.retired)])
    ensures AllFit(c.env, s.msgs, s.recvs) && k < |s.msgs| && k < |s.recvs|
    ensures k < |s.rsp.data.cq| && s.rsp.data.cq[k] == RecvWcOf(s.msgs[k], s.recvs[k])
    ensures Alone(c.env, s.msgs, s.recvs, k) ==>
      Read(s.rsp.data.mem, Target(c.env, s.msgs[k], s.recvs[k])) == s.msgs[k].data
  {
    EndRunIs(c, ports, Init(c, mem), events, ws);
    CompletionMeansDelivery(c, mem, events, s, k);
    var left, psn, p := LeadsSomewhere(c, mem, events, s);
  }
}
