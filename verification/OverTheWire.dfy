/**
 A request on the wire, from the posted work request to the receiver's memory: every
 packet is sealed into a frame, the frames may be changed on the way in the bytes that
 the invariant CRC does not cover, and what the receiver makes of the frames is what it
 makes of the packets.
 */
module OverTheWire {
  import opened Psn
  import opened Types
  import opened Scatter
  import opened Requester
  import opened Segment
  import opened Responder
  import opened Delivery
  import opened Headers
  import opened Wire
  import opened PacketForm
  import L = Layout

  /** vnet is the size of the prefix that the network device puts before each frame. */
  datatype Port = Port(vnet: nat, mac: seq<byte>, qpn: psn24)

  /** A frame arrives for the queue pair of a port; what cannot be read changes nothing,
      and nothing is known after an overrun. */
  function FrameArrives(env: Env, port: Port, r: Rsp, frame: seq<byte>): Option<Rsp> {
    match Decap(port.vnet, port.mac, frame)
    case Dropped => Some(r)
    case Overrun => None
    case Taken(f, body) => Some(BodyArrives(env, port, r, f.bth, body))
  }

  function BodyArrives(env: Env, port: Port, r: Rsp, bth: seq<byte>, body: seq<byte>): Rsp {
    if |bth| != BTH_SIZE then r
    else match Unpack(bth, body)
      case Ignored => r
      case Broken(qpn, psn) => if qpn == port.qpn then RecvBroken(r, psn) else r
      case Whole(qpn, pkt) => if qpn == port.qpn then RecvRc(env, r, pkt) else r
  }

  function FramesArrive(env: Env, port: Port, r: Rsp, frames: seq<seq<byte>>): Option<Rsp>
    decreases |frames|
  {
    if frames == [] then Some(r)
    else match FrameArrives(env, port, r, frames[0])
      case None => None
      case Some(next) => FramesArrive(env, port, next, frames[1..])
  }

  /** The headers as they were sent and as they arrive. */
  datatype Journey = Journey(smac: seq<byte>, path: IpPath, sent: Head, arrived: Head)

  /** frame is what became of a packet: its headers changed under the masks, and the body
      and the invariant CRC as they were sent. */
  predicate Carries(port: Port, pkt: Pkt, j: Journey, frame: seq<byte>) {
    && PathOk(j.path) && |j.smac| == 6 && |port.mac| == 6
    && |j.sent.vnet| == port.vnet
    && var v4, bth, body := j.path.Ip4?, EncodeBth(BthOf(pkt, port.qpn)), BodyOf(pkt);
    && j.sent == HeadOf(j.sent.vnet, port.mac, j.smac, j.path, bth, body)
    && SameUnmasked(v4, j.sent, j.arrived)
    && frame == Bytes(v4, j.arrived, body, Icrc(v4, j.sent.ip, [], j.sent.udp, bth, body))
  }

  /** What the sender hands to the network carries the packet: its slots read as the frame,
      where the extended header, the payload and zeros for padding are in place. */
  lemma {:induction false} SealedCarries(port: Port, pkt: Pkt, mem: Mem, pl: L.Places, smac: seq<byte>, p: IpPath,
          h: Head, ext: Iovec, payload: seq<Iovec>)
    requires PathOk(p) && |smac| == 6 && |port.mac| == 6 && |h.vnet| == port.vnet
    requires var bth := EncodeBth(BthOf(pkt, port.qpn)); h == HeadOf(h.vnet, port.mac, smac, p, bth, BodyOf(pkt))
    requires L.Holds(mem, pl, p.Ip4?, h, Icrc(p.Ip4?, h.ip, [], h.udp, h.bth, BodyOf(pkt)))
    requires Read(mem, Range(ext.base, ext.len)) == EncodeEth(pkt.eth) && Read(mem, Addrs(payload)) == pkt.payload
    requires Read(mem, Range(pl.pad, PadOf(pkt))) == Zeros(PadOf(pkt))
    ensures Carries(port, pkt, Journey(smac, p, h, h),
                    Read(mem, Addrs(L.Slots(pl, Iovec(pl.ip, IpSize(p.Ip4?)), ext, payload, PadOf(pkt)))))
  {
    L.BodyParts(mem, pl, ext, payload, PadOf(pkt));
    L.SlotsAreFrame(mem, pl, p.Ip4?, h, Icrc(p.Ip4?, h.ip, [], h.udp, h.bth, BodyOf(pkt)), ext, payload, PadOf(pkt));
  }

  predicate Sendable(pkt: Pkt) {
    && EthSuits(pkt.opcode, pkt.eth) && Served(pkt.opcode)
    && UDP_SIZE + BTH_SIZE + |BodyOf(pkt)| + ICRC_SIZE < 0x1_0000
  }

  lemma {:induction false} OwnerIsLocal(env: Env, r: Rsp, pkt: Pkt)
    ensures RecvRc(env, r, pkt.(owner := None)) == RecvRc(env, r, pkt)
  {
    assert Receive(env, r.data, pkt.(owner := None)) == Receive(env, r.data, pkt);
  }

  lemma {:induction false} WholeArrives(env: Env, port: Port, r: Rsp, pkt: Pkt, bth: seq<byte>, body: seq<byte>)
    requires |bth| == BTH_SIZE && Unpack(bth, body) == Whole(port.qpn, pkt.(owner := None))
    ensures BodyArrives(env, port, r, bth, body) == RecvRc(env, r, pkt)
  {
    OwnerIsLocal(env, r, pkt);
  }

  /** A frame that is not taken, or not for this queue pair, changes nothing. */
  lemma {:induction false} OthersChangeNothing(env: Env, port: Port, r: Rsp, frame: seq<byte>)
    requires var d := Decap(port.vnet, port.mac, frame);
      !d.Overrun? && (d.Taken? && |d.frame.bth| == BTH_SIZE ==> DecodeBth(d.frame.bth).destqp != port.qpn)
    ensures FrameArrives(env, port, r, frame) == Some(r)
  {
  }

  lemma {:induction false} CarriedIsRead(port: Port, pkt: Pkt, j: Journey, frame: seq<byte>)
    requires Sendable(pkt) && Carries(port, pkt, j, frame)
    ensures var d := Decap(port.vnet, port.mac, frame);
      d.Taken? && |d.frame.bth| == BTH_SIZE && Unpack(d.frame.bth, d.body) == Whole(port.qpn, pkt.(owner := None))
  {
    PacketRoundTrip(pkt, port.qpn, j.smac, j.path, j.sent, j.arrived);
  }

  /** A frame does what its packet does. */
  lemma {:induction false} FrameDelivers(env: Env, port: Port, r: Rsp, pkt: Pkt, j: Journey, frame: seq<byte>)
    requires Sendable(pkt) && Carries(port, pkt, j, frame)
    ensures FrameArrives(env, port, r, frame) == Some(RecvRc(env, r, pkt))
  {
    CarriedIsRead(port, pkt, j, frame);
    var d := Decap(port.vnet, port.mac, frame);
    WholeArrives(env, port, r, pkt, d.frame.bth, d.body);
  }

  lemma {:induction false} EthIsSmall(eth: Eth)
    ensures |EncodeEth(eth)| <= 20
  {
  }

  /** Every packet built for a request can be sent, whatever the length of the message;
      4096 is the largest path MTU. */
  lemma {:induction false} PacketsAreSendable(w: SendWr, data: seq<byte>, mtu: nat, psn: int, i: nat)
    requires Delivered(w) && w.remoteAddr < Power(8) && |data| < WORD && 0 < mtu <= 4096
    requires i < |Packets(w, data, mtu, psn)|
    ensures Sendable(Packets(w, data, mtu, psn)[i])
  {
    var pkts := Packets(w, data, mtu, psn);
    var pkt := pkts[i];
    FragmentAt(w, data, |data|, mtu, psn, true, i);
    FragmentSuits(w, pkt.payload, |data|, psn, i == 0, i == |pkts| - 1);
    EthIsSmall(pkt.eth);
  }

  /** The packets one after the other. */
  function Fold(recv: (Rsp, Pkt) -> Rsp, r: Rsp, pkts: seq<Pkt>): Rsp
    decreases |pkts|
  {
    if pkts == [] then r else Fold(recv, recv(r, pkts[0]), pkts[1..])
  }

  function Receiving(env: Env): (Rsp, Pkt) -> Rsp {
    (r: Rsp, pkt: Pkt) => RecvRc(env, r, pkt)
  }

  predicate AllCarried(port: Port, pkts: seq<Pkt>, js: seq<Journey>, frames: seq<seq<byte>>) {
    && |js| == |pkts| == |frames|
    && forall i :: 0 <= i < |pkts| ==> Carries(port, pkts[i], js[i], frames[i])
  }

  predicate AllSendable(pkts: seq<Pkt>) {
    forall i :: 0 <= i < |pkts| ==> Sendable(pkts[i])
  }

  lemma {:induction false} FramesDeliver(env: Env, port: Port, r: Rsp, pkts: seq<Pkt>, js: seq<Journey>,
          frames: seq<seq<byte>>)
    requires AllCarried(port, pkts, js, frames) && AllSendable(pkts)
    ensures FramesArrive(env, port, r, frames) == Some(Fold(Receiving(env), r, pkts))
    decreases |pkts|
  {
    if pkts != [] {
      var next := Receiving(env)(r, pkts[0]);
      assert FrameArrives(env, port, r, frames[0]) == Some(next) by {
        FrameDelivers(env, port, r, pkts[0], js[0], frames[0]);
      }
      FramesDeliver(env, port, next, pkts[1..], js[1..], frames[1..]);
    }
  }

  predicate Numbered(pkts: seq<Pkt>, n: int) {
    forall i :: 0 <= i < |pkts| ==> pkts[i].psn == Wrap(n + i)
  }

  /** recv makes the step when the number is the expected one. */
  ghost predicate Accepts(recv: (Rsp, Pkt) -> Rsp, step: (Data, Pkt, Data) -> bool) {
    forall r: Rsp, pkt: Pkt, d: Data :: step(r.data, pkt, d) && r.rqPsn == pkt.psn ==>
      recv(r, pkt).data == d && recv(r, pkt).rqPsn == Inc(r.rqPsn)
  }

  lemma {:induction false} ReceivingAccepts(env: Env)
    ensures Accepts(Receiving(env), StepOf(env))
  {
  }

  lemma {:induction false} NumberedTail(pkts: seq<Pkt>, n: int)
    requires Numbered(pkts, n) && pkts != []
    ensures pkts[0].psn == Wrap(n) && Numbered(pkts[1..], n + 1)
  {
    forall i | 0 <= i < |pkts[1..]| ensures pkts[1..][i].psn == Wrap(n + 1 + i) {
      assert pkts[1..][i] == pkts[i + 1];
    }
  }

  /** Packets that the data path takes, with the numbers that follow, are received. */
  lemma {:induction false} ChainIsReceived(recv: (Rsp, Pkt) -> Rsp, step: (Data, Pkt, Data) -> bool, r: Rsp,
          states: seq<Data>, pkts: seq<Pkt>, n: int)
    requires Accepts(recv, step) && IsChain(step, states, pkts)
    requires r.rqPsn == Wrap(n) && Numbered(pkts, n) && r.data == states[0]
    ensures var t := Fold(recv, r, pkts);
      t.data == states[|pkts|] && t.rqPsn == Wrap(n + |pkts|)
    decreases |pkts|
  {
    if pkts != [] {
      NumberedTail(pkts, n);
      IncWraps(n);
      ChainIsReceived(recv, step, recv(r, pkts[0]), states[1..], pkts[1..], n + 1);
    }
  }

  lemma {:induction false} PacketsNumbered(w: SendWr, data: seq<byte>, mtu: nat, psn: int)
    requires Delivered(w) && mtu > 0
    ensures Numbered(Packets(w, data, mtu, psn), psn)
  {
    var pkts := Packets(w, data, mtu, psn);
    forall i | 0 <= i < |pkts| ensures pkts[i].psn == Wrap(psn + i) {
      FragmentAt(w, data, |data|, mtu, psn, true, i);
    }
  }

  /** A whole request, from its bytes to the frames and from the frames to the receiver's
      memory: the frames of its packets, changed on the way wherever the masks allow and
      arriving in order, write exactly its bytes to the target addresses, consume one
      receive request, raise one completion of its length, and move the expected number
      on by the number of packets. */
  lemma {:induction false} RequestOverTheWire(env: Env, port: Port, r: Rsp, m: Msg, mtu: nat, psn: int, pkts: seq<Pkt>,
          js: seq<Journey>, frames: seq<seq<byte>>)
    requires CanArrive(env, r.data, m) && r.rqPsn == Wrap(psn)
    requires m.w.remoteAddr < Power(8) && 0 < mtu <= 4096 && mtu <= env.pageSize
    requires pkts == Packets(m.w, m.data, mtu, psn) && AllCarried(port, pkts, js, frames)
    ensures var t := FramesArrive(env, port, r, frames);
      t.Some? && t.value.data == Done(env, r.data, m) && t.value.rqPsn == Wrap(psn + |pkts|)
  {
    PacketsSendable(m.w, m.data, mtu, psn);
    FramesDeliver(env, port, r, pkts, js, frames);
    RequestReceived(env, r, m, mtu, psn, pkts);
  }

  lemma {:induction false} PacketsSendable(w: SendWr, data: seq<byte>, mtu: nat, psn: int)
    requires Delivered(w) && w.remoteAddr < Power(8) && |data| < WORD && 0 < mtu <= 4096
    ensures AllSendable(Packets(w, data, mtu, psn))
  {
    var pkts := Packets(w, data, mtu, psn);
    forall i | 0 <= i < |pkts| ensures Sendable(pkts[i]) {
      PacketsAreSendable(w, data, mtu, psn, i);
    }
  }

  lemma {:induction false} MessageChain(env: Env, d: Data, m: Msg, mtu: nat, psn: int) returns (states: seq<Data>)
    requires CanArrive(env, d, m) && 0 < mtu <= env.pageSize
    ensures IsChain(StepOf(env), states, Packets(m.w, m.data, mtu, psn))
    ensures states[0] == d && states[|states| - 1] == Done(env, d, m)
  {
    MessageFollows(env, d, m, true);
    states := MessageStates(StepOf(env), env, d, m, mtu, psn);
    assert m.data[0..] == m.data;
  }

  lemma {:induction false} RequestReceived(env: Env, r: Rsp, m: Msg, mtu: nat, psn: int, pkts: seq<Pkt>)
    requires CanArrive(env, r.data, m) && r.rqPsn == Wrap(psn) && 0 < mtu <= env.pageSize
    requires pkts == Packets(m.w, m.data, mtu, psn)
    ensures var t := Fold(Receiving(env), r, pkts);
      t.data == Done(env, r.data, m) && t.rqPsn == Wrap(psn + |pkts|)
  {
    var states := MessageChain(env, r.data, m, mtu, psn);
    assert Numbered(pkts, psn) by { PacketsNumbered(m.w, m.data, mtu, psn); }
    assert Accepts(Receiving(env), StepOf(env)) by { ReceivingAccepts(env); }
    ChainIsReceived(Receiving(env), StepOf(env), r, states, pkts, psn);
  }
}
