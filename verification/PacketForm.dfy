/**
 Request packets on the wire: padding, the base transport header and the extended header
 of every packet that the sender builds, and what the receiver reads out of them.
 */
module PacketForm {
  import opened Psn
  import opened Types
  import opened Scatter
  import opened Requester
  import opened Segment
  import opened Responder
  import opened Crc
  import opened Headers
  import opened Wire

  /** -n & 3: what is missing to a multiple of four. */
  function PadCount(n: nat): (p: nat)
    ensures p < 4 && (n + p) % 4 == 0
  {
    (4 - n % 4) % 4
  }

  function Zeros(n: nat): (s: seq<byte>)
    ensures |s| == n
  {
    seq(n, _ => 0)
  }

  /** Only the last packet of a message is padded; the others are full. */
  function PadOf(pkt: Pkt): (p: nat)
    ensures p < 4
  {
    if pkt.owner.Some? then PadCount(|pkt.payload|) else 0
  }

  function BthOf(pkt: Pkt, destqp: psn24): Bth {
    Bth(OpcodeNumber(pkt.opcode), pkt.solicited, PadOf(pkt), destqp, pkt.ack, pkt.psn)
  }

  /** What follows the base transport header. */
  function BodyOf(pkt: Pkt): seq<byte> {
    EncodeEth(pkt.eth) + pkt.payload + Zeros(PadOf(pkt))
  }

  /** What the receiver makes of a frame's contents: they are not for the responder, they are
      a request whose number is all that can be read, or they are a packet. */
  datatype Unpacked = Ignored | Broken(qpn: psn24, psn: psn24) | Whole(qpn: psn24, pkt: Pkt)

  function Unpack(bth: seq<byte>, body: seq<byte>): Unpacked
    requires |bth| == BTH_SIZE
  {
    var h := DecodeBth(bth);
    if PkeyOf(bth) != PKEY || ServiceType(bth) != 0 || |body| < h.padcnt || h.opcode == OP_ACKNOWLEDGE then Ignored
    else
      match OpcodeOf(h.opcode)
      case None => Broken(h.destqp, h.psn)
      case Some(op) => UnpackEth(h, op, body[..|body| - h.padcnt])
  }

  function UnpackEth(h: Bth, op: Opcode, s: seq<byte>): Unpacked {
    match SplitEth(op, s)
    case None => Broken(h.destqp, h.psn)
    case Some((eth, payload)) => Whole(h.destqp, Pkt(h.psn, op, h.ack, h.solicited, None, eth, payload))
  }

  lemma {:induction false} FragmentSuits(w: SendWr, payload: seq<byte>, total: nat, psn: int, first: bool, last: bool)
    requires IsSend(w.op) || IsWrite(w.op)
    requires w.remoteAddr < Power(8) && total < WORD
    ensures var pkt := Fragment(w, payload, total, psn, first, last);
      EthSuits(pkt.opcode, pkt.eth) && (Served(pkt.opcode) <==> !(w.op.WrSendWithInv? && last))
  {
  }

  lemma {:induction false} UnpackBody(pkt: Pkt, destqp: psn24, bth: seq<byte>)
    requires EthSuits(pkt.opcode, pkt.eth) && Served(pkt.opcode)
    requires |bth| == BTH_SIZE && DecodeBth(bth) == BthOf(pkt, destqp) && PkeyOf(bth) == PKEY && ServiceType(bth) == 0
    ensures Unpack(bth, BodyOf(pkt)) == Whole(destqp, pkt.(owner := None))
  {
    CutBack(EncodeEth(pkt.eth) + pkt.payload, Zeros(PadOf(pkt)));
    OpcodeRoundTrip(pkt.opcode);
    EthRoundTrip(pkt.opcode, pkt.eth, pkt.payload);
  }

  lemma {:induction false} MaskedBthReads(h: Bth, s: seq<byte>)
    requires BthOk(h) && |s| == BTH_SIZE && s == MaskBth(EncodeBth(h))
    ensures DecodeBth(s) == h && PkeyOf(s) == PKEY && ServiceType(s) == 0
  {
    BthRoundTrip(h, 255);
  }

  /** Round trip of a packet: whatever happened to the masked fields on the way, the
      receiver reads the opcode, number, flags, destination, extended header and payload
      that the sender built. */
  lemma {:induction false} PacketRoundTrip(pkt: Pkt, destqp: psn24, smac: seq<byte>, p: IpPath, h: Head, g: Head)
    requires EthSuits(pkt.opcode, pkt.eth) && Served(pkt.opcode)
    requires PathOk(p) && |smac| == 6 && |h.dmac| == 6
    requires UDP_SIZE + BTH_SIZE + |BodyOf(pkt)| + ICRC_SIZE < 0x1_0000
    requires var bth := EncodeBth(BthOf(pkt, destqp)); h == HeadOf(h.vnet, h.dmac, smac, p, bth, BodyOf(pkt))
    requires SameUnmasked(p.Ip4?, h, g)
    ensures var bth, body := EncodeBth(BthOf(pkt, destqp)), BodyOf(pkt);
      var r := Decap(|h.vnet|, h.dmac, Bytes(p.Ip4?, g, body, Icrc(p.Ip4?, h.ip, [], h.udp, bth, body)));
      && r.Taken? && |r.frame.bth| == BTH_SIZE
      && Unpack(r.frame.bth, r.body) == Whole(destqp, pkt.(owner := None))
  {
    var bth := EncodeBth(BthOf(pkt, destqp));
    FrameRoundTrip(smac, p, bth, BodyOf(pkt), h, g);
    MaskedBthReads(BthOf(pkt, destqp), MaskBth(bth));
    UnpackBody(pkt, destqp, MaskBth(bth));
  }

  /** The receiver's steps between decapsulation and the transport: the padding comes off
      the end of the buffers, the extended header off their front, and the payload stays. */
  method Open(f: Frame, mem: Mem, iovs: array<Iovec>) returns (r: Unpacked)
    requires |f.bth| == BTH_SIZE && NullIsEmpty(iovs[..])
    modifies iovs
    ensures r == Unpack(f.bth, Read(mem, old(Addrs(iovs[..]))))
    ensures r.Whole? ==> Read(mem, Addrs(iovs[..])) == r.pkt.payload
  {
    var h := DecodeBth(f.bth);
    if PkeyOf(f.bth) != PKEY || ServiceType(f.bth) != 0 {
      return Ignored;
    }
    var size := IovLen(iovs[..]);
    if size < h.padcnt {
      return Ignored;
    }
    Unpad(h.padcnt, mem, iovs);
    if h.opcode == OP_ACKNOWLEDGE {
      return Ignored;
    }
    if OpcodeOf(h.opcode) == None {
      return Broken(h.destqp, h.psn);
    }
    r := OpenEth(h, OpcodeOf(h.opcode).value, mem, iovs);
  }

  method Unpad(padcnt: nat, mem: Mem, iovs: array<Iovec>)
    requires NullIsEmpty(iovs[..]) && padcnt <= |Addrs(iovs[..])|
    modifies iovs
    ensures NullIsEmpty(iovs[..])
    ensures var s := Read(mem, old(Addrs(iovs[..])));
      Read(mem, Addrs(iovs[..])) == s[..|s| - padcnt]
  {
    if padcnt > 0 {
      var pad := TakeLast(mem, iovs, padcnt);
    }
  }

  method OpenEth(h: Bth, op: Opcode, mem: Mem, iovs: array<Iovec>) returns (r: Unpacked)
    requires NullIsEmpty(iovs[..])
    modifies iovs
    ensures r == UnpackEth(h, op, Read(mem, old(Addrs(iovs[..]))))
    ensures r.Whole? ==> Read(mem, Addrs(iovs[..])) == r.pkt.payload
  {
    var eth := NoEth;
    match op {
    case SendLastImm | SendOnlyImm | WriteLastImm =>
      var imm := OpenImm(mem, iovs);
      if imm == None {
        return Broken(h.destqp, h.psn);
      }
      eth := Immdt(imm.value);
    case WriteFirst | WriteOnly =>
      var reth := OpenReth(mem, iovs);
      if reth == None {
        return Broken(h.destqp, h.psn);
      }
      eth := Reth(reth.value.0, reth.value.1, reth.value.2);
    case WriteOnlyImm =>
      var reth := OpenReth(mem, iovs);
      if reth == None {
        return Broken(h.destqp, h.psn);
      }
      var imm := OpenImm(mem, iovs);
      if imm == None {
        return Broken(h.destqp, h.psn);
      }
      eth := RethImmdt(reth.value.0, reth.value.1, reth.value.2, imm.value);
    case _ =>
    }
    return Whole(h.destqp, Pkt(h.psn, op, h.ack, h.solicited, None, eth, Read(mem, Addrs(iovs[..]))));
  }

  method OpenImm(mem: Mem, iovs: array<Iovec>) returns (r: Option<uint32>)
    requires NullIsEmpty(iovs[..])
    modifies iovs
    ensures NullIsEmpty(iovs[..])
    ensures match TakeImm(Read(mem, old(Addrs(iovs[..]))))
      case None => r == None
      case Some((imm, rest)) => r == Some(imm) && Read(mem, Addrs(iovs[..])) == rest
  {
    var size := IovLen(iovs[..]);
    if size < 4 {
      return None;
    }
    var s := Take(mem, iovs, 4);
    return Some(FromLe32(s));
  }

  method OpenReth(mem: Mem, iovs: array<Iovec>) returns (r: Option<(nat, uint32, nat)>)
    requires NullIsEmpty(iovs[..])
    modifies iovs
    ensures NullIsEmpty(iovs[..])
    ensures match TakeReth(Read(mem, old(Addrs(iovs[..]))))
      case None => r == None
      case Some((v, rest)) => r == Some(v) && Read(mem, Addrs(iovs[..])) == rest
  {
    var size := IovLen(iovs[..]);
    if size < 16 {
      return None;
    }
    ghost var t := Read(mem, Addrs(iovs[..]));
    var s := Take(mem, iovs, 16);
    assert s[..8] == t[..8] && s[8..12] == t[8..12] && s[12..16] == t[12..16];
    FromBe4(s[8..12]);
    return Some((FromBe(s[..8]), FromBe(s[8..12]), FromBe(s[12..16])));
  }

  // ----- acknowledgements

  const ACK := 0
  const NAK := 3

  /** The syndrome of an ACK carries credits, that of a NAK a code; msn is a message count. */
  function ReplyBody(nak: bool, val: nat, msn: nat): seq<byte>
    requires val < 32
  {
    [32 * (if nak then NAK else ACK) + val] + Be(msn % PSN_SPACE, 3)
  }

  function ReplyBth(psn: psn24, destqp: psn24): Bth { Bth(OP_ACKNOWLEDGE, false, 0, destqp, false, psn) }

  /** What the sender reads: the kind of the reply, unless it is neither, and its number. */
  function UnpackReply(bth: seq<byte>, body: seq<byte>): Option<(psn24, Reply)>
    requires |bth| == BTH_SIZE
  {
    var h := DecodeBth(bth);
    if PkeyOf(bth) != PKEY || ServiceType(bth) != 0 || h.opcode != OP_ACKNOWLEDGE || |body| < 4 + h.padcnt then None
    else
      var kind := body[0] / 32 % 4;
      if kind == ACK || kind == NAK then Some((h.destqp, Reply(kind == NAK, h.psn))) else None
  }

  lemma {:induction false} UnpackReplyBody(reply: Reply, destqp: psn24, val: nat, msn: nat, bth: seq<byte>)
    requires val < 32 && |bth| == BTH_SIZE
    requires DecodeBth(bth) == ReplyBth(reply.psn, destqp) && PkeyOf(bth) == PKEY && ServiceType(bth) == 0
    ensures UnpackReply(bth, ReplyBody(reply.nak, val, msn)) == Some((destqp, reply))
  {
  }

  /** A reply arrives as it was sent. */
  lemma {:induction false} ReplyRoundTrip(reply: Reply, destqp: psn24, val: nat, msn: nat, smac: seq<byte>, p: IpPath,
          h: Head, g: Head)
    requires val < 32 && PathOk(p) && |smac| == 6 && |h.dmac| == 6
    requires var bth := EncodeBth(ReplyBth(reply.psn, destqp));
      h == HeadOf(h.vnet, h.dmac, smac, p, bth, ReplyBody(reply.nak, val, msn))
    requires SameUnmasked(p.Ip4?, h, g)
    ensures var bth, body := EncodeBth(ReplyBth(reply.psn, destqp)), ReplyBody(reply.nak, val, msn);
      var r := Decap(|h.vnet|, h.dmac, Bytes(p.Ip4?, g, body, Icrc(p.Ip4?, h.ip, [], h.udp, bth, body)));
      && r.Taken? && |r.frame.bth| == BTH_SIZE
      && UnpackReply(r.frame.bth, r.body) == Some((destqp, reply))
  {
    var bth := EncodeBth(ReplyBth(reply.psn, destqp));
    FrameRoundTrip(smac, p, bth, ReplyBody(reply.nak, val, msn), h, g);
    MaskedBthReads(ReplyBth(reply.psn, destqp), MaskBth(bth));
    UnpackReplyBody(reply, destqp, val, msn, MaskBth(bth));
  }
}
