/**
 The bytes on the wire: what stands where in the headers that the two ends build and read.
 */
module Octets {
  import opened Psn
  import opened Types
  import opened Requester
  import opened Segment
  import opened Responder
  import opened Headers
  import opened Wire
  import opened PacketForm
  import B = Buffers

  function Number2(a: nat, b: nat): nat { 0x100 * a + b }

  function Number3(a: nat, b: nat, c: nat): nat { 0x1_0000 * a + 0x100 * b + c }

  // ----- numbers

  /** Big-endian: the i-th of k bytes is the digit of the power k - 1 - i of 256. */
  lemma {:induction false} BeDigit(n: nat, k: nat, i: nat)
    requires i < k
    ensures Power(k - 1 - i) > 0 && Be(n, k)[i] == n / Power(k - 1 - i) % 256
  {
    if i == k - 1 {
      assert Power(0) == 1;
    } else {
      BeDigit(n / 256, k - 1, i);
      B.DivideTwice(n, 256, Power(k - 2 - i));
      assert Power(k - 1 - i) == 256 * Power(k - 2 - i);
      assert Be(n, k)[i] == Be(n / 256, k - 1)[i];
    }
  }

  lemma {:induction false} Be1(n: nat)
    ensures Be(n, 1) == [n % 256]
  {
    assert Be(n / 256, 0) == [];
  }

  lemma {:induction false} Be2(n: nat)
    requires n < 0x1_0000
    ensures Be(n, 2) == [n / 256, n % 256] && Number2(n / 256, n % 256) == n
  {
    Be1(n / 256);
  }

  lemma {:induction false} ThreeDigits(n: nat)
    ensures n / 256 / 256 == n / 0x1_0000 && Number3(n / 0x1_0000, n / 256 % 256, n % 256) == n
  {
    B.DivideTwice(n, 256, 256);
  }

  lemma {:induction false} Be3(n: nat)
    requires n < PSN_SPACE
    ensures Be(n, 3) == [n / 0x1_0000, n / 256 % 256, n % 256]
    ensures Number3(n / 0x1_0000, n / 256 % 256, n % 256) == n
  {
    ThreeDigits(n);
    Be2(n / 256);
  }

  // ----- the base transport header

  predicate OpcodeByte(op: Opcode, b: byte) {
    && (op.SendFirst? ==> b == 0x00) && (op.SendMiddle? ==> b == 0x01) && (op.SendLast? ==> b == 0x02)
    && (op.SendLastImm? ==> b == 0x03) && (op.SendOnly? ==> b == 0x04) && (op.SendOnlyImm? ==> b == 0x05)
    && (op.WriteFirst? ==> b == 0x06) && (op.WriteMiddle? ==> b == 0x07) && (op.WriteLast? ==> b == 0x08)
    && (op.WriteLastImm? ==> b == 0x09) && (op.WriteOnly? ==> b == 0x0a) && (op.WriteOnlyImm? ==> b == 0x0b)
    && (op.SendLastInv? ==> b == 0x16) && (op.SendOnlyInv? ==> b == 0x17)
  }

  lemma {:induction false} EncodedBth(h: Bth)
    requires BthOk(h)
    ensures var s := EncodeBth(h);
      && s[0] == h.opcode && s[1] == (if h.solicited then 0x80 else 0) + 16 * h.padcnt
      && s[2] == s[3] == 0xff && s[4] == 0 && Number3(s[5], s[6], s[7]) == h.destqp
      && s[8] == (if h.ack then 0x80 else 0) && Number3(s[9], s[10], s[11]) == h.psn
  {
    Be2(PKEY);
    Be3(h.destqp);
    Be3(h.psn);
  }

  /** The base transport header of a request packet. */
  lemma {:induction false} RequestBytes(pkt: Pkt, qpn: psn24)
    ensures var s, pad := EncodeBth(BthOf(pkt, qpn)), PadOf(pkt);
      && OpcodeByte(pkt.opcode, s[0])
      && s[1] == (if pkt.solicited then 0x80 else 0) + 16 * pad
      && s[2] == s[3] == 0xff && s[4] == 0 && Number3(s[5], s[6], s[7]) == qpn
      && s[8] == (if pkt.ack then 0x80 else 0) && Number3(s[9], s[10], s[11]) == pkt.psn
      && (pkt.owner.Some? ==> (|pkt.payload| + pad) % 4 == 0)
  {
    EncodedBth(BthOf(pkt, qpn));
  }

  /** The base transport header of a reply, and its syndrome. */
  lemma {:induction false} ReplyBytes(reply: Reply, qpn: psn24, val: nat, msn: nat)
    requires val < 32
    ensures var s, body := EncodeBth(ReplyBth(reply.psn, qpn)), ReplyBody(reply.nak, val, msn);
      && s[0] == 0x11 && s[1] == 0 && s[2] == s[3] == 0xff && Number3(s[5], s[6], s[7]) == qpn
      && s[8] == 0 && Number3(s[9], s[10], s[11]) == reply.psn
      && |body| == 4 && body[0] == (if reply.nak then 0x60 else 0) + val
      && Number3(body[1], body[2], body[3]) == msn % PSN_SPACE
  {
    EncodedBth(ReplyBth(reply.psn, qpn));
    Be3(msn % PSN_SPACE);
  }

  lemma {:induction false} ThreeBytes(s: seq<byte>)
    requires |s| == 3
    ensures FromBe(s) == Number3(s[0], s[1], s[2])
  {
    assert s[..2][..1] == s[..1] && FromBe(s[..1]) == 256 * FromBe(s[..0]) + s[0];
    assert FromBe(s[..2]) == 256 * FromBe(s[..1]) + s[1];
  }

  lemma {:induction false} KeyBytes(s: seq<byte>)
    requires |s| == 12
    ensures PkeyOf(s) == PKEY <==> s[2] == 0xff && s[3] == 0xff
  {
    assert s[2..4] == [s[2], s[3]] && s[2..4][..1] == [s[2]] && [s[2]][..0] == [];
    assert FromBe([s[2]]) == s[2];
  }

  lemma {:induction false} ReadBytes(s: seq<byte>)
    requires |s| == 12
    ensures var h := DecodeBth(s);
      && h.opcode == s[0] % 32 && h.padcnt == s[1] / 16 % 4 && h.solicited == (s[1] >= 0x80) && h.ack == (s[8] >= 0x80)
      && h.destqp == Number3(s[5], s[6], s[7]) && h.psn == Number3(s[9], s[10], s[11])
  {
    assert s[5..8] == [s[5], s[6], s[7]] && s[9..12] == [s[9], s[10], s[11]];
    ThreeBytes(s[5..8]);
    ThreeBytes(s[9..12]);
  }

  /** The responder looks at a packet exactly if its key is the default one, its service is
      the reliable connection, it is not an acknowledgement, and its padding is there. */
  lemma {:induction false} LookedAtExactly(s: seq<byte>, body: seq<byte>)
    requires |s| == BTH_SIZE
    ensures !Unpack(s, body).Ignored? <==>
      s[2] == 0xff && s[3] == 0xff && s[0] / 32 == 0 && s[0] % 32 != 0x11 && |body| >= s[1] / 16 % 4
    ensures var u, psn, qpn := Unpack(s, body), Number3(s[9], s[10], s[11]), Number3(s[5], s[6], s[7]);
      && (u.Broken? ==> u.psn == psn && u.qpn == qpn)
      && (u.Whole? ==>
            && u.qpn == qpn && u.pkt.psn == psn && OpcodeByte(u.pkt.opcode, s[0])
            && u.pkt.ack == (s[8] >= 0x80) && u.pkt.solicited == (s[1] >= 0x80))
  {
    KeyBytes(s);
    ReadBytes(s);
  }

  /** The opcodes from 0 to 11 are served; so many bytes of extended header belong to each. */
  function HeaderSize(op: nat): nat {
    if op == 0x03 || op == 0x05 || op == 0x09 then 4
    else if op == 0x06 || op == 0x0a then 16
    else if op == 0x0b then 20
    else 0
  }

  /** Of what the responder looks at it reads a whole packet exactly if the opcode is served
      and its extended header is there; the payload is what is between that and the padding. */
  lemma {:induction false} WholeExactly(s: seq<byte>, body: seq<byte>)
    requires |s| == BTH_SIZE && !Unpack(s, body).Ignored?
    ensures var u, op, pad := Unpack(s, body), s[0] % 32, s[1] / 16 % 4;
      && pad <= |body|
      && (u.Whole? <==> op < 12 && HeaderSize(op) <= |body| - pad)
      && (u.Whole? ==> u.pkt.payload == body[HeaderSize(op)..|body| - pad])
  {
    LookedAtExactly(s, body);
    ReadBytes(s);
    var op, pad := s[0] % 32, s[1] / 16 % 4;
    var t := body[..|body| - pad];
    SplitAt(op, t);
    if HeaderSize(op) <= |t| {
      assert t[HeaderSize(op)..] == body[HeaderSize(op)..|body| - pad];
    }
  }

  lemma {:induction false} SplitAt(op: nat, t: seq<byte>)
    requires op < 32
    ensures OpcodeOf(op).Some? <==> op < 12
    ensures OpcodeOf(op).Some? ==>
      var r := SplitEth(OpcodeOf(op).value, t);
      && (r.Some? <==> HeaderSize(op) <= |t|) && (r.Some? ==> r.value.1 == t[HeaderSize(op)..])
  {
    if |t| >= 20 {
      assert t[16..][4..] == t[20..];
    }
    assert t[0..] == t;
  }

  /** The requester looks at a packet exactly if it is an acknowledgement, whose syndrome says
      ACK or NAK. */
  lemma {:induction false} ReplyReadExactly(s: seq<byte>, body: seq<byte>)
    requires |s| == BTH_SIZE
    ensures var u, kind := UnpackReply(s, body), if body == [] then 0 else body[0] / 32 % 4;
      && (u.Some? <==>
            && s[2] == 0xff && s[3] == 0xff && s[0] == 0x11 && |body| >= 4 + s[1] / 16 % 4
            && (kind == 0 || kind == 3))
      && (u.Some? ==>
            && u.value.0 == Number3(s[5], s[6], s[7])
            && u.value.1 == Reply(kind == 3, Number3(s[9], s[10], s[11])))
  {
    KeyBytes(s);
    ReadBytes(s);
  }

  // ----- the extended headers

  /** The RDMA header: address, key and length, most significant byte first. */
  lemma {:induction false} RethBytes(va: nat, rkey: uint32, dmalen: nat)
    ensures var s := EncodeEth(Reth(va, rkey, dmalen));
      |s| == 16 && s[..8] == Be(va, 8) && s[8..12] == Be(rkey, 4) && s[12..] == Be(dmalen, 4)
  {
  }

  /** The immediate as it lies in memory, the key to invalidate most significant byte first;
      an RDMA header comes before an immediate. */
  lemma {:induction false} ShortEthBytes(n: uint32, va: nat, rkey: uint32, dmalen: nat)
    ensures EncodeEth(Immdt(n)) == [n % 256, n / 0x100 % 256, n / 0x1_0000 % 256, n / 0x100_0000]
    ensures EncodeEth(Ieth(n)) == Be(n, 4) && EncodeEth(NoEth) == []
    ensures EncodeEth(RethImmdt(va, rkey, dmalen, n)) == EncodeEth(Reth(va, rkey, dmalen)) + EncodeEth(Immdt(n))
  {
  }

  // ----- the headers below

  /** The Ethernet header: receiver, sender, and the type of what follows. */
  lemma {:induction false} EthernetBytes(v4: bool, h: Head)
    ensures EthHeader(v4, h) == h.dmac + h.smac + if v4 then [0x08, 0x00] else [0x86, 0xdd]
  {
    Be2(TYPE_IP4);
    Be2(TYPE_IP6);
  }

  /** The lengths that the IP and UDP headers announce are the numbers of bytes from the
      header on, or after it for IPv6, the CRC counted in; the ports and the protocol. */
  lemma {:induction false} LengthsAreRight(h: Head, smac: seq<byte>, p: IpPath, bth: seq<byte>, body: seq<byte>,
          icrc: seq<byte>, rest: seq<byte>)
    requires PathOk(p) && |smac| == 6 && |h.dmac| == 6 && |bth| == BTH_SIZE && |icrc| == ICRC_SIZE
    requires h == HeadOf(h.vnet, h.dmac, smac, p, bth, body)
    requires rest == h.ip + (h.udp + (h.bth + (body + icrc))) && |rest| < 0x1_0000
    ensures Bytes(p.Ip4?, h, body, icrc) == h.vnet + (EthHeader(p.Ip4?, h) + rest)
    ensures p.Ip4? ==>
      && h.ip[0] == 0x45 && Number2(h.ip[2], h.ip[3]) == |rest| && h.ip[8] == p.ttl && h.ip[9] == 17
      && h.ip[12..16] == p.saddr && h.ip[16..20] == p.daddr
    ensures p.Ip6? ==>
      && h.ip[0] / 16 == 6 && Number2(h.ip[4], h.ip[5]) == |rest| - 40 && h.ip[6] == 17 && h.ip[7] == p.hop
      && h.ip[8..24] == p.saddr && h.ip[24..40] == p.daddr
    ensures Number2(h.udp[0], h.udp[1]) == Number2(h.udp[2], h.udp[3]) == 4791
    ensures Number2(h.udp[4], h.udp[5]) == |rest| - IpSize(p.Ip4?)
  {
    var len := BTH_SIZE + |body|;
    Be2(PORT);
    Be2(UDP_SIZE + len + ICRC_SIZE);
    if p.Ip4? {
      Be2(IP4_SIZE + UDP_SIZE + len + ICRC_SIZE);
    } else {
      FirstWord(p.tclass);
    }
  }

  lemma {:induction false} FirstWord(tclass: byte)
    ensures Be(0x6000_0000 + 0x10_0000 * tclass, 4)[0] / 16 == 6
  {
    Powers();
    BeDigit(0x6000_0000 + 0x10_0000 * tclass, 4, 0);
  }
}
