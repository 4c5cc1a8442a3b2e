/**
 The headers of a packet as bytes: base transport header, extended headers, Ethernet,
 IP and UDP, and which of their bytes the invariant CRC masks.
 */
module Headers {
  import opened Psn
  import opened Types

  // ----- big-endian numbers

  function Power(k: nat): nat {
    if k == 0 then 1 else 256 * Power(k - 1)
  }

  /** n in k bytes, the most significant first; what does not fit is lost. */
  function Be(n: nat, k: nat): (s: seq<byte>)
    ensures |s| == k
  {
    if k == 0 then [] else Be(n / 256, k - 1) + [n % 256]
  }

  function FromBe(s: seq<byte>): nat {
    if s == [] then 0 else 256 * FromBe(s[..|s| - 1]) + s[|s| - 1]
  }

  /** A number that fits is read back. */
  lemma {:induction false} BeRoundTrip(n: nat, k: nat)
    requires n < Power(k)
    ensures FromBe(Be(n, k)) == n
  {
    if k > 0 {
      BeRoundTrip(n / 256, k - 1);
      assert Be(n, k)[..k - 1] == Be(n / 256, k - 1);
    }
  }

  /** A 32-bit number as a little-endian machine keeps it in memory. */
  function Le32(n: uint32): (s: seq<byte>)
    ensures |s| == 4
  {
    [n % 256, n / 0x100 % 256, n / 0x1_0000 % 256, n / 0x100_0000]
  }

  function FromLe32(s: seq<byte>): uint32
    requires |s| == 4
  {
    var (b0: nat, b1: nat, b2: nat, b3: nat) := (s[0], s[1], s[2], s[3]);
    b0 + 0x100 * b1 + 0x1_0000 * b2 + 0x100_0000 * b3
  }

  lemma {:induction false} Le32RoundTrip(n: uint32)
    ensures FromLe32(Le32(n)) == n
  {
    assert n == n % 256 + 0x100 * (n / 0x100);
    assert n / 0x100 == n / 0x100 % 256 + 0x100 * (n / 0x1_0000);
    assert n / 0x1_0000 == n / 0x1_0000 % 256 + 0x100 * (n / 0x100_0000);
  }

  lemma {:induction false} Powers()
    ensures Power(2) == 0x1_0000 && Power(3) == PSN_SPACE && Power(4) == WORD && Power(8) == WORD * WORD
  {
    assert Power(1) == 256;
    assert Power(2) == 256 * 256;
    assert Power(3) == 256 * Power(2);
    assert Power(4) == 256 * Power(3);
    assert Power(5) == 256 * Power(4);
    assert Power(6) == 256 * Power(5);
    assert Power(7) == 256 * Power(6);
  }

  // ----- base transport header

  const BTH_SIZE := 12
  const PKEY := 0xFFFF
  const OP_ACKNOWLEDGE := 0x11

  /** The fields that are set and read; the service type is reliable connection, 0. */
  datatype Bth = Bth(opcode: nat, solicited: bool, padcnt: nat, destqp: psn24, ack: bool, psn: psn24)

  predicate BthOk(h: Bth) { h.opcode < 32 && h.padcnt < 4 }

  function EncodeBth(h: Bth): (s: seq<byte>)
    requires BthOk(h)
    ensures |s| == BTH_SIZE
  {
    [h.opcode, (if h.solicited then 0x80 else 0) + 16 * h.padcnt] + Be(PKEY, 2) + [0] + Be(h.destqp, 3)
    + [if h.ack then 0x80 else 0] + Be(h.psn, 3)
  }

  /** The service type and the key are checked apart from the rest. */
  function ServiceType(s: seq<byte>): nat
    requires |s| == BTH_SIZE
  {
    s[0] / 32
  }

  function PkeyOf(s: seq<byte>): nat
    requires |s| == BTH_SIZE
  {
    FromBe(s[2..4])
  }

  function DecodeBth(s: seq<byte>): (h: Bth)
    requires |s| == BTH_SIZE
    ensures BthOk(h)
  {
    FromBe3(s[5..8]);
    FromBe3(s[9..12]);
    Bth(s[0] % 32, s[1] >= 0x80, s[1] / 16 % 4, FromBe(s[5..8]), s[8] >= 0x80, FromBe(s[9..12]))
  }

  lemma {:induction false} FromBe3(s: seq<byte>)
    requires |s| == 3
    ensures FromBe(s) < PSN_SPACE
  {
    assert s[..2][..1] == s[..1] && FromBe(s[..1]) == 256 * FromBe(s[..0]) + s[0];
    assert FromBe(s[..2]) == 256 * FromBe(s[..1]) + s[1];
  }

  /** Every other bit of the header is read as it was written, and the masked byte may
      have changed on the way. */
  lemma {:induction false} BthRoundTrip(h: Bth, reserved: byte)
    requires BthOk(h)
    ensures var s := EncodeBth(h)[4 := reserved];
      DecodeBth(s) == h && ServiceType(s) == 0 && PkeyOf(s) == PKEY
  {
    var s := EncodeBth(h)[4 := reserved];
    Powers();
    BeRoundTrip(PKEY, 2);
    BeRoundTrip(h.destqp, 3);
    BeRoundTrip(h.psn, 3);
    assert s[2..4] == Be(PKEY, 2);
    assert s[5..8] == Be(h.destqp, 3);
    assert s[9..12] == Be(h.psn, 3);
  }

  // ----- operation codes

  function OpcodeNumber(op: Opcode): (n: nat)
    ensures n < 32
  {
    match op
    case SendFirst => 0x00
    case SendMiddle => 0x01
    case SendLast => 0x02
    case SendLastImm => 0x03
    case SendOnly => 0x04
    case SendOnlyImm => 0x05
    case WriteFirst => 0x06
    case WriteMiddle => 0x07
    case WriteLast => 0x08
    case WriteLastImm => 0x09
    case WriteOnly => 0x0a
    case WriteOnlyImm => 0x0b
    case SendLastInv => 0x16
    case SendOnlyInv => 0x17
  }

  /** The request opcodes that the receiver has a case for. */
  function OpcodeOf(n: nat): Option<Opcode> {
    match n
    case 0x00 => Some(SendFirst)
    case 0x01 => Some(SendMiddle)
    case 0x02 => Some(SendLast)
    case 0x03 => Some(SendLastImm)
    case 0x04 => Some(SendOnly)
    case 0x05 => Some(SendOnlyImm)
    case 0x06 => Some(WriteFirst)
    case 0x07 => Some(WriteMiddle)
    case 0x08 => Some(WriteLast)
    case 0x09 => Some(WriteLastImm)
    case 0x0a => Some(WriteOnly)
    case 0x0b => Some(WriteOnlyImm)
    case _ => None
  }

  predicate Served(op: Opcode) { !op.SendLastInv? && !op.SendOnlyInv? }

  lemma {:induction false} OpcodeRoundTrip(op: Opcode)
    ensures OpcodeOf(OpcodeNumber(op)) == if Served(op) then Some(op) else None
  {
  }

  // ----- extended headers

  /** The immediate is kept as it is in memory, everything else is big-endian. */
  function EncodeEth(eth: Eth): seq<byte> {
    match eth
    case NoEth => []
    case Immdt(imm) => Le32(imm)
    case Ieth(key) => Be(key, 4)
    case Reth(va, rkey, dmalen) => Be(va, 8) + Be(rkey, 4) + Be(dmalen, 4)
    case RethImmdt(va, rkey, dmalen, imm) => Be(va, 8) + Be(rkey, 4) + Be(dmalen, 4) + Le32(imm)
  }

  /** The header that an opcode has. */
  predicate EthSuits(op: Opcode, eth: Eth) {
    match op
    case SendLastImm | SendOnlyImm | WriteLastImm => eth.Immdt?
    case WriteFirst | WriteOnly => eth.Reth? && eth.va < Power(8) && eth.dmalen < WORD
    case WriteOnlyImm => eth.RethImmdt? && eth.va < Power(8) && eth.dmalen < WORD
    case SendLastInv | SendOnlyInv => eth.Ieth?
    case _ => eth.NoEth?
  }

  function TakeImm(s: seq<byte>): Option<(uint32, seq<byte>)> {
    if |s| < 4 then None else Some((FromLe32(s[..4]), s[4..]))
  }

  function TakeReth(s: seq<byte>): Option<((nat, uint32, nat), seq<byte>)> {
    if |s| < 16 then None
    else
      FromBe4(s[8..12]);
      Some(((FromBe(s[..8]), FromBe(s[8..12]), FromBe(s[12..16])), s[16..]))
  }

  lemma {:induction false} FromBe4(s: seq<byte>)
    requires |s| == 4
    ensures FromBe(s) < WORD
  {
    FromBe3(s[..3]);
  }

  /** What the receiver takes off the front of a packet for its opcode. */
  function SplitEth(op: Opcode, s: seq<byte>): Option<(Eth, seq<byte>)> {
    match op
    case SendLastImm | SendOnlyImm | WriteLastImm =>
      (match TakeImm(s)
       case None => None
       case Some((imm, rest)) => Some((Immdt(imm), rest)))
    case WriteFirst | WriteOnly =>
      (match TakeReth(s)
       case None => None
       case Some((r, rest)) => Some((Reth(r.0, r.1, r.2), rest)))
    case WriteOnlyImm =>
      (match TakeReth(s)
       case None => None
       case Some((r, rest)) =>
         match TakeImm(rest)
         case None => None
         case Some((imm, last)) => Some((RethImmdt(r.0, r.1, r.2, imm), last)))
    case _ => Some((NoEth, s))
  }

  lemma {:induction false} ImmRoundTrip(imm: uint32, rest: seq<byte>)
    ensures TakeImm(Le32(imm) + rest) == Some((imm, rest))
  {
    Le32RoundTrip(imm);
    assert (Le32(imm) + rest)[..4] == Le32(imm) && (Le32(imm) + rest)[4..] == rest;
  }

  lemma {:induction false} RethRoundTrip(va: nat, rkey: uint32, dmalen: nat, rest: seq<byte>)
    requires va < Power(8) && dmalen < WORD
    ensures TakeReth(Be(va, 8) + Be(rkey, 4) + Be(dmalen, 4) + rest) == Some(((va, rkey, dmalen), rest))
  {
    var s := Be(va, 8) + Be(rkey, 4) + Be(dmalen, 4) + rest;
    Powers();
    BeRoundTrip(va, 8);
    BeRoundTrip(rkey, 4);
    BeRoundTrip(dmalen, 4);
    assert s[..8] == Be(va, 8) && s[8..12] == Be(rkey, 4) && s[12..16] == Be(dmalen, 4) && s[16..] == rest;
  }

  /** The extended header is taken off as it was put on. */
  lemma {:induction false} EthRoundTrip(op: Opcode, eth: Eth, rest: seq<byte>)
    requires EthSuits(op, eth) && Served(op)
    ensures SplitEth(op, EncodeEth(eth) + rest) == Some((eth, rest))
  {
    match eth
    case NoEth => assert EncodeEth(eth) + rest == rest;
    case Immdt(imm) => ImmRoundTrip(imm, rest);
    case Ieth(_) =>
    case Reth(va, rkey, dmalen) => RethRoundTrip(va, rkey, dmalen, rest);
    case RethImmdt(va, rkey, dmalen, imm) =>
      Assoc(Be(va, 8) + Be(rkey, 4) + Be(dmalen, 4), Le32(imm), rest);
      RethRoundTrip(va, rkey, dmalen, Le32(imm) + rest);
      ImmRoundTrip(imm, rest);
  }

  // ----- addressing

  const ETH_SIZE := 14
  const IP4_SIZE := 20
  const IP6_SIZE := 40
  const UDP_SIZE := 8
  const ICRC_SIZE := 4
  const TYPE_IP4 := 0x0800
  const TYPE_IP6 := 0x86DD
  const PORT := 4791

  datatype IpPath =
    | Ip4(ttl: byte, checksum: seq<byte>, saddr: seq<byte>, daddr: seq<byte>)
    | Ip6(tclass: byte, hop: byte, saddr: seq<byte>, daddr: seq<byte>)

  predicate PathOk(p: IpPath) {
    if p.Ip4? then |p.checksum| == 2 && |p.saddr| == 4 && |p.daddr| == 4 else |p.saddr| == 16 && |p.daddr| == 16
  }

  function IpSize(v4: bool): nat { if v4 then IP4_SIZE else IP6_SIZE }

  /** len counts the bytes after the UDP header, without the invariant CRC. */
  function IpHeader(p: IpPath, len: nat): (s: seq<byte>)
    requires PathOk(p)
    ensures |s| == IpSize(p.Ip4?)
    ensures p.Ip4? ==> s[0] == 0x45
  {
    match p
    case Ip4(ttl, checksum, saddr, daddr) =>
      [0x45, 0] + Be(IP4_SIZE + UDP_SIZE + len + ICRC_SIZE, 2) + [0, 0, 0x40, 0, ttl, 17] + checksum + saddr + daddr
    case Ip6(tclass, hop, saddr, daddr) =>
      Be(0x6000_0000 + 0x10_0000 * tclass, 4) + Be(UDP_SIZE + len + ICRC_SIZE, 2) + [17, hop] + saddr + daddr
  }

  function UdpHeader(len: nat): (s: seq<byte>)
    ensures |s| == UDP_SIZE
  {
    Be(PORT, 2) + Be(PORT, 2) + Be(UDP_SIZE + len + ICRC_SIZE, 2) + [0, 0]
  }

  // ----- what the invariant CRC masks

  /** IPv4: type of service, time to live, checksum; IPv6: the whole first word becomes
      version 6 and ones, and the hop limit. */
  function MaskIp(v4: bool, s: seq<byte>): (r: seq<byte>)
    requires |s| == IpSize(v4)
    ensures |r| == |s|
  {
    if v4 then s[1 := 255][8 := 255][10 := 255][11 := 255]
    else [0x6f, 255, 255, 255] + s[4..7] + [255] + s[8..]
  }

  function MaskUdp(s: seq<byte>): (r: seq<byte>)
    requires |s| == UDP_SIZE
    ensures |r| == |s|
  {
    s[6 := 255][7 := 255]
  }

  function MaskBth(s: seq<byte>): (r: seq<byte>)
    requires |s| == BTH_SIZE
    ensures |r| == |s|
  {
    s[4 := 255]
  }
}
