/**
 What the invariant CRC covers, byte by byte, and which frames are taken.
 */
module Coverage {
  import opened Psn
  import opened Types
  import opened Scatter
  import opened Crc
  import opened Headers
  import opened Wire
  import Bits = CrcBits

  // ----- the masks

  /** IPv4: type of service, time to live and checksum count as ones, the rest as it is. */
  lemma {:induction false} Ip4Masked(s: seq<byte>, i: nat)
    requires |s| == 20 && i < 20
    ensures MaskIp(true, s)[i] == if i == 1 || i == 8 || i == 10 || i == 11 then 255 else s[i]
  {
  }

  /** IPv6: the first word counts as version 6 and ones, the hop limit as ones. */
  lemma {:induction false} Ip6Masked(s: seq<byte>, i: nat)
    requires |s| == 40 && i < 40
    ensures MaskIp(false, s)[i] == if i == 0 then 0x6f else if i < 4 || i == 7 then 255 else s[i]
  {
  }

  lemma {:induction false} UdpMasked(s: seq<byte>, i: nat)
    requires |s| == 8 && i < 8
    ensures MaskUdp(s)[i] == if i == 6 || i == 7 then 255 else s[i]
  {
  }

  lemma {:induction false} BthMasked(s: seq<byte>, i: nat)
    requires |s| == 12 && i < 12
    ensures MaskBth(s)[i] == if i == 4 then 255 else s[i]
  {
  }

  /** The bytes of an IP header that the CRC covers. */
  predicate IpCovered(v4: bool, i: nat) {
    if v4 then i < 20 && i != 1 && i != 8 && i != 10 && i != 11 else 4 <= i < 40 && i != 7
  }

  predicate IpAgrees(v4: bool, s: seq<byte>, t: seq<byte>) {
    |s| == |t| == (if v4 then 20 else 40) && forall i: nat :: i < |s| && IpCovered(v4, i) ==> s[i] == t[i]
  }

  predicate UdpAgrees(s: seq<byte>, t: seq<byte>) {
    |s| == |t| == 8 && forall i: nat :: i < 6 ==> s[i] == t[i]
  }

  predicate BthAgrees(s: seq<byte>, t: seq<byte>) {
    |s| == |t| == 12 && forall i: nat :: i < 12 && i != 4 ==> s[i] == t[i]
  }

  /** Headers count the same for the CRC exactly if they agree in the bytes covered. */
  lemma {:induction false} IpAlike(v4: bool, s: seq<byte>, t: seq<byte>)
    requires |s| == |t| == if v4 then 20 else 40
    ensures MaskIp(v4, s) == MaskIp(v4, t) <==> IpAgrees(v4, s, t)
  {
    if IpAgrees(v4, s, t) {
      forall i: nat | i < |s| ensures MaskIp(v4, s)[i] == MaskIp(v4, t)[i] {
        IpByte(v4, s, i);
        IpByte(v4, t, i);
        assert IpCovered(v4, i) ==> s[i] == t[i];
      }
    }
    if MaskIp(v4, s) == MaskIp(v4, t) {
      forall i: nat | i < |s| && IpCovered(v4, i) ensures s[i] == t[i] {
        IpByte(v4, s, i);
        IpByte(v4, t, i);
      }
    }
  }

  lemma {:induction false} IpByte(v4: bool, s: seq<byte>, i: nat)
    requires |s| == (if v4 then 20 else 40) && i < |s|
    ensures IpCovered(v4, i) ==> MaskIp(v4, s)[i] == s[i]
    ensures !IpCovered(v4, i) ==> MaskIp(v4, s)[i] == if !v4 && i == 0 then 0x6f else 255
  {
    if v4 {
      Ip4Masked(s, i);
    } else {
      Ip6Masked(s, i);
    }
  }

  lemma {:induction false} UdpAlike(s: seq<byte>, t: seq<byte>)
    requires |s| == |t| == 8
    ensures MaskUdp(s) == MaskUdp(t) <==> UdpAgrees(s, t)
  {
    forall i: nat | i < 8
      ensures MaskUdp(s)[i] == if i == 6 || i == 7 then 255 else s[i]
      ensures MaskUdp(t)[i] == if i == 6 || i == 7 then 255 else t[i]
    {
      UdpMasked(s, i);
      UdpMasked(t, i);
    }
  }

  lemma {:induction false} BthAlike(s: seq<byte>, t: seq<byte>)
    requires |s| == |t| == 12
    ensures MaskBth(s) == MaskBth(t) <==> BthAgrees(s, t)
  {
    forall i: nat | i < 12
      ensures MaskBth(s)[i] == if i == 4 then 255 else s[i]
      ensures MaskBth(t)[i] == if i == 4 then 255 else t[i]
    {
      BthMasked(s, i);
      BthMasked(t, i);
    }
  }

  // ----- the value

  lemma {:induction false} ByteStep(c: bv32, b: byte, x: bv32)
    requires x == b as bv32 && x < 256
    ensures ByteIn(c, b) == Bits.TableStep(c, x)
  {
    Bits.TableStepIsBits(c, x);
  }

  lemma {:induction false} OnesAsBits(b: byte)
    requires b == 255
    ensures b as bv32 == 0xff
  {
  }

  /** One byte of ones goes in; t is the entry of the table for it. */
  lemma {:induction false} OnesStep(c: bv32, i: bv32, t: bv32, next: bv32)
    requires i < 256 && (c ^ 0xff) & 0xff == i && Bits.Table(i) == t && next == t ^ (c >> 8)
    ensures ByteIn(c, 255) == next
  {
    OnesAsBits(255);
    ByteStep(c, 255, 0xff);
  }

  function Ones(n: nat): (s: seq<byte>)
    ensures |s| == n
  {
    seq(n, _ => 255)
  }

  lemma {:induction false} OnesHead(c: bv32, n: nat, next: bv32)
    requires n > 0 && ByteIn(c, 255) == next
    ensures Crc32(c, Ones(n)) == Crc32(next, Ones(n - 1))
  {
    assert Ones(n)[1..] == Ones(n - 1) && Ones(n)[0] == 255;
  }

  lemma {:induction false} Entry0()
    ensures Bits.Table(0) == 0
  {
  }

  lemma {:induction false} Entry255()
    ensures Bits.Table(255) == 0x2d02ef8d
  {
  }

  lemma {:induction false} Entry114()
    ensures Bits.Table(114) == 0xbe0b1010
  {
  }

  lemma {:induction false} Entry237()
    ensures Bits.Table(237) == 0xdebb9ec5
  {
  }

  /** The low byte is all ones: it goes, and the rest moves down. */
  lemma {:induction false} OnesGo(c: bv32, n: nat, next: bv32)
    requires n > 0 && c & 0xff == 0xff && next == c >> 8
    ensures Crc32(c, Ones(n)) == Crc32(next, Ones(n - 1))
  {
    Entry0();
    LowOnes(c);
    OnesStep(c, 0, 0, next);
    OnesHead(c, n, next);
  }

  lemma {:induction false} LowOnes(c: bv32)
    requires c & 0xff == 0xff
    ensures (c ^ 0xff) & 0xff == 0
  {
  }

  lemma {:induction false} FirstFour()
    ensures Crc32(0xffffffff, Ones(8)) == Crc32(0, Ones(4))
  {
    OnesGo(0xffffffff, 8, 0xffffff);
    OnesGo(0xffffff, 7, 0xffff);
    OnesGo(0xffff, 6, 0xff);
    OnesGo(0xff, 5, 0);
  }

  lemma {:induction false} LastFour()
    ensures Crc32(0, Ones(4)) == 0xdebb20e3
  {
    Entry255();
    OnesStep(0, 255, 0x2d02ef8d, 0x2d02ef8d);
    OnesHead(0, 4, 0x2d02ef8d);
    Entry114();
    OnesStep(0x2d02ef8d, 114, 0xbe0b1010, 0xbe2612ff);
    OnesHead(0x2d02ef8d, 3, 0xbe2612ff);
    Entry0();
    OnesStep(0xbe2612ff, 0, 0, 0xbe2612);
    OnesHead(0xbe2612ff, 2, 0xbe2612);
    Entry237();
    OnesStep(0xbe2612, 237, 0xdebb9ec5, 0xdebb20e3);
    OnesHead(0xbe2612, 1, 0xdebb20e3);
  }

  /** The start value is the state after the eight bytes of ones that stand for the masked
      local routing header. */
  lemma {:induction false} SeedIsOnes()
    ensures SEED == Crc32(0xffffffff, Ones(8))
  {
    FirstFour();
    LastFour();
  }

  /** The invariant CRC is the complement of the CRC-32, from all ones, of eight bytes of
      ones, the masked headers and the body, least significant byte first. */
  lemma {:induction false} IcrcIs(v4: bool, ip: seq<byte>, opts: seq<byte>, udp: seq<byte>, bth: seq<byte>,
          body: seq<byte>)
    requires |ip| == IpSize(v4) && |udp| == UDP_SIZE && |bth| == BTH_SIZE
    ensures var all := MaskIp(v4, ip) + opts + MaskUdp(udp) + MaskBth(bth) + body;
      Icrc(v4, ip, opts, udp, bth, body) == Le32(!Crc32(0xffffffff, Ones(8) + all) as uint32)
  {
    SeedIsOnes();
    CrcConcat(0xffffffff, Ones(8), MaskIp(v4, ip) + opts + MaskUdp(udp) + MaskBth(bth) + body);
  }

  // ----- frames that were altered

  /** The CRC does not see changes outside the bytes it covers. */
  lemma {:induction false} SameIcrc(v4: bool, h: Head, g: Head, opts: seq<byte>, body: seq<byte>)
    requires IpAgrees(v4, h.ip, g.ip) && UdpAgrees(h.udp, g.udp) && BthAgrees(h.bth, g.bth)
    ensures Icrc(v4, h.ip, opts, h.udp, h.bth, body) == Icrc(v4, g.ip, opts, g.udp, g.bth, body)
  {
    IpAlike(v4, h.ip, g.ip);
    UdpAlike(h.udp, g.udp);
    BthAlike(h.bth, g.bth);
  }

  /** g is h with other bytes where the CRC does not look: the prefix, the sender's Ethernet
      address, bytes 1, 8, 10 and 11 of an IPv4 or bytes 0 to 3 and 7 of an IPv6 header,
      bytes 6 and 7 of the UDP header and byte 4 of the transport header. */
  predicate Altered(v4: bool, h: Head, g: Head) {
    && |g.vnet| == |h.vnet| && g.dmac == h.dmac && |h.dmac| == |h.smac| == |g.smac| == 6
    && IpAgrees(v4, h.ip, g.ip) && UdpAgrees(h.udp, g.udp) && BthAgrees(h.bth, g.bth)
  }

  lemma {:induction false} AlteredExactly(v4: bool, h: Head, g: Head)
    ensures Altered(v4, h, g) <==> SameUnmasked(v4, h, g)
  {
    if Altered(v4, h, g) || SameUnmasked(v4, h, g) {
      IpAlike(v4, h.ip, g.ip);
      UdpAlike(h.udp, g.udp);
      BthAlike(h.bth, g.bth);
    }
  }

  /** A frame that was altered in these bytes is taken like the frame that was sent: a router
      that counts down the time to live does no harm. */
  lemma {:induction false} AlteredFrameIsTaken(smac: seq<byte>, p: IpPath, bth: seq<byte>, body: seq<byte>, h: Head,
          g: Head)
    requires PathOk(p) && |smac| == 6 && |h.dmac| == 6 && |bth| == BTH_SIZE
    requires UDP_SIZE + BTH_SIZE + |body| + ICRC_SIZE < 0x1_0000
    requires h == HeadOf(h.vnet, h.dmac, smac, p, bth, body) && Altered(p.Ip4?, h, g)
    ensures var icrc := Icrc(p.Ip4?, h.ip, [], h.udp, bth, body);
      && Decap(|h.vnet|, h.dmac, Bytes(p.Ip4?, h, body, icrc)).Taken?
      && Decap(|h.vnet|, h.dmac, Bytes(p.Ip4?, g, body, icrc)) == Decap(|h.vnet|, h.dmac, Bytes(p.Ip4?, h, body, icrc))
  {
    AlteredExactly(p.Ip4?, h, g);
    AlteredExactly(p.Ip4?, h, h);
    FrameRoundTrip(smac, p, bth, body, h, g);
    FrameRoundTrip(smac, p, bth, body, h, h);
  }

  // ----- which frames are taken

  function Number(high: nat, low: nat): nat { 256 * high + low }

  lemma {:induction false} TwoBytes(s: seq<byte>)
    requires |s| == 2
    ensures FromBe(s) == Number(s[0], s[1])
  {
    assert FromBe(s[..1]) == 256 * FromBe(s[..0]) + s[0];
  }

  lemma {:induction false} Within<T>(s: seq<T>, a: nat, n: nat)
    requires a + n <= |s|
    ensures s[a..][..n] == s[a..a + n] && s[a..][n..] == s[a + n..]
  {
  }

  /** From the UDP header at place u on: the lengths, the port and the CRC are right. */
  predicate PacketAt(v4: bool, ip: seq<byte>, opts: seq<byte>, s: seq<byte>, u: nat)
    requires |ip| == IpSize(v4)
  {
    && |s| >= u + 24
    && Number(s[u + 2], s[u + 3]) == 4791 && Number(s[u + 4], s[u + 5]) == |s| - u
    && s[|s| - 4..] == Icrc(v4, ip, opts, s[u..u + 8], s[u + 8..u + 20], s[u + 20..|s| - 4])
  }

  lemma {:induction false} BthParts(s: seq<byte>, w: nat)
    requires |s| >= w + 16
    ensures var s1 := s[w..][12..];
      && s[w..][..12] == s[w..w + 12] && |s1| == |s| - w - 12
      && s1[..|s1| - 4] == s[w + 12..|s| - 4] && s1[|s1| - 4..] == s[|s| - 4..]
  {
    Within(s, w, 12);
    LastOf(s, w + 12, 4);
  }

  lemma {:induction false} BthDecapped(v4: bool, ip: seq<byte>, opts: seq<byte>, udp: seq<byte>, t: seq<byte>,
          bth: seq<byte>, body: seq<byte>, icrc: seq<byte>)
    requires |ip| == IpSize(v4) && |udp| == UDP_SIZE && |t| >= 16 && bth == t[..12]
    requires var s1 := t[12..]; body == s1[..|s1| - 4] && icrc == s1[|s1| - 4..]
    ensures DecapBth(v4, ip, opts, udp, t) ==
      if icrc != Icrc(v4, ip, opts, udp, bth, body) then None
      else Some((Frame(v4, MaskIp(v4, ip), MaskBth(bth)), body))
  {
  }

  lemma {:induction false} BthExactly(v4: bool, ip: seq<byte>, opts: seq<byte>, udp: seq<byte>, s: seq<byte>, w: nat)
    requires |ip| == IpSize(v4) && |udp| == UDP_SIZE && w <= |s|
    ensures var r := DecapBth(v4, ip, opts, udp, s[w..]);
      && (r.Some? <==> |s| >= w + 16
                       && s[|s| - 4..] == Icrc(v4, ip, opts, udp, s[w..w + 12], s[w + 12..|s| - 4]))
      && (r.Some? ==> r.value == (Frame(v4, MaskIp(v4, ip), MaskBth(s[w..w + 12])), s[w + 12..|s| - 4]))
  {
    if |s| >= w + 16 {
      BthParts(s, w);
      BthDecapped(v4, ip, opts, udp, s[w..], s[w..w + 12], s[w + 12..|s| - 4], s[|s| - 4..]);
    }
  }

  lemma {:induction false} LastOf<T>(s: seq<T>, a: nat, n: nat)
    requires a + n <= |s|
    ensures var t := s[a..]; t[..|t| - n] == s[a..|s| - n] && t[|t| - n..] == s[|s| - n..]
  {
  }

  lemma {:induction false} UdpExactly(v4: bool, ip: seq<byte>, opts: seq<byte>, s: seq<byte>, u: nat)
    requires |ip| == IpSize(v4) && u <= |s|
    ensures var r := DecapUdp(v4, ip, opts, s[u..]);
      && (r.Some? <==> PacketAt(v4, ip, opts, s, u))
      && (r.Some? ==> r.value == (Frame(v4, MaskIp(v4, ip), MaskBth(s[u + 8..u + 20])), s[u + 20..|s| - 4]))
  {
    if |s| >= u + 8 {
      Within(s, u, 8);
      var udp := s[u..u + 8];
      assert udp[2..4] == [s[u + 2], s[u + 3]] && udp[4..6] == [s[u + 4], s[u + 5]];
      TwoBytes(udp[2..4]);
      TwoBytes(udp[4..6]);
      BthExactly(v4, ip, opts, udp, s, u + 8);
    }
  }

  /** How many bytes of options an IPv4 header at place a announces, as far as there are any. */
  function Options(s: seq<byte>, a: nat): nat
    requires a + 20 <= |s|
  {
    var words: nat := s[a] % 16;
    Min((4 * words - 20) % 256, |s| - a - 20)
  }

  /** From the IP header at place a on, of the type that the two bytes give: an IPv4 or an
      IPv6 header, and a packet after it. */
  predicate IpAt(s: seq<byte>, a: nat, high: byte, low: byte)
    requires a <= |s|
  {
    || (high == 0x08 && low == 0x00 && |s| >= a + 20 && Options(s, a) <= 60
        && PacketAt(true, s[a..a + 20], s[a + 20..a + 20 + Options(s, a)], s, a + 20 + Options(s, a)))
    || (high == 0x86 && low == 0xdd && |s| >= a + 40 && PacketAt(false, s[a..a + 40], [], s, a + 40))
  }

  /** A frame for the port at mac. */
  predicate Acceptable(vnet: nat, mac: seq<byte>, s: seq<byte>) {
    && |s| >= vnet + 14 && s[vnet..vnet + 6] == mac
    && IpAt(s, vnet + 14, s[vnet + 12], s[vnet + 13])
  }

  /** Where the UDP header begins. */
  function UdpPlace(s: seq<byte>, a: nat, high: byte): nat
    requires |s| >= a + 20
  {
    if high == 0x08 then a + 20 + Options(s, a) else a + 40
  }

  /** What is taken of a frame whose UDP header begins at u. */
  predicate TakenFrom(d: Decapped, v4: bool, ip: seq<byte>, s: seq<byte>, u: nat)
    requires |ip| == IpSize(v4)
  {
    && |s| >= u + 24 && d.Taken?
    && d.frame == Frame(v4, MaskIp(v4, ip), MaskBth(s[u + 8..u + 20])) && d.body == s[u + 20..|s| - 4]
  }

  lemma {:induction false} LiftedFrom(v4: bool, ip: seq<byte>, opts: seq<byte>, s: seq<byte>, u: nat)
    requires |ip| == IpSize(v4) && u <= |s|
    ensures var d := Lift(DecapUdp(v4, ip, opts, s[u..]));
      && (d.Taken? <==> PacketAt(v4, ip, opts, s, u)) && (d.Taken? ==> TakenFrom(d, v4, ip, s, u))
  {
    UdpExactly(v4, ip, opts, s, u);
  }

  lemma {:induction false} OptionsCut(s: seq<byte>, a: nat, ip: seq<byte>, opts: seq<byte>, u: nat)
    requires a + 20 <= |s| && ip == s[a..a + 20] && u == a + 20 + Options(s, a) && opts == s[a + 20..u]
    ensures Cut(s[a + 20..], OptionsSize(ip)) == (opts, s[u..])
  {
    var s1, o := s[a + 20..], Options(s, a);
    assert ip[0] == s[a];
    Within(s, a + 20, o);
    assert o == |s1| ==> s1[..o] == s1 && s1[o..] == [];
  }

  lemma {:induction false} Ip4Cut(s: seq<byte>, a: nat, ip: seq<byte>, opts: seq<byte>, u: nat)
    requires a + 20 <= |s| && ip == s[a..a + 20] && u == a + 20 + Options(s, a) && opts == s[a + 20..u]
    ensures DecapIp(TYPE_IP4, s[a..]) == if |opts| > 60 then Overrun else Lift(DecapUdp(true, ip, opts, s[u..]))
  {
    var s0 := s[a..];
    assert s0[..20] == ip && s0[20..] == s[a + 20..] by { Within(s, a, 20); }
    assert Cut(s0[20..], OptionsSize(ip)) == (opts, s[u..]) by { OptionsCut(s, a, ip, opts, u); }
  }

  lemma {:induction false} Ip4Exactly(s: seq<byte>, a: nat, ip: seq<byte>, opts: seq<byte>, u: nat)
    requires a + 20 <= |s| && ip == s[a..a + 20] && u == a + 20 + Options(s, a) && opts == s[a + 20..u]
    ensures var d := DecapIp(TYPE_IP4, s[a..]);
      && (d.Taken? <==> Options(s, a) <= 60 && PacketAt(true, ip, opts, s, u))
      && (d.Taken? ==> TakenFrom(d, true, ip, s, u))
  {
    Ip4Cut(s, a, ip, opts, u);
    LiftedFrom(true, ip, opts, s, u);
  }

  lemma {:induction false} Ip6Exactly(s: seq<byte>, a: nat)
    requires a + 40 <= |s|
    ensures var d, ip := DecapIp(TYPE_IP6, s[a..]), s[a..a + 40];
      && (d.Taken? <==> PacketAt(false, ip, [], s, a + 40)) && (d.Taken? ==> TakenFrom(d, false, ip, s, a + 40))
  {
    Within(s, a, 40);
    LiftedFrom(false, s[a..a + 40], [], s, a + 40);
  }

  lemma {:induction false} EthExactly(vnet: nat, mac: seq<byte>, s: seq<byte>)
    requires |s| >= vnet + 14
    ensures Decap(vnet, mac, s) ==
      if s[vnet..vnet + 6] != mac then Dropped
      else DecapIp(Number(s[vnet + 12], s[vnet + 13]), s[vnet + 14..])
  {
    var eth := s[vnet..][..14];
    Within(s, vnet, 14);
    assert eth[..6] == s[vnet..vnet + 6] && eth[12..14] == [s[vnet + 12], s[vnet + 13]];
    TwoBytes(eth[12..14]);
  }

  lemma {:induction false} KindBytes(high: byte, low: byte)
    ensures Number(high, low) == TYPE_IP4 <==> high == 0x08 && low == 0x00
    ensures Number(high, low) == TYPE_IP6 <==> high == 0x86 && low == 0xdd
  {
  }

  /** The transport header and the body that are taken where the UDP header begins at u. */
  predicate Takes(d: Decapped, s: seq<byte>, u: nat) {
    |s| >= u + 24 && d.Taken? && d.frame.bth == MaskBth(s[u + 8..u + 20]) && d.body == s[u + 20..|s| - 4]
  }

  lemma {:induction false} IpExactly(s: seq<byte>, a: nat, high: byte, low: byte)
    requires a <= |s|
    ensures var d := DecapIp(Number(high, low), s[a..]);
      && (d.Taken? <==> IpAt(s, a, high, low))
      && (d.Taken? ==> |s| >= a + 20 && Takes(d, s, UdpPlace(s, a, high)))
  {
    KindBytes(high, low);
    if high == 0x08 && low == 0x00 {
      if |s| >= a + 20 {
        var u := a + 20 + Options(s, a);
        Ip4Exactly(s, a, s[a..a + 20], s[a + 20..u], u);
      }
    } else if high == 0x86 && low == 0xdd {
      if |s| >= a + 40 {
        Ip6Exactly(s, a);
      }
    }
  }

  /** A frame is taken exactly if its address, type, lengths, port and CRC are right, and what
      is taken of it are the transport header and the bytes between that and the CRC. */
  lemma {:induction false} TakenExactly(vnet: nat, mac: seq<byte>, s: seq<byte>)
    ensures var d := Decap(vnet, mac, s);
      && (d.Taken? <==> Acceptable(vnet, mac, s))
      && (d.Taken? ==> |s| >= vnet + 34 && Takes(d, s, UdpPlace(s, vnet + 14, s[vnet + 12])))
  {
    if |s| >= vnet + 14 {
      EthExactly(vnet, mac, s);
      IpExactly(s, vnet + 14, s[vnet + 12], s[vnet + 13]);
    }
  }
}
