/**
 The vector of a packet that is sent: one slot for each header, the payload's slots, and
 one each for the padding and the invariant CRC.  Flattened it is the frame.
 */
module Layout {
  import opened Psn
  import opened Types
  import opened Scatter
  import opened Headers
  import opened Wire

  const SLOT_VNET := 0
  const SLOT_ETHERNET := 1
  const SLOT_IP := 2
  const SLOT_UDP := 3
  const SLOT_BTH := 4
  const SLOT_ETH := 5
  const SLOT_PAYLOAD := 6

  /** Where the parts of a packet lie in memory; vnetSize is the prefix's size or 0. */
  datatype Places = Places(
    vnet: nat, vnetSize: nat, ethernet: nat, ip: nat, udp: nat, bth: nat, pad: nat, icrc: nat)

  predicate PlacesOk(pl: Places) {
    pl.vnet > 0 && pl.ethernet > 0 && pl.ip > 0 && pl.udp > 0 && pl.bth > 0 && pl.pad > 0 && pl.icrc > 0
  }

  const Unused := Iovec(0, 0)

  function SlotOf(base: nat, size: nat): Iovec { if size > 0 then Iovec(base, size) else Unused }

  function Blank(pages: nat): seq<Iovec> { seq(pages, _ => Unused) }

  /** The slots with the extended header and the payload in place; ip is the slot of the
      IP header. */
  function Slots(pl: Places, ip: Iovec, ext: Iovec, payload: seq<Iovec>, padcnt: nat): seq<Iovec> {
    [SlotOf(pl.vnet, pl.vnetSize), Iovec(pl.ethernet, ETH_SIZE), ip,
     Iovec(pl.udp, UDP_SIZE), Iovec(pl.bth, BTH_SIZE), ext]
    + (payload + [SlotOf(pl.pad, padcnt), Iovec(pl.icrc, ICRC_SIZE)])
  }

  /** The count of pages is passed on in 16 bits. */
  function Narrow(pages: nat): nat { pages % 0x1_0000 }

  /** A new packet has room for its pages, as far as 16 bits count them; the IP, extended
      header and payload slots are filled later. */
  method Alloc(pl: Places, pages: nat, padcnt: nat) returns (iovs: array<Iovec>)
    ensures fresh(iovs) && iovs.Length == Narrow(pages) + 8
    ensures iovs[..] == Slots(pl, Unused, Unused, Blank(Narrow(pages)), padcnt)
  {
    var n := Narrow(pages) + 8;
    iovs := new Iovec[n](_ => Unused);
    if pl.vnetSize > 0 {
      iovs[SLOT_VNET] := Iovec(pl.vnet, pl.vnetSize);
    }
    iovs[SLOT_ETHERNET] := Iovec(pl.ethernet, ETH_SIZE);
    iovs[SLOT_UDP] := Iovec(pl.udp, UDP_SIZE);
    iovs[SLOT_BTH] := Iovec(pl.bth, BTH_SIZE);
    if padcnt > 0 {
      iovs[n - 2] := Iovec(pl.pad, padcnt);
    }
    iovs[n - 1] := Iovec(pl.icrc, ICRC_SIZE);
    ghost var goal := Slots(pl, Unused, Unused, Blank(Narrow(pages)), padcnt);
    assert forall i :: SLOT_PAYLOAD <= i < n - 2 ==> iovs[i] == goal[i];
  }

  /** The part of the vector that the UDP length counts, from the base transport header to
      the padding; and the part that the invariant CRC covers besides the headers. */
  lemma {:induction false} Counts(pl: Places, ip: Iovec, ext: Iovec, payload: seq<Iovec>, padcnt: nat)
    ensures var s := Slots(pl, ip, ext, payload, padcnt); var body := [ext] + payload + [SlotOf(pl.pad, padcnt)];
      && |s| == |payload| + 8
      && s[SLOT_BTH..][..|s| - SLOT_UDP - 2] == [Iovec(pl.bth, BTH_SIZE)] + body
      && s[SLOT_ETH..][..|s| - SLOT_ETH - 1] == body
  {
  }

  /** The body of a packet: extended header, payload and padding. */
  function Body(mem: Mem, pl: Places, ext: Iovec, payload: seq<Iovec>, padcnt: nat): seq<byte> {
    Read(mem, Addrs([ext] + payload + [SlotOf(pl.pad, padcnt)]))
  }

  lemma {:induction false} BodyParts(mem: Mem, pl: Places, ext: Iovec, payload: seq<Iovec>, padcnt: nat)
    ensures Body(mem, pl, ext, payload, padcnt)
         == Read(mem, Range(ext.base, ext.len)) + Read(mem, Addrs(payload)) + Read(mem, Range(pl.pad, padcnt))
  {
    var pad := SlotOf(pl.pad, padcnt);
    AddrsSnoc([ext] + payload, pad);
    AddrsCons(ext, payload);
    ReadConcat(mem, Range(ext.base, ext.len) + Addrs(payload), Range(pad.base, pad.len));
    ReadConcat(mem, Range(ext.base, ext.len), Addrs(payload));
    assert Range(pad.base, pad.len) == Range(pl.pad, padcnt);
  }

  /** The parts of the headers and of the CRC stand where they belong. */
  predicate Holds(mem: Mem, pl: Places, v4: bool, h: Head, icrc: seq<byte>) {
    && HeadOk(v4, h) && |h.vnet| == pl.vnetSize && |icrc| == ICRC_SIZE
    && Read(mem, Range(pl.vnet, pl.vnetSize)) == h.vnet
    && Read(mem, Range(pl.ethernet, ETH_SIZE)) == EthHeader(v4, h)
    && Read(mem, Range(pl.ip, IpSize(v4))) == h.ip
    && Read(mem, Range(pl.udp, UDP_SIZE)) == h.udp
    && Read(mem, Range(pl.bth, BTH_SIZE)) == h.bth
    && Read(mem, Range(pl.icrc, ICRC_SIZE)) == icrc
  }

  lemma {:induction false} ReadCons(mem: Mem, e: Iovec, s: seq<Iovec>)
    ensures Read(mem, Addrs([e] + s)) == Read(mem, Range(e.base, e.len)) + Read(mem, Addrs(s))
  {
    AddrsCons(e, s);
    ReadConcat(mem, Range(e.base, e.len), Addrs(s));
  }

  lemma {:induction false} ReadSnoc(mem: Mem, s: seq<Iovec>, e: Iovec)
    ensures Read(mem, Addrs(s + [e])) == Read(mem, Addrs(s)) + Read(mem, Range(e.base, e.len))
  {
    AddrsSnoc(s, e);
    ReadConcat(mem, Addrs(s), Range(e.base, e.len));
  }

  /** The vector handed to the network reads as the frame. */
  lemma {:induction false} SlotsAreFrame(mem: Mem, pl: Places, v4: bool, h: Head, icrc: seq<byte>, ext: Iovec,
          payload: seq<Iovec>, padcnt: nat)
    requires Holds(mem, pl, v4, h, icrc)
    ensures Read(mem, Addrs(Slots(pl, Iovec(pl.ip, IpSize(v4)), ext, payload, padcnt)))
         == Bytes(v4, h, Body(mem, pl, ext, payload, padcnt), icrc)
  {
    var vnet, ethernet := SlotOf(pl.vnet, pl.vnetSize), Iovec(pl.ethernet, ETH_SIZE);
    var ip, udp, bth := Iovec(pl.ip, IpSize(v4)), Iovec(pl.udp, UDP_SIZE), Iovec(pl.bth, BTH_SIZE);
    var body := [ext] + payload + [SlotOf(pl.pad, padcnt)];
    var tail := body + [Iovec(pl.icrc, ICRC_SIZE)];
    assert Slots(pl, ip, ext, payload, padcnt) == [vnet] + ([ethernet] + ([ip] + ([udp] + ([bth] + tail))));
    assert Range(vnet.base, vnet.len) == Range(pl.vnet, pl.vnetSize);
    ReadSnoc(mem, body, Iovec(pl.icrc, ICRC_SIZE));
    ReadCons(mem, bth, tail);
    ReadCons(mem, udp, [bth] + tail);
    ReadCons(mem, ip, [udp] + ([bth] + tail));
    ReadCons(mem, ethernet, [ip] + ([udp] + ([bth] + tail)));
    ReadCons(mem, vnet, [ethernet] + ([ip] + ([udp] + ([bth] + tail))));
  }

  /** The sender's last step before a packet is queued: the lengths come from counting
      slots, the CRC from copies of the headers and the slots between the base transport
      header and the CRC itself, and the slot of the IP header is filled. */
  method Seal(p: IpPath, pl: Places, bth: seq<byte>, mem: Mem, iovs: array<Iovec>, ghost ext: Iovec,
          ghost payload: seq<Iovec>, ghost padcnt: nat)
    returns (ip: seq<byte>, udp: seq<byte>, icrc: seq<byte>)
    requires PathOk(p) && PlacesOk(pl) && |bth| == BTH_SIZE
    requires iovs[..] == Slots(pl, Unused, ext, payload, padcnt) && NullIsEmpty([ext] + payload)
    modifies iovs
    ensures iovs[..] == Slots(pl, Iovec(pl.ip, IpSize(p.Ip4?)), ext, payload, padcnt)
    ensures var body := Body(mem, pl, ext, payload, padcnt);
      && ip == IpHeader(p, BTH_SIZE + |body|) && udp == UdpHeader(BTH_SIZE + |body|)
      && icrc == Icrc(p.Ip4?, ip, [], udp, bth, body)
  {
    ghost var body := [ext] + payload + [SlotOf(pl.pad, padcnt)];
    Counts(pl, Unused, ext, payload, padcnt);
    BodyNull(pl, ext, payload, padcnt);
    ip, udp, icrc := SealHeaders(p, pl, bth, mem, iovs, body);
    SetIpSlot(pl, Iovec(pl.ip, IpSize(p.Ip4?)), iovs, ext, payload, padcnt);
  }

  /** body are the slots between the base transport header and the CRC. */
  method SealHeaders(p: IpPath, pl: Places, bth: seq<byte>, mem: Mem, iovs: array<Iovec>, ghost body: seq<Iovec>)
    returns (ip: seq<byte>, udp: seq<byte>, icrc: seq<byte>)
    requires PathOk(p) && |bth| == BTH_SIZE && NullIsEmpty(body) && iovs.Length >= 8
    requires iovs[SLOT_BTH..][..iovs.Length - SLOT_UDP - 2] == [Iovec(pl.bth, BTH_SIZE)] + body
    requires iovs[SLOT_ETH..][..iovs.Length - SLOT_ETH - 1] == body
    ensures ip == IpHeader(p, BTH_SIZE + |Addrs(body)|) && udp == UdpHeader(BTH_SIZE + |Addrs(body)|)
    ensures icrc == Icrc(p.Ip4?, ip, [], udp, bth, Read(mem, Addrs(body)))
  {
    var size := CountedLength(pl, iovs, body);
    ip, udp := IpHeader(p, size), UdpHeader(size);
    icrc := IcrcOfSlots(p.Ip4?, ip, udp, bth, mem, iovs, body);
  }

  /** The bytes from the base transport header to the padding. */
  method CountedLength(pl: Places, iovs: array<Iovec>, ghost body: seq<Iovec>) returns (size: nat)
    requires iovs.Length >= 8 && iovs[SLOT_BTH..][..iovs.Length - SLOT_UDP - 2] == [Iovec(pl.bth, BTH_SIZE)] + body
    ensures size == BTH_SIZE + |Addrs(body)|
  {
    AddrsCons(Iovec(pl.bth, BTH_SIZE), body);
    size := IovLen(iovs[SLOT_BTH..][..iovs.Length - SLOT_UDP - 2]);
  }

  lemma {:induction false} BodyNull(pl: Places, ext: Iovec, payload: seq<Iovec>, padcnt: nat)
    requires PlacesOk(pl) && NullIsEmpty([ext] + payload)
    ensures NullIsEmpty([ext] + payload + [SlotOf(pl.pad, padcnt)])
  {
  }

  method SetIpSlot(pl: Places, ip: Iovec, iovs: array<Iovec>, ghost ext: Iovec, ghost payload: seq<Iovec>,
          ghost padcnt: nat)
    requires iovs[..] == Slots(pl, Unused, ext, payload, padcnt)
    modifies iovs
    ensures iovs[..] == Slots(pl, ip, ext, payload, padcnt)
  {
    iovs[SLOT_IP] := ip;
  }

  method IcrcOfSlots(v4: bool, ip: seq<byte>, udp: seq<byte>, bth: seq<byte>, mem: Mem, iovs: array<Iovec>,
          ghost body: seq<Iovec>)
    returns (icrc: seq<byte>)
    requires |ip| == IpSize(v4) && |udp| == UDP_SIZE && |bth| == BTH_SIZE
    requires iovs.Length >= 8 && iovs[SLOT_ETH..][..iovs.Length - SLOT_ETH - 1] == body && NullIsEmpty(body)
    ensures icrc == Icrc(v4, ip, [], udp, bth, Read(mem, Addrs(body)))
  {
    var covered := Covered(iovs);
    var maskedIp, maskedBth;
    icrc, maskedIp, maskedBth := IcrcOf(v4, ip, [], udp, bth, mem, covered);
  }

  /** The slots that the CRC walks over. */
  method Covered(iovs: array<Iovec>) returns (part: array<Iovec>)
    requires iovs.Length >= 8
    ensures fresh(part) && part[..] == iovs[SLOT_ETH..][..iovs.Length - SLOT_ETH - 1]
  {
    var n := iovs.Length - SLOT_ETH - 1;
    part := new Iovec[n](i requires 0 <= i < n reads iovs => iovs[SLOT_ETH + i]);
  }
}
