/**
 Encapsulation and decapsulation: a packet as a frame on the network, and what the
 receiver makes of a frame, however its bytes are spread over buffers.
 */
module Wire {
  import opened Psn
  import opened Types
  import opened Scatter
  import opened Crc
  import opened Headers

  const SEED: bv32 := 0xdebb20e3

  function Inverted(c: bv32): (s: seq<byte>)
    ensures |s| == ICRC_SIZE
  {
    Le32(!c as uint32)
  }

  /** The invariant CRC of a packet; opts are the options of an IPv4 header, body is what
      follows the base transport header. */
  function Icrc(v4: bool, ip: seq<byte>, opts: seq<byte>, udp: seq<byte>, bth: seq<byte>,
          body: seq<byte>): (s: seq<byte>)
    requires |ip| == IpSize(v4) && |udp| == UDP_SIZE && |bth| == BTH_SIZE
    ensures |s| == ICRC_SIZE
  {
    Inverted(Crc32(SEED, MaskIp(v4, ip) + opts + MaskUdp(udp) + MaskBth(bth) + body))
  }

  /** What the receiver keeps of the headers; the masks stay in place. */
  datatype Frame = Frame(v4: bool, ip: seq<byte>, bth: seq<byte>)

  /** A frame is dropped or taken; or its IP options do not fit the array they are copied
      to, and nothing can be said of what follows. */
  datatype Decapped = Dropped | Overrun | Taken(frame: Frame, body: seq<byte>)

  /** The size of that array: fifteen words. */
  const OPTIONS_ROOM := 60

  function Lift(r: Option<(Frame, seq<byte>)>): Decapped {
    match r
    case None => Dropped
    case Some((f, body)) => Taken(f, body)
  }

  /** From the base transport header on. */
  function DecapBth(v4: bool, ip: seq<byte>, opts: seq<byte>, udp: seq<byte>, s: seq<byte>): Option<(Frame, seq<byte>)>
    requires |ip| == IpSize(v4) && |udp| == UDP_SIZE
  {
    if |s| < BTH_SIZE + ICRC_SIZE then None
    else
      var bth, s1 := s[..BTH_SIZE], s[BTH_SIZE..];
      var body, icrc := s1[..|s1| - ICRC_SIZE], s1[|s1| - ICRC_SIZE..];
      if icrc != Icrc(v4, ip, opts, udp, bth, body) then None
      else Some((Frame(v4, MaskIp(v4, ip), MaskBth(bth)), body))
  }

  /** From the UDP header on. */
  function DecapUdp(v4: bool, ip: seq<byte>, opts: seq<byte>, s: seq<byte>): Option<(Frame, seq<byte>)>
    requires |ip| == IpSize(v4)
  {
    if |s| < UDP_SIZE then None
    else
      var udp, s1 := s[..UDP_SIZE], s[UDP_SIZE..];
      if FromBe(udp[2..4]) != PORT || FromBe(udp[4..6]) != UDP_SIZE + |s1| then None
      else DecapBth(v4, ip, opts, udp, s1)
  }

  function Cut(s: seq<byte>, n: nat): (seq<byte>, seq<byte>) {
    if n <= |s| then (s[..n], s[n..]) else (s, [])
  }

  /** The length of the options, as the 8-bit subtraction makes it. */
  function OptionsSize(ip: seq<byte>): nat
    requires |ip| == IP4_SIZE
  {
    (4 * (ip[0] % 16) - IP4_SIZE) % 256
  }

  /** From the IP header on; kind is the type that the Ethernet header gives. */
  function DecapIp(kind: nat, s: seq<byte>): Decapped {
    if kind == TYPE_IP4 then
      if |s| < IP4_SIZE then Dropped
      else
        var ip, s1 := s[..IP4_SIZE], s[IP4_SIZE..];
        var (opts, s2) := Cut(s1, OptionsSize(ip));
        if |opts| > OPTIONS_ROOM then Overrun else Lift(DecapUdp(true, ip, opts, s2))
    else if kind == TYPE_IP6 then
      if |s| < IP6_SIZE then Dropped else Lift(DecapUdp(false, s[..IP6_SIZE], [], s[IP6_SIZE..]))
    else Dropped
  }

  /** vnet is the size of the prefix before the Ethernet header, mac the address of the
      receiving port. */
  function Decap(vnet: nat, mac: seq<byte>, s: seq<byte>): Decapped {
    if |s| < vnet + ETH_SIZE then Dropped
    else
      var eth, s1 := s[vnet..][..ETH_SIZE], s[vnet..][ETH_SIZE..];
      if eth[..6] != mac then Dropped else DecapIp(FromBe(eth[12..14]), s1)
  }

  /** The options overrun their array exactly for an IPv4 frame to this port whose header
      length is below five words and that has more than sixty bytes after that header. */
  lemma {:induction false} OverrunExactly(vnet: nat, mac: seq<byte>, s: seq<byte>)
    ensures Decap(vnet, mac, s).Overrun? <==>
      && |s| > vnet + ETH_SIZE + IP4_SIZE + OPTIONS_ROOM
      && s[vnet..vnet + 6] == mac && FromBe(s[vnet + 12..vnet + 14]) == TYPE_IP4
      && s[vnet + ETH_SIZE] % 16 < 5
  {
    if |s| >= vnet + ETH_SIZE + IP4_SIZE {
      var eth, s1 := s[vnet..][..ETH_SIZE], s[vnet..][ETH_SIZE..];
      assert eth[..6] == s[vnet..vnet + 6] && eth[12..14] == s[vnet + 12..vnet + 14];
      assert s1[..IP4_SIZE][0] == s[vnet + ETH_SIZE];
    }
  }

  // ----- sending

  /** Everything up to the base transport header, with the bytes that may change on the way:
      the prefix, the sender's address, and whatever the masks cover. */
  datatype Head = Head(vnet: seq<byte>, dmac: seq<byte>, smac: seq<byte>, ip: seq<byte>, udp: seq<byte>, bth: seq<byte>)

  predicate HeadOk(v4: bool, h: Head) {
    |h.dmac| == 6 && |h.smac| == 6 && |h.ip| == IpSize(v4) && |h.udp| == UDP_SIZE && |h.bth| == BTH_SIZE
  }

  function HeadOf(vnet: seq<byte>, dmac: seq<byte>, smac: seq<byte>, p: IpPath, bth: seq<byte>,
          body: seq<byte>): (h: Head)
    requires |dmac| == 6 && |smac| == 6 && PathOk(p) && |bth| == BTH_SIZE
    ensures HeadOk(p.Ip4?, h)
  {
    Head(vnet, dmac, smac, IpHeader(p, BTH_SIZE + |body|), UdpHeader(BTH_SIZE + |body|), bth)
  }

  function EthHeader(v4: bool, h: Head): seq<byte> {
    h.dmac + h.smac + Be(if v4 then TYPE_IP4 else TYPE_IP6, 2)
  }

  function Bytes(v4: bool, h: Head, body: seq<byte>, icrc: seq<byte>): seq<byte> {
    h.vnet + (EthHeader(v4, h) + (h.ip + (h.udp + (h.bth + (body + icrc)))))
  }

  /** g is h after changes that the masks hide: the virtual-network prefix, the sender's
      Ethernet address, time to live, type of service, checksums, flow label, hop limit,
      congestion and reserved bits. */
  predicate SameUnmasked(v4: bool, h: Head, g: Head) {
    && HeadOk(v4, h) && HeadOk(v4, g)
    && |g.vnet| == |h.vnet| && g.dmac == h.dmac
    && MaskIp(v4, g.ip) == MaskIp(v4, h.ip)
    && MaskUdp(g.udp) == MaskUdp(h.udp)
    && MaskBth(g.bth) == MaskBth(h.bth)
  }

  lemma {:induction false} CutFront<T>(a: seq<T>, b: seq<T>)
    ensures (a + b)[..|a|] == a && (a + b)[|a|..] == b
  {
  }

  lemma {:induction false} CutBack<T>(a: seq<T>, b: seq<T>)
    ensures (a + b)[..|a + b| - |b|] == a && (a + b)[|a + b| - |b|..] == b
  {
  }

  lemma {:induction false} DecapBthTakes(v4: bool, ip: seq<byte>, opts: seq<byte>, udp: seq<byte>, bth: seq<byte>,
          body: seq<byte>, icrc: seq<byte>)
    requires |ip| == IpSize(v4) && |udp| == UDP_SIZE && |bth| == BTH_SIZE
    requires icrc == Icrc(v4, ip, opts, udp, bth, body)
    ensures DecapBth(v4, ip, opts, udp, bth + (body + icrc)) == Some((Frame(v4, MaskIp(v4, ip), MaskBth(bth)), body))
  {
    CutFront(bth, body + icrc);
    CutBack(body, icrc);
  }

  lemma {:induction false} DecapUdpTakes(v4: bool, ip: seq<byte>, opts: seq<byte>, udp: seq<byte>, s: seq<byte>)
    requires |ip| == IpSize(v4) && |udp| == UDP_SIZE
    requires FromBe(udp[2..4]) == PORT && FromBe(udp[4..6]) == UDP_SIZE + |s|
    ensures DecapUdp(v4, ip, opts, udp + s) == DecapBth(v4, ip, opts, udp, s)
  {
    CutFront(udp, s);
  }

  lemma {:induction false} EthFields(v4: bool, h: Head)
    requires HeadOk(v4, h)
    ensures var eth := EthHeader(v4, h);
      |eth| == ETH_SIZE && eth[..6] == h.dmac && FromBe(eth[12..14]) == if v4 then TYPE_IP4 else TYPE_IP6
  {
    var t := Be(if v4 then TYPE_IP4 else TYPE_IP6, 2);
    Powers();
    BeRoundTrip(if v4 then TYPE_IP4 else TYPE_IP6, 2);
    assert EthHeader(v4, h)[..6] == h.dmac && EthHeader(v4, h)[12..14] == t;
  }

  lemma {:induction false} NoOptions(ip: seq<byte>, tail: seq<byte>)
    requires |ip| == IP4_SIZE && ip[0] == 0x45
    ensures Cut(tail, OptionsSize(ip)) == ([], tail)
  {
    assert OptionsSize(ip) == 0;
    assert tail[..0] == [] && tail[0..] == tail;
  }

  lemma {:induction false} DecapIpHead(v4: bool, ip: seq<byte>, tail: seq<byte>)
    requires |ip| == IpSize(v4) && (v4 ==> ip[0] == 0x45)
    ensures DecapIp(if v4 then TYPE_IP4 else TYPE_IP6, ip + tail) == Lift(DecapUdp(v4, ip, [], tail))
  {
    CutFront(ip, tail);
    if v4 {
      NoOptions(ip, tail);
    }
  }

  lemma {:induction false} DecapHead(v4: bool, h: Head, tail: seq<byte>)
    requires HeadOk(v4, h) && (v4 ==> h.ip[0] == 0x45)
    ensures Decap(|h.vnet|, h.dmac, h.vnet + (EthHeader(v4, h) + (h.ip + tail))) == Lift(DecapUdp(v4, h.ip, [], tail))
  {
    EthFields(v4, h);
    CutFront(h.vnet, EthHeader(v4, h) + (h.ip + tail));
    CutFront(EthHeader(v4, h), h.ip + tail);
    DecapIpHead(v4, h.ip, tail);
  }

  lemma {:induction false} UdpFields(udp: seq<byte>, len: nat)
    requires |udp| == UDP_SIZE && MaskUdp(udp) == MaskUdp(UdpHeader(len)) && UDP_SIZE + len + ICRC_SIZE < 0x1_0000
    ensures FromBe(udp[2..4]) == PORT && FromBe(udp[4..6]) == UDP_SIZE + len + ICRC_SIZE
  {
    Powers();
    BeRoundTrip(PORT, 2);
    BeRoundTrip(UDP_SIZE + len + ICRC_SIZE, 2);
    assert udp[2..4] == MaskUdp(udp)[2..4] && udp[4..6] == MaskUdp(udp)[4..6];
    assert MaskUdp(UdpHeader(len))[2..4] == Be(PORT, 2);
    assert MaskUdp(UdpHeader(len))[4..6] == Be(UDP_SIZE + len + ICRC_SIZE, 2);
  }

  /** Round trip: a frame that was built for IPv4 or IPv6 is taken by the port it was sent
      to, and gives back the base transport header, masks on, and the rest of the packet;
      also after changes on the way that stay under the masks. */
  lemma {:induction false} FrameRoundTrip(smac: seq<byte>, p: IpPath, bth: seq<byte>, body: seq<byte>, h: Head, g: Head)
    requires PathOk(p) && |smac| == 6 && |h.dmac| == 6 && |bth| == BTH_SIZE
    requires UDP_SIZE + BTH_SIZE + |body| + ICRC_SIZE < 0x1_0000
    requires h == HeadOf(h.vnet, h.dmac, smac, p, bth, body) && SameUnmasked(p.Ip4?, h, g)
    ensures Decap(|h.vnet|, h.dmac, Bytes(p.Ip4?, g, body, Icrc(p.Ip4?, h.ip, [], h.udp, bth, body)))
         == Taken(Frame(p.Ip4?, MaskIp(p.Ip4?, h.ip), MaskBth(bth)), body)
  {
    var v4 := p.Ip4?;
    var icrc := Icrc(v4, h.ip, [], h.udp, bth, body);
    assert v4 ==> g.ip[0] == MaskIp(v4, g.ip)[0] == h.ip[0];
    DecapHead(v4, g, g.udp + (g.bth + (body + icrc)));
    UdpFields(g.udp, BTH_SIZE + |body|);
    DecapUdpTakes(v4, g.ip, [], g.udp, g.bth + (body + icrc));
    DecapBthTakes(v4, g.ip, [], g.udp, g.bth, body, icrc);
  }

  // ----- the code

  lemma {:induction false} ReadCut(mem: Mem, a: seq<nat>, k: nat)
    requires k <= |a|
    ensures Read(mem, a[..k]) == Read(mem, a)[..k] && Read(mem, a[k..]) == Read(mem, a)[k..]
  {
  }

  lemma {:induction false} CutAll(s: seq<byte>, n: nat)
    ensures var k := if n <= |s| then n else |s|;
      Cut(s, n).0 == s[..k] && Cut(s, n).1 == s[k..]
  {
  }

  /** The first bytes of the buffers, or all there is. */
  method Take(mem: Mem, iovs: array<Iovec>, n: nat) returns (part: seq<byte>)
    requires NullIsEmpty(iovs[..])
    modifies iovs
    ensures NullIsEmpty(iovs[..])
    ensures var s := Read(mem, old(Addrs(iovs[..])));
      part == Cut(s, n).0 && Read(mem, Addrs(iovs[..])) == Cut(s, n).1
  {
    ghost var a := Addrs(iovs[..]);
    part := IovAdvance(mem, iovs, n);
    ReadCut(mem, a, Min(n, |a|));
    CutAll(Read(mem, a), n);
  }

  /** The last bytes of the buffers, or all there is. */
  method TakeLast(mem: Mem, iovs: array<Iovec>, n: nat) returns (part: seq<byte>)
    requires NullIsEmpty(iovs[..])
    modifies iovs
    ensures NullIsEmpty(iovs[..])
    ensures var s := Read(mem, old(Addrs(iovs[..])));
      part == s[Less(|s|, n)..] && Read(mem, Addrs(iovs[..])) == s[..Less(|s|, n)]
  {
    ghost var a := Addrs(iovs[..]);
    ReadCut(mem, a, Less(|a|, n));
    part := IovReverse(mem, iovs, n);
  }

  method CrcOf(ip: seq<byte>, opts: seq<byte>, udp: seq<byte>, bth: seq<byte>, mem: Mem, iovs: array<Iovec>)
    returns (crc: bv32)
    requires NullIsEmpty(iovs[..])
    ensures crc == Crc32(SEED, ip + opts + udp + bth + Read(mem, Addrs(iovs[..])))
  {
    CrcOfParts(ip, opts, udp, bth, Read(mem, Addrs(iovs[..])));
    crc := CrcBuffer(SEED, ip);
    if |opts| > 0 {
      crc := CrcBuffer(crc, opts);
    }
    crc := CrcBuffer(crc, udp);
    crc := CrcBuffer(crc, bth);
    crc := CrcScattered(crc, mem, iovs);
  }

  /** The headers are masked where they are; the value covers them, the options, and the
      buffers. */
  method IcrcOf(v4: bool, ip0: seq<byte>, opts: seq<byte>, udp0: seq<byte>, bth0: seq<byte>, mem: Mem,
          iovs: array<Iovec>)
    returns (icrc: seq<byte>, ip: seq<byte>, bth: seq<byte>)
    requires |ip0| == IpSize(v4) && |udp0| == UDP_SIZE && |bth0| == BTH_SIZE && NullIsEmpty(iovs[..])
    ensures icrc == Icrc(v4, ip0, opts, udp0, bth0, Read(mem, Addrs(iovs[..])))
    ensures ip == MaskIp(v4, ip0) && bth == MaskBth(bth0)
  {
    ip, bth := MaskIp(v4, ip0), MaskBth(bth0);
    var crc := CrcOf(ip, opts, MaskUdp(udp0), bth, mem, iovs);
    icrc := Inverted(crc);
  }

  lemma {:induction false} CrcOfParts(ip: seq<byte>, opts: seq<byte>, udp: seq<byte>, bth: seq<byte>, body: seq<byte>)
    ensures Crc32(SEED, ip + opts + udp + bth + body)
         == Crc32(Crc32(Crc32(Crc32(Crc32(SEED, ip), opts), udp), bth), body)
    ensures opts == [] ==> Crc32(Crc32(SEED, ip), opts) == Crc32(SEED, ip)
  {
    CrcConcat(SEED, ip, opts);
    CrcConcat(SEED, ip + opts, udp);
    CrcConcat(SEED, ip + opts + udp, bth);
    CrcConcat(SEED, ip + opts + udp + bth, body);
  }

  method DecapBthFrame(v4: bool, ip0: seq<byte>, opts: seq<byte>, udp: seq<byte>, mem: Mem, iovs: array<Iovec>)
    returns (r: Option<Frame>)
    requires |ip0| == IpSize(v4) && |udp| == UDP_SIZE && NullIsEmpty(iovs[..])
    modifies iovs
    ensures match DecapBth(v4, ip0, opts, udp, Read(mem, old(Addrs(iovs[..]))))
      case None => r == None
      case Some((f, body)) => r == Some(f) && Read(mem, Addrs(iovs[..])) == body
  {
    ghost var s := Read(mem, Addrs(iovs[..]));
    var bth0 := Take(mem, iovs, BTH_SIZE);
    if |bth0| != BTH_SIZE {
      assert |s| < BTH_SIZE;
      return None;
    }
    assert bth0 == s[..BTH_SIZE] && Read(mem, Addrs(iovs[..])) == s[BTH_SIZE..];
    var icrc := TakeLast(mem, iovs, ICRC_SIZE);
    if |icrc| != ICRC_SIZE {
      return None;
    }
    var value, ip, bth := IcrcOf(v4, ip0, opts, udp, bth0, mem, iovs);
    if value != icrc {
      return None;
    }
    return Some(Frame(v4, ip, bth));
  }

  method DecapUdpFrame(v4: bool, ip: seq<byte>, opts: seq<byte>, mem: Mem, iovs: array<Iovec>)
    returns (r: Option<Frame>)
    requires |ip| == IpSize(v4) && NullIsEmpty(iovs[..])
    modifies iovs
    ensures match DecapUdp(v4, ip, opts, Read(mem, old(Addrs(iovs[..]))))
      case None => r == None
      case Some((f, body)) => r == Some(f) && Read(mem, Addrs(iovs[..])) == body
  {
    var udp := Take(mem, iovs, UDP_SIZE);
    if |udp| != UDP_SIZE || FromBe(udp[2..4]) != PORT {
      return None;
    }
    var left := IovLen(iovs[..]);
    if FromBe(udp[4..6]) != UDP_SIZE + left {
      return None;
    }
    r := DecapBthFrame(v4, ip, opts, udp, mem, iovs);
  }

  /** What the port at mac makes of a frame in the buffers; what is left in them is the
      packet after its base transport header. */
  method DecapFrame(vnet: nat, mac: seq<byte>, mem: Mem, iovs: array<Iovec>) returns (r: Option<Frame>, overrun: bool)
    requires NullIsEmpty(iovs[..])
    modifies iovs
    ensures match Decap(vnet, mac, Read(mem, old(Addrs(iovs[..]))))
      case Dropped => r == None && !overrun
      case Overrun => overrun
      case Taken(f, body) => r == Some(f) && !overrun && Read(mem, Addrs(iovs[..])) == body
  {
    r, overrun := None, false;
    var prefix := Take(mem, iovs, vnet);
    if |prefix| != vnet {
      return;
    }
    var eth := Take(mem, iovs, ETH_SIZE);
    if |eth| != ETH_SIZE || eth[..6] != mac {
      return;
    }
    var kind := FromBe(eth[12..14]);
    if kind == TYPE_IP4 {
      var ip := Take(mem, iovs, IP4_SIZE);
      if |ip| != IP4_SIZE {
        return;
      }
      var opts := Take(mem, iovs, OptionsSize(ip));
      overrun := |opts| > OPTIONS_ROOM;
      if !overrun {
        r := DecapUdpFrame(true, ip, opts, mem, iovs);
      }
    } else if kind == TYPE_IP6 {
      var ip := Take(mem, iovs, IP6_SIZE);
      if |ip| == IP6_SIZE {
        r := DecapUdpFrame(false, ip, [], mem, iovs);
      }
    }
  }
}
