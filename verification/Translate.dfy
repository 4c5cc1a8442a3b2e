/**
 Memory regions and the translation of guest buffers to host vectors.
 */
module Translate {
  import opened Psn
  import opened Types
  import opened Scatter
  import G = Gather
  import P = Pages

  datatype MrState = MrFree | MrValid | MrDestroyed

  datatype Access = LocalWrite | RemoteWrite | RemoteRead

  /** iovs[k] is the host page of guest page iova / pageSize + k. */
  datatype Mr = Mr(
    pd: nat,
    state: MrState,
    frmr: bool,
    iova: nat,
    length: nat,
    lkey: uint32,
    rkey: uint32,
    access: set<Access>,
    pageSize: nat,
    iovs: seq<Iovec>)

  type MrTable = seq<Option<Mr>>

  function KeyToIndex(key: uint32): nat { key / 256 }

  function Lookup(mrs: MrTable, key: uint32): Option<Mr> {
    if KeyToIndex(key) < |mrs| then mrs[KeyToIndex(key)] else None
  }

  /** Every entry but the last is one whole page, and there is a page for every byte. */
  predicate Paged(iovs: seq<Iovec>, pageSize: nat) {
    && pageSize > 0
    && (forall k :: 0 <= k < |iovs| ==> iovs[k].len <= pageSize)
    && (forall k :: 0 <= k < |iovs| - 1 ==> iovs[k].len == pageSize)
  }

  function OffPages(mr: Mr, addr: nat): int
    requires mr.pageSize > 0
  {
    addr / mr.pageSize - mr.iova / mr.pageSize
  }

  predicate Structured(mr: Mr) {
    && Paged(mr.iovs, mr.pageSize)
    && mr.iova % mr.pageSize + mr.length <= |Addrs(mr.iovs)|
  }

  /** The host address of one guest byte. */
  function TranslateByte(mr: Mr, addr: nat): nat {
    if mr.pageSize > 0 && 0 <= OffPages(mr, addr) < |mr.iovs| then
      mr.iovs[OffPages(mr, addr)].base + addr % mr.pageSize
    else 0
  }

  function HostOf(mrs: MrTable, l: G.Loc): nat {
    match Lookup(mrs, l.key)
    case Some(mr) => TranslateByte(mr, l.addr)
    case None => 0
  }

  function Hosts(mrs: MrTable, locs: seq<G.Loc>): (r: seq<nat>)
    ensures |r| == |locs|
  {
    seq(|locs|, i requires 0 <= i < |locs| => HostOf(mrs, locs[i]))
  }

  // ----- division

  lemma {:induction false} NextMultiple(p: nat, q: nat, r: nat, x: nat)
    requires x - p == p * q + r
    ensures x == p * (q + 1) + r
  {
  }

  lemma {:induction false} DivStep(x: nat, p: nat)
    requires p > 0
    ensures x >= p ==> x / p == (x - p) / p + 1 && x % p == (x - p) % p
    ensures x < p ==> x / p == 0 && x % p == x
  {
    if x >= p {
      var y := x - p;
      NextMultiple(p, y / p, y % p, x);
      P.DivideBack(p, y / p + 1, y % p);
    } else {
      P.DivideBack(p, 0, x);
    }
  }

  lemma {:induction false} DivAdd(a: nat, i: nat, p: nat)
    requires p > 0
    ensures (a + i) / p == a / p + (a % p + i) / p && (a + i) % p == (a % p + i) % p
  {
    var y := a % p + i;
    assert a == p * (a / p) + a % p && y == p * (y / p) + y % p;
    assert p * (a / p + y / p) == p * (a / p) + p * (y / p);
    P.DivideBack(p, a / p + y / p, y % p);
  }

  // ----- pages

  lemma {:induction false} PagedAt(iovs: seq<Iovec>, p: nat, j: nat)
    requires Paged(iovs, p) && j < |Addrs(iovs)|
    ensures 0 <= j / p < |iovs| && Addrs(iovs)[j] == iovs[j / p].base + j % p
  {
    DivStep(j, p);
    if j >= iovs[0].len {
      PagedAt(iovs[1..], p, j - iovs[0].len);
    }
  }

  lemma {:induction false} PagedDrop(iovs: seq<Iovec>, p: nat, k: nat)
    requires Paged(iovs, p) && k < |iovs|
    ensures Paged(iovs[k..], p) && |Addrs(iovs)| == p * k + |Addrs(iovs[k..])|
  {
    if k == 0 {
      assert iovs[0..] == iovs;
    } else {
      PagedDrop(iovs[1..], p, k - 1);
      assert iovs[1..][k - 1..] == iovs[k..];
      assert p * k == p * (k - 1) + p;
    }
  }

  lemma {:induction false} PagedBound(iovs: seq<Iovec>, p: nat)
    requires Paged(iovs, p)
    ensures |Addrs(iovs)| <= p * |iovs|
  {
    if iovs != [] {
      PagedBound(iovs[1..], p);
      assert p * |iovs| == p * (|iovs| - 1) + p;
    }
  }

  // ----- one entry

  predicate InRange(mr: Mr, e: Sge) {
    mr.iova <= e.addr && e.addr + e.length <= mr.iova + mr.length
  }

  /** The pages from the first one of the entry on hold all of it. */
  predicate Covered(mr: Mr, e: Sge) {
    && mr.pageSize > 0
    && 0 <= OffPages(mr, e.addr) < |mr.iovs|
    && e.addr % mr.pageSize + e.length <= |Addrs(mr.iovs[OffPages(mr, e.addr)..])|
  }

  function MapEntry(mr: Mr, e: Sge): seq<Iovec>
    requires Covered(mr, e)
  {
    Copied(mr.iovs[OffPages(mr, e.addr)..], e.addr % mr.pageSize, e.length)
  }

  lemma {:induction false} OffsetInRegion(mr: Mr, addr: nat)
    requires mr.pageSize > 0 && mr.iova <= addr
    ensures var p, k := mr.pageSize, OffPages(mr, addr);
      k >= 0 && p * k + addr % p == addr - mr.iova + mr.iova % p
  {
    var p, k := mr.pageSize, OffPages(mr, addr);
    assert addr == p * (addr / p) + addr % p && mr.iova == p * (mr.iova / p) + mr.iova % p;
    assert p * k == p * (addr / p) - p * (mr.iova / p);
    P.MulGrows(p, k);
  }

  /** The range check of a region whose vector has a page for every byte suffices. */
  lemma {:induction false} RangeCheckSuffices(mr: Mr, e: Sge)
    requires Structured(mr) && InRange(mr, e) && e.length > 0
    ensures Covered(mr, e)
  {
    var p, k := mr.pageSize, OffPages(mr, e.addr);
    OffsetInRegion(mr, e.addr);
    PagedBound(mr.iovs, p);
    if k >= |mr.iovs| {
      PageProduct(p, |mr.iovs|, k);
    } else {
      PagedDrop(mr.iovs, p, k);
    }
  }

  lemma {:induction false} PageProduct(p: nat, n: nat, k: nat)
    requires n <= k
    ensures p * n <= p * k
  {
  }

  lemma {:induction false} ByteTranslates(mr: Mr, e: Sge, i: nat)
    requires Paged(mr.iovs, mr.pageSize) && Covered(mr, e) && i < e.length
    ensures var a := Addrs(MapEntry(mr, e));
      |a| == e.length && a[i] == TranslateByte(mr, e.addr + i)
  {
    var p, k, off := mr.pageSize, OffPages(mr, e.addr), e.addr % mr.pageSize;
    var pages := mr.iovs[k..];
    CopiedAddrs(pages, off, e.length);
    assert Addrs(MapEntry(mr, e))[i] == Addrs(pages)[off + i];
    assert Paged(pages, p) by { PagedDrop(mr.iovs, p, k); }
    PagedAt(pages, p, off + i);
    DivAdd(e.addr, i, p);
  }

  /** The vector built for an entry covers the translations of its bytes, in order. */
  lemma {:induction false} EntryTranslates(mr: Mr, e: Sge)
    requires Paged(mr.iovs, mr.pageSize) && Covered(mr, e)
    ensures Addrs(MapEntry(mr, e)) == seq(e.length, i requires 0 <= i < e.length => TranslateByte(mr, e.addr + i))
  {
    CopiedAddrs(mr.iovs[OffPages(mr, e.addr)..], e.addr % mr.pageSize, e.length);
    forall i: nat | i < e.length
      ensures Addrs(MapEntry(mr, e))[i] == TranslateByte(mr, e.addr + i)
    {
      ByteTranslates(mr, e, i);
    }
  }

  lemma {:induction false} CopyRestCount(iovs: seq<Iovec>, p: nat, bytes: nat)
    requires Paged(iovs, p) && bytes <= |Addrs(iovs)|
    ensures |CopyRest(iovs, bytes)| == (bytes + p - 1) / p
  {
    DivStep(bytes + p - 1, p);
    if bytes > 0 {
      var len := Min(iovs[0].len, bytes);
      CopyRestCount(iovs[1..], p, bytes - len);
      if bytes <= p {
        DivStep(p - 1, p);
        DivStep(bytes - 1, p);
      } else {
        assert |iovs| > 1;
      }
    }
  }

  /** An entry becomes as many vector entries as it touches pages, unless it is empty
      and points inside a page. */
  lemma {:induction false} EntryCount(mr: Mr, e: Sge)
    requires Paged(mr.iovs, mr.pageSize) && Covered(mr, e)
    ensures |MapEntry(mr, e)| == P.Touched(e, mr.pageSize) <==> e.length > 0 || e.addr % mr.pageSize == 0
  {
    var p, k, off := mr.pageSize, OffPages(mr, e.addr), e.addr % mr.pageSize;
    PagedDrop(mr.iovs, p, k);
    DivStep(off + e.length + p - 1, p);
    if e.length == 0 {
      if off > 0 {
        DivStep(off - 1, p);
      }
    } else {
      CopiedCount(mr.iovs[k..], p, off, e.length);
    }
  }

  lemma {:induction false} CopiedCount(iovs: seq<Iovec>, p: nat, off: nat, bytes: nat)
    requires Paged(iovs, p) && off < p && 0 < bytes && off + bytes <= |Addrs(iovs)|
    ensures |Copied(iovs, off, bytes)| == (off + bytes + p - 1) / p
  {
    assert iovs[0].len > off;
    var len := Min(iovs[0].len - off, bytes);
    CopyRestCount(iovs[1..], p, bytes - len);
    DivStep(off + bytes + p - 1, p);
    DivStep(off + bytes - 1, p);
    if off + bytes <= p {
      DivStep(p - 1, p);
    }
  }

  // ----- a list

  /** The checks that one entry has to pass. */
  predicate Admitted(mrs: MrTable, pd: nat, e: Sge, local: bool, access: set<Access>) {
    match Lookup(mrs, e.key)
    case None => false
    case Some(mr) =>
      && (if local then mr.lkey else mr.rkey) == e.key
      && mr.pd == pd
      && mr.state == MrValid
      && access <= mr.access
      && InRange(mr, e)
  }

  predicate AllAdmitted(mrs: MrTable, pd: nat, sges: seq<Sge>, local: bool, access: set<Access>) {
    forall i :: 0 <= i < |sges| ==> Admitted(mrs, pd, sges[i], local, access)
  }

  /** The regions of a list are all registered the same way. */
  predicate OneKind(mrs: MrTable, sges: seq<Sge>) {
    forall i, j :: 0 <= i < j < |sges| && Lookup(mrs, sges[i].key).Some? && Lookup(mrs, sges[j].key).Some?
      ==> Lookup(mrs, sges[i].key).value.frmr == Lookup(mrs, sges[j].key).value.frmr
  }

  /** What the code takes for granted of its regions: the pages of an entry that passes
      the range check are there. */
  predicate WellPlaced(mrs: MrTable, sges: seq<Sge>) {
    forall i :: 0 <= i < |sges| && Lookup(mrs, sges[i].key).Some? ==>
      var mr := Lookup(mrs, sges[i].key).value;
      Paged(mr.iovs, mr.pageSize) && (InRange(mr, sges[i]) ==> Covered(mr, sges[i]))
  }

  function MapAll(mrs: MrTable, pd: nat, sges: seq<Sge>, local: bool, access: set<Access>): seq<Iovec>
    requires WellPlaced(mrs, sges) && AllAdmitted(mrs, pd, sges, local, access)
  {
    if sges == [] then []
    else
      assert Admitted(mrs, pd, sges[0], local, access);
      MapEntry(Lookup(mrs, sges[0].key).value, sges[0]) + MapAll(mrs, pd, sges[1..], local, access)
  }

  lemma {:induction false} HostsConcat(mrs: MrTable, a: seq<G.Loc>, b: seq<G.Loc>)
    ensures Hosts(mrs, a + b) == Hosts(mrs, a) + Hosts(mrs, b)
  {
  }

  /** Address translation: the vector built for a list covers the translation of every
      guest byte of the list, in order, and nothing else. */
  lemma {:induction false} MapTranslates(mrs: MrTable, pd: nat, sges: seq<Sge>, local: bool, access: set<Access>)
    requires WellPlaced(mrs, sges) && AllAdmitted(mrs, pd, sges, local, access)
    ensures Addrs(MapAll(mrs, pd, sges, local, access)) == Hosts(mrs, G.Locs(sges))
  {
    if sges != [] {
      var e, rest := sges[0], sges[1..];
      assert Admitted(mrs, pd, e, local, access);
      var mr := Lookup(mrs, e.key).value;
      MapTranslates(mrs, pd, rest, local, access);
      EntryTranslates(mr, e);
      assert Addrs(MapEntry(mr, e)) == Hosts(mrs, G.LocRange(e.key, e.addr, e.length));
      AddrsConcat(MapEntry(mr, e), MapAll(mrs, pd, rest, local, access));
      HostsConcat(mrs, G.LocRange(e.key, e.addr, e.length), G.Locs(rest));
    }
  }

  /** How many vector entries an entry becomes; no entry at all for an empty one. */
  function EntrySize(mrs: MrTable, e: Sge): (n: nat)
  {
    match Lookup(mrs, e.key)
    case Some(mr) =>
      if e.length == 0 || mr.pageSize == 0 then 0
      else (e.addr % mr.pageSize + e.length + mr.pageSize - 1) / mr.pageSize
    case None => 0
  }

  /** The length of the vector that a list is mapped to. */
  function VectorSize(mrs: MrTable, sges: seq<Sge>): nat {
    if sges == [] then 0 else EntrySize(mrs, sges[0]) + VectorSize(mrs, sges[1..])
  }

  lemma {:induction false} EntrySizeIs(mrs: MrTable, e: Sge)
    requires Lookup(mrs, e.key).Some?
    requires var mr := Lookup(mrs, e.key).value; Paged(mr.iovs, mr.pageSize) && Covered(mr, e)
    ensures |MapEntry(Lookup(mrs, e.key).value, e)| == EntrySize(mrs, e)
  {
    if e.length > 0 {
      EntryCount(Lookup(mrs, e.key).value, e);
    }
  }

  lemma {:induction false} MapSize(mrs: MrTable, pd: nat, sges: seq<Sge>, local: bool, access: set<Access>)
    requires WellPlaced(mrs, sges) && AllAdmitted(mrs, pd, sges, local, access)
    ensures |MapAll(mrs, pd, sges, local, access)| == VectorSize(mrs, sges)
  {
    if sges != [] {
      assert Admitted(mrs, pd, sges[0], local, access);
      EntrySizeIs(mrs, sges[0]);
      MapSize(mrs, pd, sges[1..], local, access);
    }
  }

  lemma {:induction false} VectorPrefix(mrs: MrTable, sges: seq<Sge>, k: nat)
    requires k <= |sges|
    ensures VectorSize(mrs, sges[..k]) <= VectorSize(mrs, sges)
  {
    if k > 0 {
      assert sges[..k][1..] == sges[1..][..k - 1];
      VectorPrefix(mrs, sges[1..], k - 1);
    }
  }

  /** How many leading entries are mapped before the first that fails a check; kind is how
      the regions before them are registered. */
  function Mappable(mrs: MrTable, pd: nat, sges: seq<Sge>, kind: Option<bool>, local: bool,
          access: set<Access>): (k: nat)
    ensures k <= |sges|
  {
    if sges == [] || !Admitted(mrs, pd, sges[0], local, access) then 0
    else
      var frmr := Lookup(mrs, sges[0].key).value.frmr;
      if kind.Some? && kind.value != frmr then 0
      else 1 + Mappable(mrs, pd, sges[1..], Some(frmr), local, access)
  }

  /** How many vector entries are written for a list, whether it is mapped to the end or
      not. */
  function Needed(mrs: MrTable, pd: nat, sges: seq<Sge>, local: bool, access: set<Access>): nat {
    VectorSize(mrs, sges[..Mappable(mrs, pd, sges, None, local, access)])
  }

  lemma {:induction false} NeededAtMost(mrs: MrTable, pd: nat, sges: seq<Sge>, local: bool, access: set<Access>)
    ensures Needed(mrs, pd, sges, local, access) <= VectorSize(mrs, sges)
  {
    VectorPrefix(mrs, sges, Mappable(mrs, pd, sges, None, local, access));
  }

  lemma {:induction false} MappableStep(mrs: MrTable, pd: nat, sges: seq<Sge>, i: nat, kind: Option<bool>, local: bool,
          access: set<Access>)
    requires i < |sges|
    ensures var e := sges[i];
      Mappable(mrs, pd, sges[i..], kind, local, access) ==
        if !Accepts(mrs, pd, kind, e, local, access) then 0
        else 1 + Mappable(mrs, pd, sges[i + 1..], Some(Lookup(mrs, e.key).value.frmr), local, access)
  {
    assert sges[i..][1..] == sges[i + 1..];
  }

  lemma {:induction false} VectorSnoc(mrs: MrTable, sges: seq<Sge>, i: nat)
    requires i < |sges|
    ensures VectorSize(mrs, sges[..i + 1]) == VectorSize(mrs, sges[..i]) + EntrySize(mrs, sges[i])
  {
    if i == 0 {
      assert sges[..1] == [sges[0]] && [sges[0]][1..] == [] && sges[..0] == [];
    } else {
      assert sges[..i + 1][1..] == sges[1..][..i] && sges[..i][1..] == sges[1..][..i - 1];
      VectorSnoc(mrs, sges[1..], i - 1);
    }
  }

  /** Every entry names a region of this page size. */
  predicate OfPageSize(mrs: MrTable, sges: seq<Sge>, p: nat) {
    forall i :: 0 <= i < |sges| ==> Lookup(mrs, sges[i].key).Some? && Lookup(mrs, sges[i].key).value.pageSize == p
  }

  lemma {:induction false} SizeOfPages(mrs: MrTable, sges: seq<Sge>, p: nat)
    requires p > 0 && OfPageSize(mrs, sges, p)
    ensures VectorSize(mrs, sges) == P.TouchedAll(sges, p) - P.EmptyInside(sges, p)
  {
    if sges != [] {
      var off := sges[0].addr % p;
      DivStep(off + p - 1, p);
      DivStep(p - 1, p);
      if off > 0 {
        DivStep(off - 1, p);
      }
      SizeOfPages(mrs, sges[1..], p);
    }
  }

  lemma {:induction false} MapConcat(mrs: MrTable, pd: nat, a: seq<Sge>, b: seq<Sge>, local: bool, access: set<Access>)
    requires WellPlaced(mrs, a) && WellPlaced(mrs, b)
    requires AllAdmitted(mrs, pd, a, local, access) && AllAdmitted(mrs, pd, b, local, access)
    ensures WellPlaced(mrs, a + b) && AllAdmitted(mrs, pd, a + b, local, access)
    ensures MapAll(mrs, pd, a + b, local, access)
         == MapAll(mrs, pd, a, local, access) + MapAll(mrs, pd, b, local, access)
  {
    if a == [] {
      assert a + b == b;
    } else {
      assert (a + b)[0] == a[0] && (a + b)[1..] == a[1..] + b;
      MapConcat(mrs, pd, a[1..], b, local, access);
    }
  }

  /** done is the part of a list that has been mapped, n the size of its vector. */
  ghost predicate Mapped(mrs: MrTable, pd: nat, done: seq<Sge>, kind: Option<bool>, dst: seq<Iovec>, local: bool,
          access: set<Access>)
  {
    && WellPlaced(mrs, done)
    && AllAdmitted(mrs, pd, done, local, access)
    && dst == MapAll(mrs, pd, done, local, access)
    && (kind.None? <==> done == [])
    && (kind.Some? ==> forall k :: 0 <= k < |done| ==> Lookup(mrs, done[k].key) != None
                                                       && Lookup(mrs, done[k].key).value.frmr == kind.value)
  }

  lemma {:induction false} MappedStep(mrs: MrTable, pd: nat, done: seq<Sge>, kind: Option<bool>, dst: seq<Iovec>,
          local: bool, access: set<Access>, e: Sge, more: seq<Iovec>)
    requires Mapped(mrs, pd, done, kind, dst, local, access)
    requires WellPlaced(mrs, [e]) && Admitted(mrs, pd, e, local, access)
    requires Covered(Lookup(mrs, e.key).value, e) && more == MapEntry(Lookup(mrs, e.key).value, e)
    requires kind.None? || kind.value == Lookup(mrs, e.key).value.frmr
    ensures Mapped(mrs, pd, done + [e], Some(Lookup(mrs, e.key).value.frmr), dst + more, local, access)
  {
    MapConcat(mrs, pd, done, [e], local, access);
    assert [e][1..] == [];
  }

  /** The checks of one entry, and of its kind against the kind of those before it. */
  predicate Accepts(mrs: MrTable, pd: nat, kind: Option<bool>, e: Sge, local: bool, access: set<Access>) {
    Admitted(mrs, pd, e, local, access) && (kind.None? || kind.value == Lookup(mrs, e.key).value.frmr)
  }

  lemma {:induction false} MappedRefuses(mrs: MrTable, pd: nat, sges: seq<Sge>, i: nat, kind: Option<bool>,
          dst: seq<Iovec>, local: bool, access: set<Access>)
    requires i < |sges| && Mapped(mrs, pd, sges[..i], kind, dst, local, access)
    requires !Accepts(mrs, pd, kind, sges[i], local, access)
    ensures !(AllAdmitted(mrs, pd, sges, local, access) && OneKind(mrs, sges))
  {
    if Admitted(mrs, pd, sges[i], local, access) {
      assert sges[..i][0] == sges[0] && Lookup(mrs, sges[..i][0].key).value.frmr == kind.value;
    }
  }

  const EACCES := 13

  lemma {:induction false} PrefixOrder(mrs: MrTable, sges: seq<Sge>, j: nat, k: nat)
    requires j <= k <= |sges|
    ensures VectorSize(mrs, sges[..j]) <= VectorSize(mrs, sges[..k])
  {
    assert sges[..k][..j] == sges[..j];
    VectorPrefix(mrs, sges[..k], j);
  }

  /** The first i entries have been mapped to dst; last is how far the mapping will get. */
  ghost predicate MappedTo(mrs: MrTable, pd: nat, sges: seq<Sge>, i: nat, kind: Option<bool>, dst: seq<Iovec>,
          last: nat, local: bool, access: set<Access>)
  {
    && i <= |sges| && |dst| == VectorSize(mrs, sges[..i])
    && last == i + Mappable(mrs, pd, sges[i..], kind, local, access)
    && Mapped(mrs, pd, sges[..i], kind, dst, local, access)
  }

  lemma {:induction false} MapEnd(mrs: MrTable, pd: nat, sges: seq<Sge>, i: nat, kind: Option<bool>, dst: seq<Iovec>,
          last: nat, local: bool, access: set<Access>)
    requires MappedTo(mrs, pd, sges, i, kind, dst, last, local, access)
    requires i == |sges| || !Accepts(mrs, pd, kind, sges[i], local, access)
    ensures last == i && VectorSize(mrs, sges[..i]) == |dst|
    ensures i == |sges| <==> AllAdmitted(mrs, pd, sges, local, access) && OneKind(mrs, sges)
    ensures i == |sges| ==> WellPlaced(mrs, sges) && dst == MapAll(mrs, pd, sges, local, access)
  {
    if i == |sges| {
      assert sges[..i] == sges;
    } else {
      MappableStep(mrs, pd, sges, i, kind, local, access);
      MappedRefuses(mrs, pd, sges, i, kind, dst, local, access);
    }
  }

  /** One entry more is mapped, if there is room for it. */
  method MapNext(mrs: MrTable, pd: nat, sges: seq<Sge>, i: nat, kind: Option<bool>, dst: array<Iovec>, at: nat,
          ghost last: nat, local: bool, access: set<Access>)
    returns (n: nat, overrun: bool)
    requires WellPlaced(mrs, sges) && i < |sges| && at <= dst.Length
    requires MappedTo(mrs, pd, sges, i, kind, dst[..at], last, local, access)
    requires Accepts(mrs, pd, kind, sges[i], local, access)
    modifies dst
    ensures var frmr := Lookup(mrs, sges[i].key).value.frmr;
      if overrun then VectorSize(mrs, sges[..last]) > dst.Length && last <= |sges|
      else n <= dst.Length && MappedTo(mrs, pd, sges, i + 1, Some(frmr), dst[..n], last, local, access)
  {
    var e := sges[i];
    MappableStep(mrs, pd, sges, i, kind, local, access);
    VectorSnoc(mrs, sges, i);
    if at + EntrySize(mrs, e) > dst.Length {
      PrefixOrder(mrs, sges, i + 1, last);
      return at, true;
    }
    assert WellPlaced(mrs, [e]);
    n := MapOne(mrs, pd, sges[..i], kind, e, dst, at, local, access);
    assert sges[..i + 1] == sges[..i] + [e];
    overrun := false;
  }

  /** The number of vector entries written to dst, or an error; overrun tells that dst is too
      short for what is written before the end or the error. */
  method MapSge(mrs: MrTable, pd: nat, sges: seq<Sge>, dst: array<Iovec>, local: bool, access: set<Access>)
    returns (n: int, overrun: bool)
    requires WellPlaced(mrs, sges)
    modifies dst
    ensures overrun <==> Needed(mrs, pd, sges, local, access) > dst.Length
    ensures !overrun ==> (n >= 0 <==> AllAdmitted(mrs, pd, sges, local, access) && OneKind(mrs, sges))
    ensures !overrun && n < 0 ==> n == -EACCES
    ensures !overrun && n >= 0 ==> n <= dst.Length && dst[..n] == MapAll(mrs, pd, sges, local, access)
  {
    ghost var last := Mappable(mrs, pd, sges, None, local, access);
    var kind: Option<bool>, at: nat := None, 0;
    assert sges[0..] == sges && sges[..0] == [] && dst[..0] == [];
    for i: nat := 0 to |sges|
      invariant at <= dst.Length && MappedTo(mrs, pd, sges, i, kind, dst[..at], last, local, access)
    {
      if !Accepts(mrs, pd, kind, sges[i], local, access) {
        MapEnd(mrs, pd, sges, i, kind, dst[..at], last, local, access);
        return -EACCES, false;
      }
      at, overrun := MapNext(mrs, pd, sges, i, kind, dst, at, last, local, access);
      if overrun {
        return at, true;
      }
      kind := Some(Lookup(mrs, sges[i].key).value.frmr);
    }
    MapEnd(mrs, pd, sges, |sges|, kind, dst[..at], last, local, access);
    return at, false;
  }

  /** One entry more is mapped, for which there is room. */
  method MapOne(mrs: MrTable, pd: nat, ghost done: seq<Sge>, ghost kind: Option<bool>, e: Sge, dst: array<Iovec>,
          at: nat, local: bool, access: set<Access>)
    returns (n: nat)
    requires at + EntrySize(mrs, e) <= dst.Length && Mapped(mrs, pd, done, kind, dst[..at], local, access)
    requires WellPlaced(mrs, [e]) && Accepts(mrs, pd, kind, e, local, access)
    modifies dst
    ensures n == at + EntrySize(mrs, e)
    ensures Mapped(mrs, pd, done + [e], Some(Lookup(mrs, e.key).value.frmr), dst[..n], local, access)
  {
    var mr := Lookup(mrs, e.key).value;
    assert Paged(mr.iovs, mr.pageSize) && Covered(mr, e) by { assert [e][0] == e; }
    EntrySizeIs(mrs, e);
    MappedStep(mrs, pd, done, kind, dst[..at], local, access, e, MapEntry(mr, e));
    var m := IovCopy(mr.iovs[OffPages(mr, e.addr)..], e.addr % mr.pageSize, e.length, dst, at);
    n := at + m;
    assert dst[..n] == dst[..at] + dst[at..n];
  }
}
