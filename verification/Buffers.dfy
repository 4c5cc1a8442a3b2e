/**
 Guest buffers that can be handed to the hardware paths, and what cutting a
 list of them into pieces preserves.
 */
module Buffers {
  import opened Psn
  import opened Types
  import opened Scatter
  import opened Translate
  import G = Gather
  import P = Pages

  /** How a list of buffers is accessed: through local or remote keys, for what, in
      regions of which page size, and registered how. */
  datatype Use = Use(pd: nat, local: bool, access: set<Access>, pageSize: nat, frmr: bool)

  /** What every path takes for granted of a buffer: its region, if there is one, has a
      page for every byte, also for the place of an empty entry. */
  predicate Backed(mrs: MrTable, e: Sge) {
    Lookup(mrs, e.key).Some? ==>
      var mr := Lookup(mrs, e.key).value;
      && Structured(mr)
      && (e.length == 0 && InRange(mr, e) ==> Covered(mr, e))
  }

  predicate AllBacked(mrs: MrTable, sges: seq<Sge>) {
    forall i :: 0 <= i < |sges| ==> Backed(mrs, sges[i])
  }

  /** The page count of the buffer is that of its vector: it straddles no multiple of 2^32,
      is not empty inside a page, and its region uses the page size of the context. */
  predicate Placed(mrs: MrTable, u: Use, e: Sge) {
    && Backed(mrs, e)
    && u.pageSize > 0
    && P.Crossings(e, u.pageSize) == 0
    && (e.length > 0 || e.addr % u.pageSize == 0)
    && (Lookup(mrs, e.key).Some? ==> Lookup(mrs, e.key).value.pageSize == u.pageSize)
  }

  predicate AllPlaced(mrs: MrTable, u: Use, sges: seq<Sge>) {
    forall i :: 0 <= i < |sges| ==> Placed(mrs, u, sges[i])
  }

  /** A placed buffer whose mapping succeeds. */
  predicate Ready(mrs: MrTable, u: Use, e: Sge) {
    && Placed(mrs, u, e)
    && Admitted(mrs, u.pd, e, u.local, u.access)
    && Lookup(mrs, e.key).value.frmr == u.frmr
  }

  predicate AllReady(mrs: MrTable, u: Use, sges: seq<Sge>) {
    forall i :: 0 <= i < |sges| ==> Ready(mrs, u, sges[i])
  }

  lemma {:induction false} BackedEntry(mrs: MrTable, e: Sge)
    requires Backed(mrs, e) && Lookup(mrs, e.key).Some? && InRange(Lookup(mrs, e.key).value, e)
    ensures Covered(Lookup(mrs, e.key).value, e)
  {
    if e.length > 0 {
      RangeCheckSuffices(Lookup(mrs, e.key).value, e);
    }
  }

  lemma {:induction false} BackedList(mrs: MrTable, sges: seq<Sge>)
    requires AllBacked(mrs, sges)
    ensures WellPlaced(mrs, sges)
  {
    forall i | 0 <= i < |sges| && Lookup(mrs, sges[i].key).Some?
      ensures InRange(Lookup(mrs, sges[i].key).value, sges[i]) ==> Covered(Lookup(mrs, sges[i].key).value, sges[i])
      ensures Backed(mrs, sges[i])
    {
      if InRange(Lookup(mrs, sges[i].key).value, sges[i]) {
        BackedEntry(mrs, sges[i]);
      }
    }
  }

  lemma {:induction false} ReadyList(mrs: MrTable, u: Use, sges: seq<Sge>)
    requires AllReady(mrs, u, sges)
    ensures AllPlaced(mrs, u, sges) && AllBacked(mrs, sges)
    ensures AllAdmitted(mrs, u.pd, sges, u.local, u.access)
    ensures OneKind(mrs, sges)
  {
    forall i | 0 <= i < |sges|
      ensures Admitted(mrs, u.pd, sges[i], u.local, u.access)
      ensures Placed(mrs, u, sges[i])
    {
      assert Ready(mrs, u, sges[i]);
    }
  }

  // ----- counting pages

  /** The assertion between mapping and copying: one vector entry for every page counted. */
  predicate Counted(mrs: MrTable, u: Use, sges: seq<Sge>) {
    u.pageSize > 0 && P.SgePages(sges, u.pageSize) == VectorSize(mrs, sges)
  }

  lemma {:induction false} NothingOdd(mrs: MrTable, u: Use, sges: seq<Sge>)
    requires u.pageSize > 0 && AllReady(mrs, u, sges)
    ensures P.CrossingsAll(sges, u.pageSize) == 0 && P.EmptyInside(sges, u.pageSize) == 0
    ensures OfPageSize(mrs, sges, u.pageSize)
  {
    if sges != [] {
      assert Ready(mrs, u, sges[0]);
      NothingOdd(mrs, u, sges[1..]);
      forall i | 0 <= i < |sges|
        ensures Lookup(mrs, sges[i].key).Some? && Lookup(mrs, sges[i].key).value.pageSize == u.pageSize
      {
        assert Ready(mrs, u, sges[i]);
      }
    }
  }

  /** The assertion holds for buffers that are ready. */
  lemma {:induction false} ReadyCounted(mrs: MrTable, u: Use, sges: seq<Sge>)
    requires P.PageSizeOk(u.pageSize) && AllReady(mrs, u, sges)
    requires |sges| <= P.MAX_SGE && SgeLen(sges) < WORD
    ensures Counted(mrs, u, sges)
  {
    NothingOdd(mrs, u, sges);
    SizeOfPages(mrs, sges, u.pageSize);
    P.NoCrossingCount(sges, u.pageSize);
  }

  /** A buffer in a region whose pages are made of pages of the context.  For pages above
      64 KiB it straddles no multiple of 2^32. */
  predicate Countable(mrs: MrTable, u: Use, e: Sge) {
    && Backed(mrs, e)
    && u.pageSize > 0
    && (P.SmallPages(u.pageSize) || P.Crossings(e, u.pageSize) == 0)
    && (Lookup(mrs, e.key).Some? ==> Lookup(mrs, e.key).value.pageSize % u.pageSize == 0)
  }

  predicate AllCountable(mrs: MrTable, u: Use, sges: seq<Sge>) {
    forall i :: 0 <= i < |sges| ==> Countable(mrs, u, sges[i])
  }

  lemma {:induction false} Regroup(p: nat, q: nat, c: nat, d: nat)
    ensures p * (q * c + d) == (p * q) * c + p * d
  {
    assert p * (q * c) == (p * q) * c;
  }

  lemma {:induction false} Below(p: nat, q: nat, d: nat, b: nat)
    requires d < q && b < p
    ensures p * d + b < p * q
  {
    assert p * (q - 1 - d) >= 0;
    assert p * (q - 1 - d) == p * q - p - p * d;
  }

  lemma {:induction false} QuotientIs(n: nat, x: nat, c: nat, r: nat)
    requires r < n && x == n * c + r
    ensures x / n == c
  {
    P.DivideBack(n, c, r);
  }

  lemma {:induction false} NestedQuotient(x: nat, p: nat, q: nat, a: nat, b: nat, c: nat, d: nat)
    requires b < p && d < q && x == p * a + b && a == q * c + d
    ensures p * q > 0 && x / (p * q) == c
  {
    Regroup(p, q, c, d);
    Below(p, q, d, b);
    Below(p, q, 0, 0);
    QuotientIs(p * q, x, c, p * d + b);
  }

  lemma {:induction false} DivideTwice(x: nat, p: nat, q: nat)
    requires p > 0 && q > 0
    ensures p * q > 0 && x / (p * q) == (x / p) / q
  {
    var a := x / p;
    NestedQuotient(x, p, q, a, x % p, a / q, a % q);
  }

  lemma {:induction false} QuotientsGrow(x: nat, y: nat, q: nat)
    requires y <= x && q > 0
    ensures x / q - y / q <= x - y
  {
    var a, b := x / q, y / q;
    assert x == q * a + x % q && y == q * b + y % q;
    if a > b {
      assert q * (a - b) == q * a - q * b;
      P.MulGrows(a - b, q - 1);
      assert (a - b) * (q - 1) == q * (a - b) - (a - b);
      if q > 1 {
        assert (a - b) * (q - 1) >= q - 1 by { P.MulGrows(q - 1, a - b); }
      }
    }
  }

  /** The pages of a non-empty range, by its first and its last byte. */
  lemma {:induction false} PagesByEnds(a: nat, len: nat, p: nat)
    requires p > 0 && len > 0
    ensures (a % p + len + p - 1) / p == (a + len - 1) / p - a / p + 1
  {
    DivAdd(a, len - 1, p);
    DivStep(a % p + len + p - 1, p);
  }

  /** Larger pages make no more of them. */
  lemma {:induction false} LargerPages(a: nat, len: nat, p: nat, q: nat)
    requires p > 0 && q > 0 && len > 0 && p * q > 0
    ensures (a % (p * q) + len + p * q - 1) / (p * q) <= (a % p + len + p - 1) / p
  {
    PagesByEnds(a, len, p);
    PagesByEnds(a, len, p * q);
    DivideTwice(a, p, q);
    DivideTwice(a + len - 1, p, q);
    DivOrder(a, a + len - 1, p);
    QuotientsGrow((a + len - 1) / p, a / p, q);
  }

  lemma {:induction false} DivOrder(x: nat, y: nat, p: nat)
    requires p > 0 && x <= y
    ensures x / p <= y / p
  {
    var a, b := x / p, y / p;
    assert x == p * a + x % p && y == p * b + y % p;
    if a > b {
      assert p * (a - b) == p * a - p * b;
      P.MulGrows(p, a - b);
    }
  }

  lemma {:induction false} SplitPage(size: nat, p: nat)
    requires size > 0 && p > 0 && size % p == 0
    ensures size / p > 0 && size == p * (size / p)
  {
  }

  /** The pages of the entry's region are made of pages of this size. */
  predicate Composed(mrs: MrTable, e: Sge, p: nat) {
    p > 0 && (Lookup(mrs, e.key).Some? ==>
                Lookup(mrs, e.key).value.pageSize > 0 && Lookup(mrs, e.key).value.pageSize % p == 0)
  }

  predicate AllComposed(mrs: MrTable, sges: seq<Sge>, p: nat) {
    forall i :: 0 <= i < |sges| ==> Composed(mrs, sges[i], p)
  }

  lemma {:induction false} RoomOfEntry(addr: nat, len: nat, p: nat, size: nat)
    requires p > 0 && size > 0 && size % p == 0 && len > 0
    ensures (addr % size + len + size - 1) / size <= (addr % p + len + p - 1) / p
  {
    SplitPage(size, p);
    LargerPages(addr, len, p, size / p);
  }

  lemma {:induction false} TouchedIsNat(e: Sge, p: nat)
    requires p > 0
    ensures P.Touched(e, p) >= 0
  {
    DivOrder(0, e.addr % p + e.length + p - 1, p);
    P.DivideBack(p, 0, 0);
  }

  lemma {:induction false} EntryRoom(mrs: MrTable, e: Sge, p: nat)
    requires Composed(mrs, e, p)
    ensures EntrySize(mrs, e) <= P.Touched(e, p)
  {
    TouchedIsNat(e, p);
    match Lookup(mrs, e.key)
    case None =>
    case Some(mr) =>
      if e.length > 0 {
        RoomOfEntry(e.addr, e.length, p, mr.pageSize);
      }
  }

  lemma {:induction false} VectorTouches(mrs: MrTable, sges: seq<Sge>, p: nat)
    requires p > 0 && AllComposed(mrs, sges, p)
    ensures VectorSize(mrs, sges) <= P.TouchedAll(sges, p)
  {
    if sges != [] {
      assert Composed(mrs, sges[0], p);
      EntryRoom(mrs, sges[0], p);
      VectorTouches(mrs, sges[1..], p);
    }
  }

  /** When the assertion holds, for regions of the context's pages or larger: exactly when
      the vector has an entry for every page of the context that the buffers touch, and the
      multiples of 2^32 that the rounded buffers straddle come to a multiple of the page
      size. */
  lemma {:induction false} AssertionHoldsExactly(mrs: MrTable, u: Use, sges: seq<Sge>)
    requires P.PageSizeOk(u.pageSize) && AllComposed(mrs, sges, u.pageSize)
    requires |sges| <= P.MAX_SGE && SgeLen(sges) < WORD
    requires P.TouchedAll(sges, u.pageSize) - VectorSize(mrs, sges) < WORD / u.pageSize
    ensures Counted(mrs, u, sges)
       <==> P.CrossingsAll(sges, u.pageSize) % u.pageSize == 0
            && P.TouchedAll(sges, u.pageSize) == VectorSize(mrs, sges)
  {
    var p := u.pageSize;
    VectorTouches(mrs, sges, p);
    P.TouchedSmall(sges, p);
    P.CountFallsShort(sges, p, P.TouchedAll(sges, p) - VectorSize(mrs, sges));
  }

  /** For regions of the context's page size that is: no buffer is empty inside a page. */
  lemma {:induction false} SamePagesHoldExactly(mrs: MrTable, u: Use, sges: seq<Sge>)
    requires P.PageSizeOk(u.pageSize) && OfPageSize(mrs, sges, u.pageSize)
    requires |sges| <= P.MAX_SGE && |sges| < WORD / u.pageSize && SgeLen(sges) < WORD
    ensures Counted(mrs, u, sges)
       <==> P.CrossingsAll(sges, u.pageSize) % u.pageSize == 0 && P.EmptyInside(sges, u.pageSize) == 0
  {
    P.TouchedSmall(sges, u.pageSize);
    SizeOfPages(mrs, sges, u.pageSize);
    P.CountFallsShort(sges, u.pageSize, P.EmptyInside(sges, u.pageSize));
  }

  /** A list so short that its pages are counted by 16 bits. */
  predicate FewPages(sges: seq<Sge>) {
    |sges| <= P.MAX_SGE && SgeLen(sges) + |sges| < P.SLOT_SPACE - EACCES
  }

  /** The lower 16 bits of the count, whatever the buffers straddle. */
  lemma {:induction false} CountLow(mrs: MrTable, u: Use, sges: seq<Sge>)
    requires P.PageSizeOk(u.pageSize) && AllCountable(mrs, u, sges) && FewPages(sges)
    ensures P.SgePages(sges, u.pageSize) % P.SLOT_SPACE == P.TouchedAll(sges, u.pageSize) < P.SLOT_SPACE - EACCES
  {
    P.TouchedBound(sges, u.pageSize);
    var t := P.TouchedAll(sges, u.pageSize);
    assert 0 <= t < P.SLOT_SPACE - EACCES;
    if P.SmallPages(u.pageSize) {
      assert P.SgePages(sges, u.pageSize) % P.SLOT_SPACE == t % P.SLOT_SPACE by { P.LowerBits(sges, u.pageSize); }
    } else {
      assert P.SgePages(sges, u.pageSize) == t by {
        NoneCrosses(mrs, u, sges);
        P.NoCrossingCount(sges, u.pageSize);
      }
    }
    IsItself(t);
  }

  lemma {:induction false} IsItself(t: int)
    requires 0 <= t < P.SLOT_SPACE
    ensures t % P.SLOT_SPACE == t
  {
  }

  /** The slots that the lower 16 bits of the count reserve are enough, whatever the buffers
      straddle. */
  lemma {:induction false} VectorRoom(mrs: MrTable, u: Use, sges: seq<Sge>)
    requires P.PageSizeOk(u.pageSize) && AllCountable(mrs, u, sges) && FewPages(sges)
    ensures VectorSize(mrs, sges) <= P.SgePages(sges, u.pageSize) % P.SLOT_SPACE
  {
    CountLow(mrs, u, sges);
    CountableComposed(mrs, u, sges);
    VectorTouches(mrs, sges, u.pageSize);
  }

  /** The count is never what the error code of the mapping reads as in 32 bits. */
  lemma {:induction false} CountIsNoError(mrs: MrTable, u: Use, sges: seq<Sge>)
    requires P.PageSizeOk(u.pageSize) && AllCountable(mrs, u, sges) && FewPages(sges)
    ensures P.SgePages(sges, u.pageSize) != -EACCES % WORD
  {
    CountLow(mrs, u, sges);
    ErrorLow();
  }

  lemma {:induction false} ErrorLow()
    ensures -EACCES % WORD == WORD - EACCES && -EACCES % WORD % P.SLOT_SPACE == P.SLOT_SPACE - EACCES
  {
  }

  lemma {:induction false} CountableComposed(mrs: MrTable, u: Use, sges: seq<Sge>)
    requires u.pageSize > 0 && AllCountable(mrs, u, sges)
    ensures AllComposed(mrs, sges, u.pageSize)
  {
    forall i | 0 <= i < |sges| ensures Composed(mrs, sges[i], u.pageSize) {
      assert Countable(mrs, u, sges[i]);
    }
  }

  lemma {:induction false} NoneCrosses(mrs: MrTable, u: Use, sges: seq<Sge>)
    requires u.pageSize > 0 && AllCountable(mrs, u, sges) && !P.SmallPages(u.pageSize)
    ensures P.CrossingsAll(sges, u.pageSize) == 0
  {
    if sges != [] {
      assert Countable(mrs, u, sges[0]);
      NoneCrosses(mrs, u, sges[1..]);
    }
  }

  /** A region with pages of 8 KiB in a context with pages of 4 KiB. */
  function LargePagesMr(): Mr {
    Mr(0, MrValid, false, 0, 0x2000, 0, 0, {LocalWrite}, 0x2000, [Iovec(0x10000, 0x2000)])
  }

  /** One whole page of it passes every check of the mapping and fails the assertion. */
  lemma {:induction false} LargerPagesFail(u: Use)
    requires u == Use(0, true, {LocalWrite}, 0x1000, false)
    ensures var mrs, sges := [Some(LargePagesMr())], [Sge(0, 0x2000, 0)];
      && Structured(LargePagesMr()) && AllAdmitted(mrs, u.pd, sges, u.local, u.access) && OneKind(mrs, sges)
      && P.TouchedAll(sges, u.pageSize) == 2 && VectorSize(mrs, sges) == 1
      && !Counted(mrs, u, sges)
  {
    var mrs, sges := [Some(LargePagesMr())], [Sge(0, 0x2000, 0)];
    assert Addrs(LargePagesMr().iovs) == Range(0x10000, 0x2000) + [];
    assert sges[1..] == [];
    AssertionHoldsExactly(mrs, u, sges);
  }

  // ----- short vectors

  predicate RegionsAtLeast(mrs: MrTable, sges: seq<Sge>, size: nat) {
    forall i :: 0 <= i < |sges| && Lookup(mrs, sges[i].key).Some? ==> Lookup(mrs, sges[i].key).value.pageSize >= size
  }

  lemma {:induction false} TwoEntriesAtMost(mrs: MrTable, e: Sge)
    requires Lookup(mrs, e.key).Some? ==> Lookup(mrs, e.key).value.pageSize >= e.length
    ensures EntrySize(mrs, e) <= 2
  {
    if Lookup(mrs, e.key).Some? && e.length > 0 {
      var p := Lookup(mrs, e.key).value.pageSize;
      P.QuotientBound(p, e.addr % p + e.length + p - 1, 2);
    }
  }

  lemma {:induction false} ShortVector(mrs: MrTable, sges: seq<Sge>)
    requires RegionsAtLeast(mrs, sges, SgeLen(sges))
    ensures VectorSize(mrs, sges) <= 2 * |sges|
  {
    if sges != [] {
      assert SgeLen(sges) >= sges[0].length && SgeLen(sges) >= SgeLen(sges[1..]);
      TwoEntriesAtMost(mrs, sges[0]);
      ShortVector(mrs, sges[1..]);
    }
  }

  /** Buffers that are ready and no longer than a page in all need two entries each. */
  lemma {:induction false} ReadyShort(mrs: MrTable, u: Use, sges: seq<Sge>)
    requires AllReady(mrs, u, sges) && SgeLen(sges) <= u.pageSize
    ensures Needed(mrs, u.pd, sges, u.local, u.access) <= 2 * |sges|
  {
    forall i | 0 <= i < |sges| ensures Lookup(mrs, sges[i].key).value.pageSize >= SgeLen(sges) {
      assert Ready(mrs, u, sges[i]);
    }
    ShortVector(mrs, sges);
    NeededAtMost(mrs, u.pd, sges, u.local, u.access);
  }

  // ----- pieces

  /** Part of an entry, or an empty entry itself. */
  predicate PartOf(e: Sge, f: Sge) {
    && e.key == f.key
    && f.addr <= e.addr && e.addr + e.length <= f.addr + f.length
    && (e.length > 0 || e == f)
  }

  lemma {:induction false} PartReady(mrs: MrTable, u: Use, e: Sge, f: Sge)
    requires PartOf(e, f)
    ensures Backed(mrs, f) ==> Backed(mrs, e)
    ensures Countable(mrs, u, f) ==> Countable(mrs, u, e)
    ensures Ready(mrs, u, f) ==> Ready(mrs, u, e)
  {
  }

  /** The cursor stands before a byte or at the start of an entry. */
  predicate AtByte(sges: seq<Sge>, idx: nat, off: nat) {
    G.CursorOk(sges, idx, off) && (off == 0 || off < sges[idx].length)
  }

  lemma {:induction false} PiecesAreParts(sges: seq<Sge>, bytes: nat, idx: nat, off: nat)
    requires AtByte(sges, idx, off) && bytes <= |G.LocsFrom(sges, idx, off)|
    ensures var r := G.Advance(sges, bytes, idx, off);
      && AtByte(sges, r.idx, r.off)
      && forall i :: 0 <= i < |r.sges| ==> PartOf(r.sges[i], sges[idx + i])
    decreases |sges| - idx
  {
    if bytes > 0 {
      G.LocsHere(sges, idx, off);
      var left := sges[idx].length - off;
      if left < bytes {
        PiecesAreParts(sges, bytes - left, idx + 1, 0);
      }
    }
  }

  /** The pieces of a list are what its entries are. */
  lemma {:induction false} PiecesReady(mrs: MrTable, u: Use, sges: seq<Sge>, bytes: nat, idx: nat, off: nat)
    requires AtByte(sges, idx, off) && bytes <= |G.LocsFrom(sges, idx, off)|
    ensures var r := G.Advance(sges, bytes, idx, off);
      && SgeLen(r.sges) == bytes && |r.sges| <= |sges|
      && (AllBacked(mrs, sges) ==> AllBacked(mrs, r.sges))
      && (AllCountable(mrs, u, sges) ==> AllCountable(mrs, u, r.sges))
      && (AllReady(mrs, u, sges) ==> AllReady(mrs, u, r.sges))
  {
    PiecesAreParts(sges, bytes, idx, off);
    G.AdvanceTakesPrefix(sges, bytes, idx, off);
    var r := G.Advance(sges, bytes, idx, off);
    forall i | 0 <= i < |r.sges|
      ensures Backed(mrs, sges[idx + i]) ==> Backed(mrs, r.sges[i])
      ensures Countable(mrs, u, sges[idx + i]) ==> Countable(mrs, u, r.sges[i])
      ensures Ready(mrs, u, sges[idx + i]) ==> Ready(mrs, u, r.sges[i])
    {
      PartReady(mrs, u, r.sges[i], sges[idx + i]);
    }
  }
}
