/**
 How many pages a scatter/gather list touches, computed with the 32-bit masks of
 the code, and when that is the true number.
 */
module Pages {
  import opened Psn
  import opened Types

  const MAX_SGE := 64

  const DWORD: int := 0x1_0000_0000_0000_0000

  /** A positive divisor of 2^32 is what the power-of-two test accepts. */
  predicate PageSizeOk(pageSize: nat) {
    pageSize > 0 && WORD % pageSize == 0
  }

  /** x & ~(pageSize - 1) where the mask is a 32-bit number: the upper half of x is lost. */
  function Mask(x: nat, pageSize: nat): int
    requires pageSize > 0
  {
    var low := x % WORD;
    low - low % pageSize
  }

  function MaskedPages(e: Sge, pageSize: nat): int
    requires pageSize > 0
  {
    ((Mask(e.addr + e.length + pageSize - 1, pageSize) - Mask(e.addr, pageSize)) % DWORD) / pageSize
  }

  /** The running 32-bit count after the entries of sges, from pages on. */
  function CountFrom(sges: seq<Sge>, pageSize: nat, pages: uint32): uint32
    requires pageSize > 0
  {
    if sges == [] then pages
    else CountFrom(sges[1..], pageSize, (pages + MaskedPages(sges[0], pageSize)) % WORD)
  }

  function SgePages(sges: seq<Sge>, pageSize: nat): uint32
    requires pageSize > 0
  {
    CountFrom(sges, pageSize, 0)
  }

  method CountPages(sges: seq<Sge>, pageSize: nat) returns (pages: uint32)
    requires pageSize > 0
    ensures pages == SgePages(sges, pageSize)
  {
    pages := 0;
    assert sges[0..] == sges;
    for i := 0 to |sges|
      invariant CountFrom(sges[i..], pageSize, pages) == SgePages(sges, pageSize)
    {
      assert sges[i..][0] == sges[i] && sges[i..][1..] == sges[i + 1..];
      pages := (pages + MaskedPages(sges[i], pageSize)) % WORD;
    }
  }

  /** The pages that hold at least one byte of the entry; an empty entry counts the page
      it points into unless it points at a boundary. */
  function Touched(e: Sge, pageSize: nat): int
    requires pageSize > 0
  {
    (e.addr % pageSize + e.length + pageSize - 1) / pageSize
  }

  function TouchedAll(sges: seq<Sge>, pageSize: nat): int
    requires pageSize > 0
  {
    if sges == [] then 0 else Touched(sges[0], pageSize) + TouchedAll(sges[1..], pageSize)
  }

  /** How many multiples of 2^32 lie between the start of the entry and its rounded-up end. */
  function Crossings(e: Sge, pageSize: nat): nat
    requires pageSize > 0
  {
    (e.addr + e.length + pageSize - 1) / WORD - e.addr / WORD
  }

  function CrossingsAll(sges: seq<Sge>, pageSize: nat): nat
    requires pageSize > 0
  {
    if sges == [] then 0 else Crossings(sges[0], pageSize) + CrossingsAll(sges[1..], pageSize)
  }

  // ----- arithmetic

  lemma {:induction false} MulGrows(n: nat, d: int)
    ensures d >= 1 ==> n * d >= n
    ensures d <= -1 ==> n * d <= 0 - n
  {
  }

  lemma {:induction false} DivideBack(n: nat, k: int, r: nat)
    requires r < n
    ensures (n * k + r) / n == k && (n * k + r) % n == r
  {
    var x := n * k + r;
    assert n * (x / n) + x % n == x;
    assert n * (k - x / n) == x % n - r;
    MulGrows(n, k - x / n);
  }

  /** The quotient of x by p, split at the multiples of p * k. */
  lemma {:induction false} SplitQuotient(x: int, p: nat, k: nat)
    requires p > 0 && k > 0
    ensures p * k > 0
    ensures var low := x % (p * k); x - x % p == p * k * (x / (p * k)) + (low - low % p)
    ensures x % p == x % (p * k) % p
  {
    assert p * k > 0;
    var w := p * k;
    var low := x % w;
    var a, r := low / p, low % p;
    assert x == w * (x / w) + low && low == p * a + r;
    var c := k * (x / w) + a;
    assert p * c == p * (k * (x / w)) + p * a;
    assert p * (k * (x / w)) == w * (x / w);
    assert x == p * c + r;
    DivideBack(p, c, r);
  }

  lemma {:induction false} TouchedIsDifference(e: Sge, pageSize: nat)
    requires pageSize > 0
    ensures var b := e.addr + e.length + pageSize - 1;
      pageSize * Touched(e, pageSize) == (b - b % pageSize) - (e.addr - e.addr % pageSize)
  {
    var b := e.addr + e.length + pageSize - 1;
    var q, r := b / pageSize, b % pageSize;
    var at, off := e.addr / pageSize, e.addr % pageSize;
    assert b == pageSize * q + r && e.addr == pageSize * at + off;
    assert off + e.length + pageSize - 1 == pageSize * (q - at) + r;
    DivideBack(pageSize, q - at, r);
  }

  lemma {:induction false} MaskDifference(e: Sge, pageSize: nat, k: nat)
    requires pageSize > 0 && k > 0 && pageSize * k == WORD
    ensures Mask(e.addr + e.length + pageSize - 1, pageSize) - Mask(e.addr, pageSize)
         == pageSize * Touched(e, pageSize) - WORD * Crossings(e, pageSize)
  {
    var b := e.addr + e.length + pageSize - 1;
    assert b - b % pageSize == WORD * (b / WORD) + Mask(b, pageSize) by { SplitQuotient(b, pageSize, k); }
    assert e.addr - e.addr % pageSize == WORD * (e.addr / WORD) + Mask(e.addr, pageSize) by {
      SplitQuotient(e.addr, pageSize, k);
    }
    TouchedIsDifference(e, pageSize);
  }

  lemma {:induction false} DivideMasked(diff: int, p: nat, k: nat, t: int, c: int)
    requires p > 0 && k > 0 && p * k == WORD
    requires diff == p * t - WORD * c
    ensures diff % DWORD / p % WORD == (t - k * c) % WORD
  {
    assert p * (k * c) == (p * k) * c;
    assert p * (t - k * c) == p * t - p * (k * c);
    ModThenDivide(p, k, t - k * c);
  }

  /** For a power-of-two page size, each multiple of 2^32 inside the rounded-up entry
      makes the count 2^32 / pageSize too small. */
  lemma {:induction false} MaskedPagesOf(e: Sge, pageSize: nat, k: nat)
    requires pageSize > 0 && k > 0 && pageSize * k == WORD
    ensures MaskedPages(e, pageSize) % WORD == (Touched(e, pageSize) - k * Crossings(e, pageSize)) % WORD
  {
    var diff := Mask(e.addr + e.length + pageSize - 1, pageSize) - Mask(e.addr, pageSize);
    MaskDifference(e, pageSize, k);
    DivideMasked(diff, pageSize, k, Touched(e, pageSize), Crossings(e, pageSize));
  }

  lemma {:induction false} ModThenDivide(p: nat, k: nat, x: int)
    requires p > 0 && k > 0 && p * k == WORD
    ensures (p * x) % DWORD / p % WORD == x % WORD
  {
    var d := WORD * k;
    assert p * d == DWORD by { assert p * (WORD * k) == WORD * (p * k); }
    var q := (p * x) / DWORD;
    var y := x - d * q;
    assert (p * x) % DWORD == p * x - DWORD * q;
    assert p * y == p * x - (p * d) * q;
    DivideBack(p, y, 0);
    assert (p * x) % DWORD / p == y;
    assert d * q == WORD * (k * q);
    assert y % WORD == x % WORD by { ModShift(x, -(k * q)); }
  }

  lemma {:induction false} ModShift(x: int, n: int)
    ensures (x + WORD * n) % WORD == x % WORD
  {
  }

  lemma {:induction false} CountFromOf(sges: seq<Sge>, pageSize: nat, k: nat, pages: uint32)
    requires pageSize > 0 && k > 0 && pageSize * k == WORD
    ensures CountFrom(sges, pageSize, pages)
         == (pages + (TouchedAll(sges, pageSize) - k * CrossingsAll(sges, pageSize))) % WORD
  {
    if sges != [] {
      var t, c := Touched(sges[0], pageSize), Crossings(sges[0], pageSize);
      var ts, cs := TouchedAll(sges[1..], pageSize), CrossingsAll(sges[1..], pageSize);
      var m := MaskedPages(sges[0], pageSize);
      MaskedPagesOf(sges[0], pageSize, k);
      CountFromOf(sges[1..], pageSize, k, (pages + m) % WORD);
      AddScaled(pages, m, k, t, c, ts, cs);
    }
  }

  lemma {:induction false} AddScaled(pages: int, m: int, k: int, t: int, c: int, ts: int, cs: int)
    requires m % WORD == (t - k * c) % WORD
    ensures ((pages + m) % WORD + (ts - k * cs)) % WORD == (pages + (t + ts - k * (c + cs))) % WORD
  {
    assert (t - k * c) + (ts - k * cs) == (t + ts) - k * (c + cs);
    AddMods(pages, m, t - k * c, ts - k * cs);
  }

  lemma {:induction false} AddMods(a: int, b: int, b': int, c: int)
    requires b % WORD == b' % WORD
    ensures ((a + b) % WORD + c) % WORD == (a + (b' + c)) % WORD
  {
  }

  /** The count is the true one exactly when the number of 2^32 multiples that the
      entries straddle is itself a multiple of the page size: for lists of fewer
      entries than that, when no entry straddles one. */
  lemma {:induction false} PageCountIsTrue(sges: seq<Sge>, pageSize: nat)
    requires PageSizeOk(pageSize)
    ensures SgePages(sges, pageSize) == TouchedAll(sges, pageSize) % WORD
       <==> CrossingsAll(sges, pageSize) % pageSize == 0
  {
    var k, c, t := WORD / pageSize, CrossingsAll(sges, pageSize), TouchedAll(sges, pageSize);
    assert pageSize * k == WORD;
    MulGrows(pageSize, k);
    CountFromOf(sges, pageSize, k, 0);
    SameMod(t, k * c);
    MultipleOf(pageSize, k, c);
  }

  lemma {:induction false} SameMod(t: int, d: int)
    ensures (t - d) % WORD == t % WORD <==> d % WORD == 0
  {
  }

  lemma {:induction false} MultipleOf(p: nat, k: nat, c: nat)
    requires p > 0 && k > 0 && p * k == WORD
    ensures (k * c) % WORD == 0 <==> c % p == 0
  {
    var q, r := c / p, c % p;
    assert k * c == k * (p * q) + k * r;
    assert k * (p * q) == WORD * q;
    assert 0 <= k * r < WORD by { assert k * r <= k * (p - 1); assert k * (p - 1) == WORD - k; }
    ModShift(k * r, q);
    MulGrows(k, r);
  }

  lemma {:induction false} TouchedBound(sges: seq<Sge>, pageSize: nat)
    requires pageSize > 0
    ensures 0 <= TouchedAll(sges, pageSize) <= SgeLen(sges) + |sges|
  {
    if sges != [] {
      var e := sges[0];
      var x := e.addr % pageSize + e.length + pageSize - 1;
      assert pageSize * e.length >= e.length by {
        MulGrows(e.length, pageSize);
        assert pageSize * e.length == e.length * pageSize;
      }
      assert pageSize * (e.length + 1) == pageSize * e.length + pageSize;
      QuotientBound(pageSize, x, e.length + 1);
      TouchedBound(sges[1..], pageSize);
    }
  }

  lemma {:induction false} QuotientBound(p: nat, x: nat, m: int)
    requires p > 0 && x < p * m + p
    ensures 0 <= x / p <= m
  {
    var q := x / p;
    assert p * q + x % p == x && p * (m - q) == p * m - p * q;
    MulGrows(p, m - q);
    MulGrows(p, q);
  }

  lemma {:induction false} NoCrossingCount(sges: seq<Sge>, pageSize: nat)
    requires PageSizeOk(pageSize) && CrossingsAll(sges, pageSize) == 0
    requires |sges| <= MAX_SGE && SgeLen(sges) < WORD
    ensures SgePages(sges, pageSize) == TouchedAll(sges, pageSize)
  {
    TouchedSmall(sges, pageSize);
    assert 0 % pageSize == 0 by { DivideBack(pageSize, 0, 0); }
    PageCountIsTrue(sges, pageSize);
  }

  /** Lists as long as the device allows touch fewer than 2^32 pages. */
  lemma {:induction false} TouchedSmall(sges: seq<Sge>, pageSize: nat)
    requires pageSize > 0 && |sges| <= MAX_SGE && SgeLen(sges) < WORD
    ensures 0 <= TouchedAll(sges, pageSize) < WORD
  {
    if pageSize == 1 {
      TouchedBytes(sges);
    } else {
      TouchedHalves(sges, pageSize);
    }
  }

  lemma {:induction false} TouchedBytes(sges: seq<Sge>)
    ensures TouchedAll(sges, 1) == SgeLen(sges)
  {
    if sges != [] {
      TouchedBytes(sges[1..]);
    }
  }

  lemma {:induction false} HalfOf(p: nat, t: int, x: int, len: nat)
    requires p > 1 && p * t <= x <= len + 2 * p
    ensures 2 * t <= len + 4
  {
    if t > 2 {
      Expand(p, t - 2);
      assert p * (t - 2) == p * t - 2 * p;
    }
  }

  lemma {:induction false} Expand(p: nat, u: nat)
    requires p > 1
    ensures p * u >= 2 * u
  {
    var q: nat := p - 2;
    assert p * u == q * u + 2 * u;
  }

  lemma {:induction false} TouchedHalf(e: Sge, pageSize: nat)
    requires pageSize > 1
    ensures 0 <= 2 * Touched(e, pageSize) <= e.length + 4
  {
    var x := e.addr % pageSize + e.length + pageSize - 1;
    assert pageSize * (x / pageSize) + x % pageSize == x;
    HalfOf(pageSize, x / pageSize, x, e.length);
  }

  lemma {:induction false} TouchedHalves(sges: seq<Sge>, pageSize: nat)
    requires pageSize > 1
    ensures 0 <= 2 * TouchedAll(sges, pageSize) <= SgeLen(sges) + 4 * |sges|
  {
    if sges != [] {
      TouchedHalf(sges[0], pageSize);
      TouchedHalves(sges[1..], pageSize);
    }
  }

  /** How many entries are empty and point inside a page. */
  function EmptyInside(sges: seq<Sge>, pageSize: nat): (n: nat)
    requires pageSize > 0
    ensures n <= |sges|
  {
    if sges == [] then 0
    else (if sges[0].length == 0 && sges[0].addr % pageSize != 0 then 1 else 0) + EmptyInside(sges[1..], pageSize)
  }

  /** How the count can come out n below the number of pages touched, for small n: only if
      n is zero and the multiples of 2^32 cancel. */
  lemma {:induction false} CountFallsShort(sges: seq<Sge>, pageSize: nat, n: nat)
    requires PageSizeOk(pageSize) && n < WORD / pageSize && 0 <= TouchedAll(sges, pageSize) - n < WORD
    ensures SgePages(sges, pageSize) == TouchedAll(sges, pageSize) - n
       <==> CrossingsAll(sges, pageSize) % pageSize == 0 && n == 0
  {
    var k, c, t := WORD / pageSize, CrossingsAll(sges, pageSize), TouchedAll(sges, pageSize);
    assert pageSize * k == WORD;
    MulGrows(pageSize, k);
    CountFromOf(sges, pageSize, k, 0);
    ResidueIs(t, k * c, n);
    NotCancelled(pageSize, k, c, n);
  }

  lemma {:induction false} ResidueIs(t: int, d: int, n: int)
    requires 0 <= t - n < WORD
    ensures (t - d) % WORD == t - n <==> (n - d) % WORD == 0
  {
  }

  lemma {:induction false} NotCancelled(p: nat, k: nat, c: nat, n: nat)
    requires p > 0 && p * k == WORD && n < k
    ensures (n - k * c) % WORD == 0 <==> c % p == 0 && n == 0
  {
    var q, r := c / p, c % p;
    assert k * c == k * (p * q) + k * r;
    assert k * (p * q) == WORD * q;
    assert k * r <= WORD - k by { assert k * r <= k * (p - 1); assert k * (p - 1) == WORD - k; }
    ModShift(n - k * r, -q);
    MulGrows(k, r);
  }

  // ----- 16 bits of the count

  const SLOT_SPACE: int := 0x1_0000

  /** Pages of at most 64 KiB. */
  predicate SmallPages(pageSize: nat) {
    pageSize > 0 && SLOT_SPACE % pageSize == 0
  }

  lemma {:induction false} SmallIsOk(pageSize: nat)
    requires SmallPages(pageSize)
    ensures PageSizeOk(pageSize)
    ensures var q := SLOT_SPACE / pageSize; q > 0 && pageSize * (SLOT_SPACE * q) == WORD
  {
    var q := SLOT_SPACE / pageSize;
    assert pageSize * q == SLOT_SPACE;
    assert pageSize * (SLOT_SPACE * q) == SLOT_SPACE * (pageSize * q);
    MulGrows(pageSize, q);
    DivideBack(pageSize, SLOT_SPACE * q, 0);
  }

  /** What a crossing takes off the count is lost in the lower 16 bits. */
  lemma {:induction false} LowerBits(sges: seq<Sge>, pageSize: nat)
    requires SmallPages(pageSize)
    ensures SgePages(sges, pageSize) % SLOT_SPACE == TouchedAll(sges, pageSize) % SLOT_SPACE
  {
    var q := SLOT_SPACE / pageSize;
    SmallIsOk(pageSize);
    CountIs(sges, pageSize, SLOT_SPACE * q);
    Regroup(SLOT_SPACE, q, CrossingsAll(sges, pageSize));
    LowBits(TouchedAll(sges, pageSize), q * CrossingsAll(sges, pageSize));
  }

  lemma {:induction false} CountIs(sges: seq<Sge>, pageSize: nat, k: nat)
    requires pageSize > 0 && k > 0 && pageSize * k == WORD
    ensures SgePages(sges, pageSize) == (TouchedAll(sges, pageSize) - k * CrossingsAll(sges, pageSize)) % WORD
  {
    CountFromOf(sges, pageSize, k, 0);
  }

  lemma {:induction false} Regroup(a: int, b: int, c: int)
    ensures (a * b) * c == a * (b * c)
  {
  }

  lemma {:induction false} LowBits(t: int, n: int)
    ensures (t - SLOT_SPACE * n) % WORD % SLOT_SPACE == t % SLOT_SPACE
  {
    var x := t - SLOT_SPACE * n;
    assert x % WORD == x - SLOT_SPACE * (SLOT_SPACE * (x / WORD));
  }
}
