/**
 Packet sequence numbers: 24-bit counters that wrap, compared by a signed
 32-bit subtraction.  Every theorem about them is stated against the unbounded
 numbers they stand for.
 */
module Psn {
  const WORD: int := 0x1_0000_0000
  const PSN_SPACE: int := 0x100_0000
  const HALF_SPACE: int := 0x80_0000

  type uint32 = x: int | 0 <= x < WORD
  type psn24 = x: int | 0 <= x < PSN_SPACE

  /** The 24-bit number that stands for the unbounded number n. */
  function Wrap(n: int): psn24 {
    n % PSN_SPACE
  }

  function Inc(psn: uint32): psn24 {
    ((psn + 1) % WORD) % PSN_SPACE
  }

  function ToInt32(x: uint32): int {
    if x < 0x8000_0000 then x else x - WORD
  }

  /** The subtraction is in 32 bits, and so is the shift that discards its upper byte. */
  function Compare(a: uint32, b: uint32): int {
    ToInt32(((a - b) % WORD * 256) % WORD)
  }

  /** The representative of d modulo 2^24 in [-2^23, 2^23). */
  function Signed24(d: int): int {
    var m := d % PSN_SPACE;
    if m < HALF_SPACE then m else m - PSN_SPACE
  }

  lemma {:induction false} IncWraps(n: int)
    ensures Inc(Wrap(n)) == Wrap(n + 1)
  {
  }

  lemma {:induction false} CompareIsSigned(a: uint32, b: uint32)
    ensures Compare(a, b) == 256 * Signed24(a - b)
  {
    var d := a - b;
    var q, r := d / PSN_SPACE, d % PSN_SPACE;
    var k := d / WORD;
    assert d % WORD == PSN_SPACE * q + r - WORD * k;
    assert d % WORD * 256 == 256 * r + WORD * (q - 256 * k);
    assert (d % WORD * 256) % WORD == 256 * r;
  }

  /** Two wrapped numbers compare as the unbounded ones do exactly when their
      difference lies in [-2^23, 2^23). */
  lemma {:induction false} CompareRefines(x: int, y: int)
    ensures Compare(Wrap(x), Wrap(y)) == 256 * (x - y) <==> -HALF_SPACE <= x - y < HALF_SPACE
  {
    CompareIsSigned(Wrap(x), Wrap(y));
    WrapDifference(x, y);
  }

  lemma {:induction false} WrapAdd(n: int, k: int)
    ensures Wrap(Wrap(n) + k) == Wrap(n + k)
  {
  }

  lemma {:induction false} WrapDifference(x: int, y: int)
    ensures (Wrap(x) - Wrap(y)) % PSN_SPACE == (x - y) % PSN_SPACE
  {
    var k := x / PSN_SPACE - y / PSN_SPACE;
    assert x - y == Wrap(x) - Wrap(y) + PSN_SPACE * k;
  }

  /** The boundary itself: at distance 2^23 each number is behind the other. */
  lemma {:induction false} HalfwayIsBehindBothWays(x: int)
    ensures Compare(Wrap(x), Wrap(x + HALF_SPACE)) < 0
    ensures Compare(Wrap(x + HALF_SPACE), Wrap(x)) < 0
  {
    CompareIsSigned(Wrap(x), Wrap(x + HALF_SPACE));
    CompareIsSigned(Wrap(x + HALF_SPACE), Wrap(x));
    WrapDifference(x, x + HALF_SPACE);
    WrapDifference(x + HALF_SPACE, x);
  }
}
