/**
 CRC-32 of a string of bytes: the table in loops of eight, four and one bytes, and over
 scattered buffers.
 */
module Crc {
  import opened Types
  import opened Scatter
  import Bits = CrcBits

  /** step over every byte of s. */
  function Fold(step: (bv32, byte) -> bv32, c: bv32, s: seq<byte>): bv32
    decreases |s|
  {
    if s == [] then c else Fold(step, step(c, s[0]), s[1..])
  }

  lemma {:induction false} FoldConcat(step: (bv32, byte) -> bv32, c: bv32, a: seq<byte>, b: seq<byte>)
    ensures Fold(step, c, a + b) == Fold(step, Fold(step, c, a), b)
    decreases |a|
  {
    if a == [] {
      assert a + b == b;
    } else {
      assert (a + b)[0] == a[0] && (a + b)[1..] == a[1..] + b;
      FoldConcat(step, step(c, a[0]), a[1..], b);
    }
  }

  lemma {:induction false} FoldSnoc(step: (bv32, byte) -> bv32, c: bv32, s: seq<byte>, i: nat)
    requires i < |s|
    ensures Fold(step, c, s[..i + 1]) == step(Fold(step, c, s[..i]), s[i])
  {
    assert s[..i + 1] == s[..i] + [s[i]];
    FoldConcat(step, c, s[..i], [s[i]]);
    assert [s[i]][1..] == [];
  }

  /** One byte goes in, eight bits out. */
  function ByteIn(c: bv32, b: byte): bv32 { Bits.ShiftOut(c ^ (b as bv32), Bits.BYTE) }

  /** The definition: byte by byte, bit by bit. */
  function Crc32(c: bv32, s: seq<byte>): bv32 { Fold(ByteIn, c, s) }

  lemma {:induction false} CrcConcat(c: bv32, a: seq<byte>, b: seq<byte>)
    ensures Crc32(c, a + b) == Crc32(Crc32(c, a), b)
  {
    FoldConcat(ByteIn, c, a, b);
  }

  // ----- the unrolled loops

  method StepByte(c: bv32, b: byte) returns (r: bv32)
    ensures r == ByteIn(c, b)
  {
    Bits.TableStepIsBits(c, b as bv32);
    r := Bits.TableStep(c, b as bv32);
  }

  /** One byte, two, four, eight: buf[at..] is consumed from c, the value for buf[..at]. */
  method Next1(ghost c0: bv32, c: bv32, buf: seq<byte>, at: nat) returns (r: bv32)
    requires at + 1 <= |buf| && c == Crc32(c0, buf[..at])
    ensures r == Crc32(c0, buf[..at + 1])
  {
    FoldSnoc(ByteIn, c0, buf, at);
    r := StepByte(c, buf[at]);
  }

  method Next2(ghost c0: bv32, c: bv32, buf: seq<byte>, at: nat) returns (r: bv32)
    requires at + 2 <= |buf| && c == Crc32(c0, buf[..at])
    ensures r == Crc32(c0, buf[..at + 2])
  {
    r := Next1(c0, c, buf, at);
    r := Next1(c0, r, buf, at + 1);
  }

  method Next4(ghost c0: bv32, c: bv32, buf: seq<byte>, at: nat) returns (r: bv32)
    requires at + 4 <= |buf| && c == Crc32(c0, buf[..at])
    ensures r == Crc32(c0, buf[..at + 4])
  {
    r := Next2(c0, c, buf, at);
    r := Next2(c0, r, buf, at + 2);
  }

  method Next8(ghost c0: bv32, c: bv32, buf: seq<byte>, at: nat) returns (r: bv32)
    requires at + 8 <= |buf| && c == Crc32(c0, buf[..at])
    ensures r == Crc32(c0, buf[..at + 8])
  {
    r := Next4(c0, c, buf, at);
    r := Next4(c0, r, buf, at + 4);
  }

  method CrcBuffer(crc: bv32, buf: seq<byte>) returns (r: bv32)
    ensures r == Crc32(crc, buf)
  {
    r := crc;
    var at: nat, len: nat := 0, |buf|;
    while len >= 8
      invariant at + len == |buf| && r == Crc32(crc, buf[..at])
    {
      r := Next8(crc, r, buf, at);
      at, len := at + 8, len - 8;
    }
    while len >= 4
      invariant at + len == |buf| && r == Crc32(crc, buf[..at])
    {
      r := Next4(crc, r, buf, at);
      at, len := at + 4, len - 4;
    }
    while len > 0
      invariant at + len == |buf| && r == Crc32(crc, buf[..at])
    {
      r := Next1(crc, r, buf, at);
      at, len := at + 1, len - 1;
    }
    assert buf[..at] == buf;
  }

  // ----- scattered buffers

  /** Entry by entry; null and empty ones are skipped.  The value depends on the bytes
      put together, not on how they are spread. */
  method CrcScattered(crc: bv32, mem: Mem, iovs: array<Iovec>) returns (r: bv32)
    requires NullIsEmpty(iovs[..])
    ensures r == Crc32(crc, Read(mem, Addrs(iovs[..])))
  {
    r := crc;
    ghost var s := iovs[..];
    assert s[..0] == [];
    for i := 0 to iovs.Length
      invariant r == Crc32(crc, Read(mem, Addrs(s[..i])))
    {
      var iov := iovs[i];
      assert iov == s[i];
      AddrsPrefix(s, i);
      ReadConcat(mem, Addrs(s[..i]), Range(iov.base, iov.len));
      if iov.base == 0 || iov.len == 0 {
        assert Range(iov.base, iov.len) == [];
        assert Addrs(s[..i]) + [] == Addrs(s[..i]);
        continue;
      }
      CrcConcat(crc, Read(mem, Addrs(s[..i])), Read(mem, Range(iov.base, iov.len)));
      r := CrcBuffer(r, Read(mem, Range(iov.base, iov.len)));
    }
    assert s[..iovs.Length] == s;
  }

  /** Any other splitting, empty entries included, gives the same value. */
  lemma {:induction false} SplittingDoesNotMatter(crc: bv32, mem: Mem, a: seq<Iovec>, e: Iovec, b: seq<Iovec>, k: nat)
    requires k <= e.len
    ensures Crc32(crc, Read(mem, Addrs(a + [e] + b)))
         == Crc32(crc, Read(mem, Addrs(a + [Iovec(e.base, k), Iovec(0, 0), Iovec(e.base + k, e.len - k)] + b)))
  {
    var parts := [Iovec(e.base, k), Iovec(0, 0), Iovec(e.base + k, e.len - k)];
    assert Addrs(parts) == Addrs([e]) by { PartsOfEntry(e, k); }
    AddrsConcat(a, [e]);
    AddrsConcat(a + [e], b);
    AddrsConcat(a, parts);
    AddrsConcat(a + parts, b);
  }

  lemma {:induction false} PartsOfEntry(e: Iovec, k: nat)
    requires k <= e.len
    ensures Addrs([Iovec(e.base, k), Iovec(0, 0), Iovec(e.base + k, e.len - k)]) == Addrs([e])
  {
    var last := Iovec(e.base + k, e.len - k);
    assert [Iovec(e.base, k), Iovec(0, 0), last][1..] == [Iovec(0, 0), last] && [Iovec(0, 0), last][1..] == [last];
    assert Addrs([last]) == Range(last.base, last.len) && Addrs([e]) == Range(e.base, e.len);
    RangeSplit(e.base, e.len, k);
  }
}
