/**
 CRC-32 with the polynomial 0x04C11DB7, bit-reflected: the table of 256 entries against
 its definition, one bit at a time.
 */
module CrcBits {
  const POLYNOMIAL: bv32 := 0xEDB88320

  /** The bits of a byte. */
  const BYTE: nat := 8

  /** One bit is shifted out. */
  function Bit(c: bv32): bv32 {
    if c & 1 == 1 then (c >> 1) ^ POLYNOMIAL else c >> 1
  }

  function Iterate<T>(f: T -> T, c: T, n: nat): T
    decreases n
  {
    if n == 0 then c else Iterate(f, f(c), n - 1)
  }

  /** n bits are shifted out. */
  function ShiftOut(c: bv32, n: nat): bv32 { Iterate(Bit, c, n) }

  function Bits8(c: bv32): bv32 { Bit(Bit(Bit(Bit(Bit(Bit(Bit(Bit(c)))))))) }

  lemma {:induction false} EightBits(c: bv32)
    ensures ShiftOut(c, BYTE) == Bits8(c)
  {
    var d := Bit(Bit(Bit(Bit(c))));
    calc {
      Iterate(Bit, c, 8);
      Iterate(Bit, Bit(c), 7);
      Iterate(Bit, Bit(Bit(c)), 6);
      Iterate(Bit, Bit(Bit(Bit(c))), 5);
      Iterate(Bit, d, 4);
      Iterate(Bit, Bit(d), 3);
      Iterate(Bit, Bit(Bit(d)), 2);
      Iterate(Bit, Bit(Bit(Bit(d))), 1);
      Iterate(Bit, Bit(Bit(Bit(Bit(d)))), 0);
    }
  }

  // ----- the table

  /** Entries 16 * row up to 16 * row + 15 of the table. */
  function Row(row: bv32): (r: seq<bv32>)
    ensures |r| == 16
  {
    match row
    case 0 => [0x00000000, 0x77073096, 0xee0e612c, 0x990951ba, 0x076dc419, 0x706af48f, 0xe963a535, 0x9e6495a3,
              0x0edb8832, 0x79dcb8a4, 0xe0d5e91e, 0x97d2d988, 0x09b64c2b, 0x7eb17cbd, 0xe7b82d07, 0x90bf1d91]
    case 1 => [0x1db71064, 0x6ab020f2, 0xf3b97148, 0x84be41de, 0x1adad47d, 0x6ddde4eb, 0xf4d4b551, 0x83d385c7,
              0x136c9856, 0x646ba8c0, 0xfd62f97a, 0x8a65c9ec, 0x14015c4f, 0x63066cd9, 0xfa0f3d63, 0x8d080df5]
    case 2 => [0x3b6e20c8, 0x4c69105e, 0xd56041e4, 0xa2677172, 0x3c03e4d1, 0x4b04d447, 0xd20d85fd, 0xa50ab56b,
              0x35b5a8fa, 0x42b2986c, 0xdbbbc9d6, 0xacbcf940, 0x32d86ce3, 0x45df5c75, 0xdcd60dcf, 0xabd13d59]
    case 3 => [0x26d930ac, 0x51de003a, 0xc8d75180, 0xbfd06116, 0x21b4f4b5, 0x56b3c423, 0xcfba9599, 0xb8bda50f,
              0x2802b89e, 0x5f058808, 0xc60cd9b2, 0xb10be924, 0x2f6f7c87, 0x58684c11, 0xc1611dab, 0xb6662d3d]
    case 4 => [0x76dc4190, 0x01db7106, 0x98d220bc, 0xefd5102a, 0x71b18589, 0x06b6b51f, 0x9fbfe4a5, 0xe8b8d433,
              0x7807c9a2, 0x0f00f934, 0x9609a88e, 0xe10e9818, 0x7f6a0dbb, 0x086d3d2d, 0x91646c97, 0xe6635c01]
    case 5 => [0x6b6b51f4, 0x1c6c6162, 0x856530d8, 0xf262004e, 0x6c0695ed, 0x1b01a57b, 0x8208f4c1, 0xf50fc457,
              0x65b0d9c6, 0x12b7e950, 0x8bbeb8ea, 0xfcb9887c, 0x62dd1ddf, 0x15da2d49, 0x8cd37cf3, 0xfbd44c65]
    case 6 => [0x4db26158, 0x3ab551ce, 0xa3bc0074, 0xd4bb30e2, 0x4adfa541, 0x3dd895d7, 0xa4d1c46d, 0xd3d6f4fb,
              0x4369e96a, 0x346ed9fc, 0xad678846, 0xda60b8d0, 0x44042d73, 0x33031de5, 0xaa0a4c5f, 0xdd0d7cc9]
    case 7 => [0x5005713c, 0x270241aa, 0xbe0b1010, 0xc90c2086, 0x5768b525, 0x206f85b3, 0xb966d409, 0xce61e49f,
              0x5edef90e, 0x29d9c998, 0xb0d09822, 0xc7d7a8b4, 0x59b33d17, 0x2eb40d81, 0xb7bd5c3b, 0xc0ba6cad]
    case 8 => [0xedb88320, 0x9abfb3b6, 0x03b6e20c, 0x74b1d29a, 0xead54739, 0x9dd277af, 0x04db2615, 0x73dc1683,
              0xe3630b12, 0x94643b84, 0x0d6d6a3e, 0x7a6a5aa8, 0xe40ecf0b, 0x9309ff9d, 0x0a00ae27, 0x7d079eb1]
    case 9 => [0xf00f9344, 0x8708a3d2, 0x1e01f268, 0x6906c2fe, 0xf762575d, 0x806567cb, 0x196c3671, 0x6e6b06e7,
              0xfed41b76, 0x89d32be0, 0x10da7a5a, 0x67dd4acc, 0xf9b9df6f, 0x8ebeeff9, 0x17b7be43, 0x60b08ed5]
    case 10 => [0xd6d6a3e8, 0xa1d1937e, 0x38d8c2c4, 0x4fdff252, 0xd1bb67f1, 0xa6bc5767, 0x3fb506dd, 0x48b2364b,
              0xd80d2bda, 0xaf0a1b4c, 0x36034af6, 0x41047a60, 0xdf60efc3, 0xa867df55, 0x316e8eef, 0x4669be79]
    case 11 => [0xcb61b38c, 0xbc66831a, 0x256fd2a0, 0x5268e236, 0xcc0c7795, 0xbb0b4703, 0x220216b9, 0x5505262f,
              0xc5ba3bbe, 0xb2bd0b28, 0x2bb45a92, 0x5cb36a04, 0xc2d7ffa7, 0xb5d0cf31, 0x2cd99e8b, 0x5bdeae1d]
    case 12 => [0x9b64c2b0, 0xec63f226, 0x756aa39c, 0x026d930a, 0x9c0906a9, 0xeb0e363f, 0x72076785, 0x05005713,
              0x95bf4a82, 0xe2b87a14, 0x7bb12bae, 0x0cb61b38, 0x92d28e9b, 0xe5d5be0d, 0x7cdcefb7, 0x0bdbdf21]
    case 13 => [0x86d3d2d4, 0xf1d4e242, 0x68ddb3f8, 0x1fda836e, 0x81be16cd, 0xf6b9265b, 0x6fb077e1, 0x18b74777,
              0x88085ae6, 0xff0f6a70, 0x66063bca, 0x11010b5c, 0x8f659eff, 0xf862ae69, 0x616bffd3, 0x166ccf45]
    case 14 => [0xa00ae278, 0xd70dd2ee, 0x4e048354, 0x3903b3c2, 0xa7672661, 0xd06016f7, 0x4969474d, 0x3e6e77db,
              0xaed16a4a, 0xd9d65adc, 0x40df0b66, 0x37d83bf0, 0xa9bcae53, 0xdebb9ec5, 0x47b2cf7f, 0x30b5ffe9]
    case _ => [0xbdbdf21c, 0xcabac28a, 0x53b39330, 0x24b4a3a6, 0xbad03605, 0xcdd70693, 0x54de5729, 0x23d967bf,
              0xb3667a2e, 0xc4614ab8, 0x5d681b02, 0x2a6f2b94, 0xb40bbe37, 0xc30c8ea1, 0x5a05df1b, 0x2d02ef8d]
  }

  function Table(i: bv32): bv32
    requires i < 256
  {
    Row(i >> 4)[(i & 15) as int]
  }

  predicate Low(lo: bv32) {
    lo == 0 || lo == 1 || lo == 2 || lo == 3 || lo == 4 || lo == 5 || lo == 6 || lo == 7
    || lo == 8 || lo == 9 || lo == 10 || lo == 11 || lo == 12 || lo == 13 || lo == 14 || lo == 15
  }

  lemma {:induction false} Row0(lo: bv32)
    requires lo < 16
    ensures Row(0)[lo as int] == Bits8(0 | lo)
  { }

  lemma {:induction false} Row1(lo: bv32)
    requires lo < 16
    ensures Row(1)[lo as int] == Bits8(16 | lo)
  { }

  lemma {:induction false} Row2(lo: bv32)
    requires lo < 16
    ensures Row(2)[lo as int] == Bits8(32 | lo)
  { }

  lemma {:induction false} Row3(lo: bv32)
    requires lo < 16
    ensures Row(3)[lo as int] == Bits8(48 | lo)
  { }

  lemma {:induction false} Row4(lo: bv32)
    requires lo < 16
    ensures Row(4)[lo as int] == Bits8(64 | lo)
  { }

  lemma {:induction false} Row5(lo: bv32)
    requires lo < 16
    ensures Row(5)[lo as int] == Bits8(80 | lo)
  {
    assert Low(lo);
  }

  lemma {:induction false} Row6(lo: bv32)
    requires lo < 16
    ensures Row(6)[lo as int] == Bits8(96 | lo)
  { }

  lemma {:induction false} Row7(lo: bv32)
    requires lo < 16
    ensures Row(7)[lo as int] == Bits8(112 | lo)
  { }

  lemma {:induction false} Row8(lo: bv32)
    requires lo < 16
    ensures Row(8)[lo as int] == Bits8(128 | lo)
  { }

  lemma {:induction false} Row9(lo: bv32)
    requires lo < 16
    ensures Row(9)[lo as int] == Bits8(144 | lo)
  { }

  lemma {:induction false} Row10(lo: bv32)
    requires lo < 16
    ensures Row(10)[lo as int] == Bits8(160 | lo)
  { }

  lemma {:induction false} Row11(lo: bv32)
    requires lo < 16
    ensures Row(11)[lo as int] == Bits8(176 | lo)
  {
    assert Low(lo);
  }

  lemma {:induction false} Row12(lo: bv32)
    requires lo < 16
    ensures Row(12)[lo as int] == Bits8(192 | lo)
  { }

  lemma {:induction false} Row13(lo: bv32)
    requires lo < 16
    ensures Row(13)[lo as int] == Bits8(208 | lo)
  { }

  lemma {:induction false} Row14(lo: bv32)
    requires lo < 16
    ensures Row(14)[lo as int] == Bits8(224 | lo)
  { }

  lemma {:induction false} Row15(lo: bv32)
    requires lo < 16
    ensures Row(15)[lo as int] == Bits8(240 | lo)
  { }

  lemma {:induction false} LowerRow(row: bv32, lo: bv32)
    requires row < 8 && lo < 16
    ensures Row(row)[lo as int] == Bits8((row << 4) | lo)
  {
    assert Low(row);
    if row == 0 {
      Row0(lo);
    } else if row == 1 {
      Row1(lo);
    } else if row == 2 {
      Row2(lo);
    } else if row == 3 {
      Row3(lo);
    } else if row == 4 {
      Row4(lo);
    } else if row == 5 {
      Row5(lo);
    } else if row == 6 {
      Row6(lo);
    } else {
      Row7(lo);
    }
  }

  lemma {:induction false} UpperRow(row: bv32, lo: bv32)
    requires 8 <= row < 16 && lo < 16
    ensures Row(row)[lo as int] == Bits8((row << 4) | lo)
  {
    assert Low(row);
    if row == 8 {
      Row8(lo);
    } else if row == 9 {
      Row9(lo);
    } else if row == 10 {
      Row10(lo);
    } else if row == 11 {
      Row11(lo);
    } else if row == 12 {
      Row12(lo);
    } else if row == 13 {
      Row13(lo);
    } else if row == 14 {
      Row14(lo);
    } else {
      Row15(lo);
    }
  }

  /** Every entry of the table is its index with eight bits shifted out. */
  lemma {:induction false} TableIsBits(i: bv32)
    requires i < 256
    ensures Table(i) == ShiftOut(i, BYTE)
  {
    EightBits(i);
    if i >> 4 < 8 {
      LowerRow(i >> 4, i & 15);
    } else {
      UpperRow(i >> 4, i & 15);
    }
    assert ((i >> 4) << 4) | (i & 15) == i;
  }

  // ----- the table step

  lemma {:induction false} ShiftXor(l: bv32, h: bv32)
    ensures (l ^ h) >> 1 == (l >> 1) ^ (h >> 1) && (l ^ h) & 1 == (l & 1) ^ (h & 1)
  {
  }

  lemma {:induction false} Reorder(l: bv32, h: bv32, p: bv32)
    ensures (l ^ h) ^ p == (l ^ p) ^ h
  {
  }

  lemma {:induction false} BitSplit(x: bv32, l: bv32, h: bv32)
    requires x == l ^ h && h & 1 == 0
    ensures Bit(x) == Bit(l) ^ (h >> 1)
  {
    ShiftXor(l, h);
    Reorder(l >> 1, h >> 1, POLYNOMIAL);
  }

  /** zero holds along the first n steps of down from h. */
  predicate Along<T>(down: T -> T, zero: T -> bool, h: T, n: nat)
    decreases n
  {
    n == 0 || (zero(h) && Along(down, zero, down(h), n - 1))
  }

  /** If one step of f leaves apart what mix put together, so do n. */
  lemma {:induction false} IterateApart<T(!new)>(f: T -> T, mix: (T, T) -> T, down: T -> T, zero: T -> bool, l: T,
        h: T, n: nat)
    requires forall l: T, h: T :: zero(h) ==> f(mix(l, h)) == mix(f(l), down(h))
    requires Along(down, zero, h, n)
    ensures Iterate(f, mix(l, h), n) == mix(Iterate(f, l, n), Iterate(down, h, n))
    decreases n
  {
    if n > 0 {
      IterateApart(f, mix, down, zero, f(l), down(h), n - 1);
    }
  }

  function Mix(a: bv32, b: bv32): bv32 { a ^ b }

  function Down(h: bv32): bv32 { h >> 1 }

  predicate Even(h: bv32) { h & 1 == 0 }

  lemma {:induction false} BitApart()
    ensures forall l: bv32, h: bv32 :: Even(h) ==> Bit(Mix(l, h)) == Mix(Bit(l), Down(h))
  {
    forall l: bv32, h: bv32 | Even(h)
      ensures Bit(Mix(l, h)) == Mix(Bit(l), Down(h))
    {
      BitSplit(Mix(l, h), l, h);
    }
  }

  /** Bits above the ones shifted out only move down. */
  lemma {:induction false} ShiftApart(l: bv32, h: bv32, n: nat)
    requires Along(Down, Even, h, n)
    ensures ShiftOut(Mix(l, h), n) == Mix(ShiftOut(l, n), Iterate(Down, h, n))
  {
    BitApart();
    IterateApart(Bit, Mix, Down, Even, l, h, n);
  }

  lemma {:induction false} DownEight(h: bv32)
    requires h & 0xff == 0
    ensures Along(Down, Even, h, BYTE) && Iterate(Down, h, BYTE) == h >> 8
  {
    assert Along(Down, Even, h >> 7, 1) && Iterate(Down, h >> 7, 1) == h >> 8;
    assert Along(Down, Even, h >> 6, 2) && Iterate(Down, h >> 6, 2) == h >> 8;
    assert Along(Down, Even, h >> 5, 3) && Iterate(Down, h >> 5, 3) == h >> 8;
    assert Along(Down, Even, h >> 4, 4) && Iterate(Down, h >> 4, 4) == h >> 8;
    assert Along(Down, Even, h >> 3, 5) && Iterate(Down, h >> 3, 5) == h >> 8;
    assert Along(Down, Even, h >> 2, 6) && Iterate(Down, h >> 2, 6) == h >> 8;
    assert Along(Down, Even, h >> 1, 7) && Iterate(Down, h >> 1, 7) == h >> 8;
  }

  /** What one step of the table does to the running value. */
  function TableStep(c: bv32, b: bv32): bv32 {
    Table((c ^ b) & 0xff) ^ (c >> 8)
  }

  lemma {:induction false} LowAndHigh(c: bv32, b: bv32)
    requires b < 256
    ensures c ^ b == ((c ^ b) & 0xff) ^ (c & 0xffffff00)
  {
  }

  lemma {:induction false} HighPart(c: bv32, h: bv32) returns (d: bv32)
    requires h == c & 0xffffff00
    ensures h & 0xff == 0 && d == h >> 8 && d == c >> 8
  {
    d := c >> 8;
  }

  lemma {:induction false} LowPart(x: bv32, l: bv32)
    requires l == x & 0xff
    ensures l < 256
  {
  }

  /** x with its low byte l and the rest h. */
  lemma {:induction false} SplitLow(c: bv32, b: bv32) returns (x: bv32, l: bv32, h: bv32)
    requires b < 256
    ensures x == c ^ b && l == (c ^ b) & 0xff && h == c & 0xffffff00 && x == l ^ h
  {
    x, l, h := c ^ b, (c ^ b) & 0xff, c & 0xffffff00;
    LowAndHigh(c, b);
  }

  /** What is left when a byte is shifted out. */
  function Upper(h: bv32): bv32 { h >> 8 }

  predicate LowClear(h: bv32) { h & 0xff == 0 }

  lemma {:induction false} DownTo(h: bv32)
    requires LowClear(h)
    ensures Along(Down, Even, h, BYTE) && Iterate(Down, h, BYTE) == Upper(h)
  {
    DownEight(h);
  }

  lemma {:induction false} EightApart(x: bv32, l: bv32, h: bv32, d: bv32)
    requires x == Mix(l, h) && LowClear(h) && d == Upper(h)
    ensures ShiftOut(x, BYTE) == Mix(ShiftOut(l, BYTE), d)
  {
    DownTo(h);
    ShiftApart(l, h, BYTE);
  }

  lemma {:induction false} Parts(c: bv32, b: bv32) returns (x: bv32, l: bv32, h: bv32, d: bv32)
    requires b < 256
    ensures x == c ^ b && l == (c ^ b) & 0xff && d == c >> 8
    ensures l < 256 && x == l ^ h && h & 0xff == 0 && d == h >> 8
  {
    x, l, h := SplitLow(c, b);
    d := HighPart(c, h);
    LowPart(x, l);
  }

  /** One step of the table is eight single bits. */
  lemma {:induction false} TableStepIsBits(c: bv32, b: bv32)
    requires b < 256
    ensures TableStep(c, b) == ShiftOut(c ^ b, BYTE)
  {
    var x, l, h, d := Parts(c, b);
    EightApart(x, l, h, d);
    TableIsBits(l);
  }
}
