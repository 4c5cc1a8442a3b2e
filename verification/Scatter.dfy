/**
 Host memory and the I/O vectors that describe pieces of it.

 A vector stands for the sequence of host addresses it covers, byte by byte
 (Addrs).  Every helper is specified by what it does to that sequence, however
 the bytes are split over the entries.
 */
module Scatter {
  import opened Types

  type Mem = map<nat, byte>

  function Range(base: nat, len: nat): (r: seq<nat>)
    ensures |r| == len
  {
    seq(len, i requires 0 <= i < len => base + i)
  }

  function Addrs(iovs: seq<Iovec>): seq<nat> {
    if iovs == [] then [] else Range(iovs[0].base, iovs[0].len) + Addrs(iovs[1..])
  }

  function At(mem: Mem, a: nat): byte {
    if a in mem then mem[a] else 0
  }

  function Read(mem: Mem, addrs: seq<nat>): (r: seq<byte>)
    ensures |r| == |addrs|
  {
    seq(|addrs|, i requires 0 <= i < |addrs| => At(mem, addrs[i]))
  }

  /** The bytes are stored one after the other. */
  function Write(mem: Mem, addrs: seq<nat>, bytes: seq<byte>): Mem
    requires |addrs| == |bytes|
    decreases |addrs|
  {
    if addrs == [] then mem else Write(mem[addrs[0] := bytes[0]], addrs[1..], bytes[1..])
  }

  predicate Distinct(s: seq<nat>) {
    forall i, j :: 0 <= i < j < |s| ==> s[i] != s[j]
  }

  predicate Disjoint(s: seq<nat>, t: seq<nat>) {
    forall i, j :: 0 <= i < |s| && 0 <= j < |t| ==> s[i] != t[j]
  }

  // ----- reading and writing

  lemma {:induction false} ReadConcat(mem: Mem, a: seq<nat>, b: seq<nat>)
    ensures Read(mem, a + b) == Read(mem, a) + Read(mem, b)
  {
  }

  lemma {:induction false} WriteConcat(mem: Mem, a: seq<nat>, x: seq<byte>, b: seq<nat>, y: seq<byte>)
    requires |a| == |x| && |b| == |y|
    ensures Write(mem, a + b, x + y) == Write(Write(mem, a, x), b, y)
    decreases |a|
  {
    if a == [] {
      assert a + b == b && x + y == y;
    } else {
      assert (a + b)[1..] == a[1..] + b && (x + y)[1..] == x[1..] + y;
      WriteConcat(mem[a[0] := x[0]], a[1..], x[1..], b, y);
    }
  }

  lemma {:induction false} WriteElsewhere(mem: Mem, addrs: seq<nat>, bytes: seq<byte>, a: nat)
    requires |addrs| == |bytes| && a !in addrs
    ensures At(Write(mem, addrs, bytes), a) == At(mem, a)
    decreases |addrs|
  {
    if addrs != [] {
      WriteElsewhere(mem[addrs[0] := bytes[0]], addrs[1..], bytes[1..], a);
    }
  }

  /** Bytes stored at distinct addresses are read back, and nothing else changes. */
  lemma {:induction false} ReadBack(mem: Mem, addrs: seq<nat>, bytes: seq<byte>)
    requires |addrs| == |bytes| && Distinct(addrs)
    ensures Read(Write(mem, addrs, bytes), addrs) == bytes
    decreases |addrs|
  {
    if addrs != [] {
      var m := mem[addrs[0] := bytes[0]];
      assert forall i :: 0 <= i < |addrs[1..]| ==> addrs[1..][i] == addrs[i + 1];
      WriteElsewhere(m, addrs[1..], bytes[1..], addrs[0]);
      ReadBack(m, addrs[1..], bytes[1..]);
      var r := Write(m, addrs[1..], bytes[1..]);
      assert Read(r, addrs) == [At(r, addrs[0])] + Read(r, addrs[1..]);
    }
  }

  lemma {:induction false} ReadUntouched(mem: Mem, addrs: seq<nat>, bytes: seq<byte>, other: seq<nat>)
    requires |addrs| == |bytes| && Disjoint(addrs, other)
    ensures Read(Write(mem, addrs, bytes), other) == Read(mem, other)
  {
    forall i | 0 <= i < |other|
      ensures At(Write(mem, addrs, bytes), other[i]) == At(mem, other[i])
    {
      WriteElsewhere(mem, addrs, bytes, other[i]);
    }
  }

  // ----- the addresses of a vector

  lemma {:induction false} AddrsConcat(a: seq<Iovec>, b: seq<Iovec>)
    ensures Addrs(a + b) == Addrs(a) + Addrs(b)
  {
    if a == [] {
      assert a + b == b;
    } else {
      assert (a + b)[1..] == a[1..] + b;
      AddrsConcat(a[1..], b);
    }
  }

  lemma {:induction false} AddrsAt(s: seq<Iovec>, i: nat)
    requires i < |s|
    ensures Addrs(s) == Addrs(s[..i]) + Range(s[i].base, s[i].len) + Addrs(s[i + 1..])
  {
    assert s == s[..i] + ([s[i]] + s[i + 1..]);
    AddrsConcat(s[..i], [s[i]] + s[i + 1..]);
  }

  lemma {:induction false} AddrsPrefix(s: seq<Iovec>, i: nat)
    requires i < |s|
    ensures Addrs(s[..i + 1]) == Addrs(s[..i]) + Range(s[i].base, s[i].len)
  {
    assert s[..i + 1] == s[..i] + [s[i]];
    AddrsConcat(s[..i], [s[i]]);
    assert Addrs([s[i]]) == Range(s[i].base, s[i].len);
  }

  lemma {:induction false} RangeSplit(base: nat, len: nat, k: nat)
    requires k <= len
    ensures Range(base, len)[..k] == Range(base, k)
    ensures Range(base, len)[k..] == Range(base + k, len - k)
  {
  }

  /** A null entry describes nothing. */
  predicate NullIsEmpty(iovs: seq<Iovec>) {
    forall i :: 0 <= i < |iovs| && iovs[i].base == 0 ==> iovs[i].len == 0
  }

  // ----- the helpers

  method IovLen(iovs: seq<Iovec>) returns (total: nat)
    ensures total == |Addrs(iovs)|
  {
    total := 0;
    for i := 0 to |iovs|
      invariant total == |Addrs(iovs[..i])|
    {
      AddrsPrefix(iovs, i);
      total := total + iovs[i].len;
    }
    assert iovs[..|iovs|] == iovs;
  }

  /** The slice of the first bytes of src, entry by entry. */
  function CopyRest(src: seq<Iovec>, bytes: nat): seq<Iovec>
    requires bytes <= |Addrs(src)|
  {
    if bytes == 0 then []
    else
      var len := Min(src[0].len, bytes);
      [Iovec(src[0].base, len)] + CopyRest(src[1..], bytes - len)
  }

  /** The slice [offset, offset + bytes) of src, entry by entry. */
  function Copied(src: seq<Iovec>, offset: nat, bytes: nat): seq<Iovec>
    requires offset + bytes <= |Addrs(src)|
  {
    if bytes == 0 then []
    else if src[0].len <= offset then Copied(src[1..], offset - src[0].len, bytes)
    else
      var len := Min(src[0].len - offset, bytes);
      [Iovec(src[0].base + offset, len)] + CopyRest(src[1..], bytes - len)
  }

  lemma {:induction false} CopyRestAddrs(src: seq<Iovec>, bytes: nat)
    requires bytes <= |Addrs(src)|
    ensures Addrs(CopyRest(src, bytes)) == Addrs(src)[..bytes]
    ensures |CopyRest(src, bytes)| <= |src|
  {
    if bytes > 0 {
      var len := Min(src[0].len, bytes);
      RangeSplit(src[0].base, src[0].len, len);
      CopyRestAddrs(src[1..], bytes - len);
      assert CopyRest(src, bytes)[1..] == CopyRest(src[1..], bytes - len);
    }
  }

  lemma {:induction false} CopiedParts(src: seq<Iovec>, offset: nat, bytes: nat)
    requires offset + bytes <= |Addrs(src)| && bytes > 0 && offset < src[0].len
    ensures var len := Min(src[0].len - offset, bytes);
      && bytes - len <= |Addrs(src[1..])|
      && Addrs(Copied(src, offset, bytes)) == Range(src[0].base + offset, len) + Addrs(src[1..])[..bytes - len]
      && |Copied(src, offset, bytes)| <= |src|
  {
    var len := Min(src[0].len - offset, bytes);
    CopyRestAddrs(src[1..], bytes - len);
    assert Copied(src, offset, bytes)[1..] == CopyRest(src[1..], bytes - len);
  }

  lemma {:induction false} CopiedHere(src: seq<Iovec>, offset: nat, bytes: nat)
    requires offset + bytes <= |Addrs(src)| && bytes > 0 && offset < src[0].len
    ensures Addrs(Copied(src, offset, bytes)) == Addrs(src)[offset..offset + bytes]
    ensures |Copied(src, offset, bytes)| <= |src|
  {
    var e, len := src[0], Min(src[0].len - offset, bytes);
    CopiedParts(src, offset, bytes);
    SliceAcross(Range(e.base, e.len), Addrs(src[1..]), offset, bytes);
    assert Range(e.base, e.len)[offset..][..len] == Range(e.base + offset, len);
  }

  lemma {:induction false} SliceBeyond<T>(a: seq<T>, b: seq<T>, i: nat, j: nat)
    requires |a| <= i <= j <= |a| + |b|
    ensures (a + b)[i..j] == b[i - |a|..j - |a|]
  {
  }

  /** A copied slice covers exactly the addresses [offset, offset + bytes) of its source. */
  lemma {:induction false} CopiedAddrs(src: seq<Iovec>, offset: nat, bytes: nat)
    requires offset + bytes <= |Addrs(src)|
    ensures Addrs(Copied(src, offset, bytes)) == Addrs(src)[offset..offset + bytes]
    ensures |Copied(src, offset, bytes)| <= |src|
  {
    if bytes > 0 {
      if src[0].len <= offset {
        CopiedAddrs(src[1..], offset - src[0].len, bytes);
        SliceBeyond(Range(src[0].base, src[0].len), Addrs(src[1..]), offset, offset + bytes);
      } else {
        CopiedHere(src, offset, bytes);
      }
    }
  }

  lemma {:induction false} SliceAcross<T>(a: seq<T>, b: seq<T>, i: nat, n: nat)
    requires i <= |a| && i + n <= |a| + |b|
    ensures var k := Min(|a| - i, n); (a + b)[i..i + n] == a[i..][..k] + b[..n - k]
  {
  }

  method SkipBytes(src: seq<Iovec>, offset: nat, ghost bytes: nat) returns (i: nat, skip: nat)
    requires 0 < bytes && offset + bytes <= |Addrs(src)|
    ensures i < |src| && skip < src[i].len
    ensures skip + bytes <= |Addrs(src[i..])|
    ensures Copied(src[i..], skip, bytes) == Copied(src, offset, bytes)
  {
    i, skip := 0, offset;
    assert src[0..] == src;
    while i < |src| && src[i].len <= skip
      invariant i <= |src| && skip + bytes <= |Addrs(src[i..])|
      invariant Copied(src[i..], skip, bytes) == Copied(src, offset, bytes)
    {
      assert src[i..][1..] == src[i + 1..];
      skip := skip - src[i].len;
      i := i + 1;
    }
  }

  /** The loop of IovCopy over the entries after the first one it uses. */
  /** goal is copied as far as entry n. */
  ghost predicate CopiedTo(goal: seq<Iovec>, src: seq<Iovec>, n: nat, left: nat) {
    n <= |src| && left <= |Addrs(src[n..])| && n <= |goal| && goal[n..] == CopyRest(src[n..], left)
  }

  lemma {:induction false} CopyOneMore(goal: seq<Iovec>, src: seq<Iovec>, n: nat, left: nat)
    requires CopiedTo(goal, src, n, left) && left != 0
    ensures n < |src| && n < |goal| && goal[n] == Iovec(src[n].base, Min(src[n].len, left))
    ensures CopiedTo(goal, src, n + 1, left - Min(src[n].len, left))
  {
    assert src[n..][1..] == src[n + 1..];
    assert goal[n..][0] == goal[n] && goal[n..][1..] == goal[n + 1..];
  }

  method CopyEntries(src: seq<Iovec>, bytes: nat, dst: array<Iovec>, at: nat) returns (n: nat)
    requires bytes <= |Addrs(src)|
    requires at + |CopyRest(src, bytes)| <= dst.Length
    modifies dst
    ensures at + n <= dst.Length
    ensures dst[at..at + n] == CopyRest(src, bytes)
    ensures dst[..at] == old(dst[..at])
    ensures dst[at + n..] == old(dst[at + n..])
  {
    var left: nat := bytes;
    n := 0;
    assert src[0..] == src;
    ghost var goal := CopyRest(src, bytes);
    while left != 0
      invariant CopiedTo(goal, src, n, left)
      invariant forall k :: 0 <= k < n ==> dst[at + k] == goal[k]
      invariant forall k :: 0 <= k < at || at + n <= k < dst.Length ==> dst[k] == old(dst[k])
      decreases |src| - n
    {
      CopyOneMore(goal, src, n, left);
      var entry := Iovec(src[n].base, Min(src[n].len, left));
      dst[at + n] := entry;
      left := left - entry.len;
      n := n + 1;
    }
  }

  method IovCopy(src: seq<Iovec>, offset: nat, bytes: nat, dst: array<Iovec>, at: nat) returns (n: nat)
    requires offset + bytes <= |Addrs(src)|
    requires at + |Copied(src, offset, bytes)| <= dst.Length
    modifies dst
    ensures at + n <= dst.Length
    ensures dst[at..at + n] == Copied(src, offset, bytes)
    ensures dst[..at] == old(dst[..at])
    ensures dst[at + n..] == old(dst[at + n..])
  {
    n := 0;
    if bytes == 0 {
      return;
    }
    var i, skip := SkipBytes(src, offset, bytes);
    assert src[i..][1..] == src[i + 1..];
    var first := Iovec(src[i].base + skip, Min(src[i].len - skip, bytes));
    dst[at] := first;
    n := CopyEntries(src[i + 1..], bytes - first.len, dst, at + 1);
    n := n + 1;
    assert dst[at] == dst[..at + 1][at];
    assert dst[at..at + n] == [first] + dst[at + 1..at + n];
  }

  // ----- taking bytes off the front, in place

  /** The vector after its first n bytes are gone: an entry used up is nulled, an empty one
      stays as it is, and nothing is touched once the bytes are complete. */
  function Advanced(s: seq<Iovec>, n: nat): (t: seq<Iovec>)
    ensures |t| == |s|
  {
    if s == [] || n == 0 then s
    else
      var e := s[0];
      if e.len == 0 then [e] + Advanced(s[1..], n)
      else if e.len > n then [Iovec(e.base + n, e.len - n)] + s[1..]
      else [Iovec(0, 0)] + Advanced(s[1..], n - e.len)
  }

  /** The addresses of those bytes, as many as there are. */
  function Front(s: seq<Iovec>, n: nat): seq<nat> {
    Addrs(s)[..Min(n, |Addrs(s)|)]
  }

  lemma {:induction false} AddrsCons(e: Iovec, s: seq<Iovec>)
    ensures Addrs([e] + s) == Range(e.base, e.len) + Addrs(s)
  {
    assert ([e] + s)[1..] == s;
  }

  /** What is left covers the rest of the bytes, and null entries stay empty. */
  lemma {:induction false} AdvancedAddrs(s: seq<Iovec>, n: nat)
    ensures Addrs(Advanced(s, n)) == Addrs(s)[Min(n, |Addrs(s)|)..]
  {
    if s != [] && n > 0 {
      var e := s[0];
      if e.len > n {
        AddrsCons(Iovec(e.base + n, e.len - n), s[1..]);
        RangeSplit(e.base, e.len, n);
      } else {
        AdvancedAddrs(s[1..], n - e.len);
        AddrsCons(if e.len == 0 then e else Iovec(0, 0), Advanced(s[1..], n - e.len));
      }
    }
  }

  lemma {:induction false} AdvancedNull(s: seq<Iovec>, n: nat)
    requires NullIsEmpty(s)
    ensures NullIsEmpty(Advanced(s, n))
  {
    if s != [] && n > 0 {
      NullTail(s);
      AdvancedNull(s[1..], Less(n, s[0].len));
    }
  }

  lemma {:induction false} NullTail(s: seq<Iovec>)
    requires NullIsEmpty(s) && s != []
    ensures NullIsEmpty(s[1..])
  {
  }

  function Less(n: nat, k: nat): nat { if n > k then n - k else 0 }

  /** An entry after its first n bytes are gone. */
  function CutHead(e: Iovec, n: nat): Iovec
    requires n <= e.len
  {
    if e.len == 0 then e else if n == e.len then Iovec(0, 0) else Iovec(e.base + n, e.len - n)
  }

  lemma {:induction false} AdvanceStep(s: seq<Iovec>, i: nat, n: nat, done: seq<Iovec>, all: seq<Iovec>)
    requires i < |s| && n > 0 && all == done + Advanced(s[i..], n)
    ensures var k := Min(s[i].len, n);
      all == (done + [CutHead(s[i], k)]) + Advanced(s[i + 1..], n - k)
  {
    assert s[i..][1..] == s[i + 1..];
  }

  lemma {:induction false} FrontStep(mem: Mem, s: seq<Iovec>, i: nat, n: nat, buf: seq<byte>, all: seq<byte>)
    requires i < |s| && all == buf + Read(mem, Front(s[i..], n))
    ensures var k := Min(s[i].len, n);
      all == (buf + Read(mem, Range(s[i].base, k))) + Read(mem, Front(s[i + 1..], n - k))
  {
    var e := s[i];
    var k := Min(e.len, n);
    assert s[i..][1..] == s[i + 1..];
    RangeSplit(e.base, e.len, k);
    assert Front(s[i..], n) == Range(e.base, k) + Front(s[i + 1..], n - k);
    ReadConcat(mem, Range(e.base, k), Front(s[i + 1..], n - k));
  }

  method TakeHead(mem: Mem, iovs: array<Iovec>, i: nat, n: nat) returns (part: seq<byte>)
    requires i < iovs.Length && n <= iovs[i].len
    modifies iovs
    ensures part == Read(mem, Range(old(iovs[i].base), n))
    ensures iovs[..i + 1] == old(iovs[..i]) + [CutHead(old(iovs[i]), n)]
    ensures iovs[i + 1..] == old(iovs[i + 1..])
  {
    part := Read(mem, Range(iovs[i].base, n));
    if iovs[i].len > n {
      iovs[i] := Iovec(iovs[i].base + n, iovs[i].len - n);
    } else if iovs[i].len > 0 {
      iovs[i] := Iovec(0, 0);
    }
  }

  /** The vector is done as far as entry i; all and read are what the loop of IovAdvance
      works towards. */
  ghost predicate AdvancedTo(mem: Mem, now: seq<Iovec>, s: seq<Iovec>, i: nat, left: nat, buf: seq<byte>,
          all: seq<Iovec>, read: seq<byte>)
  {
    && i <= |s| == |now| && now[i..] == s[i..]
    && all == now[..i] + Advanced(s[i..], left) && read == buf + Read(mem, Front(s[i..], left))
  }

  lemma {:induction false} AdvancedBegin(mem: Mem, s: seq<Iovec>, n: nat) returns (all: seq<Iovec>, read: seq<byte>)
    ensures all == Advanced(s, n) && read == Read(mem, Front(s, n))
    ensures AdvancedTo(mem, s, s, 0, n, [], all, read)
  {
    all, read := Advanced(s, n), Read(mem, Front(s, n));
    assert s[0..] == s;
  }

  lemma {:induction false} AdvancedEnd(mem: Mem, now: seq<Iovec>, s: seq<Iovec>, i: nat, left: nat, buf: seq<byte>,
          all: seq<Iovec>, read: seq<byte>)
    requires AdvancedTo(mem, now, s, i, left, buf, all, read) && (left == 0 || i == |s|)
    ensures now == all && buf == read
  {
    assert now == now[..i] + now[i..];
    assert Advanced(s[i..], left) == s[i..] && Front(s[i..], left) == [];
  }

  /** One round of the loop of IovAdvance. */
  method AdvanceEntry(mem: Mem, iovs: array<Iovec>, i: nat, left: nat, buf0: seq<byte>, ghost s: seq<Iovec>,
          ghost all: seq<Iovec>, ghost read: seq<byte>)
    returns (buf: seq<byte>, rest: nat)
    requires i < iovs.Length && left > 0 && AdvancedTo(mem, iovs[..], s, i, left, buf0, all, read)
    modifies iovs
    ensures |buf| + rest == |buf0| + left && AdvancedTo(mem, iovs[..], s, i + 1, rest, buf, all, read)
  {
    assert iovs[i] == iovs[..][i..][0] == s[i];
    AdvanceStep(s, i, left, iovs[..][..i], all);
    FrontStep(mem, s, i, left, buf0, read);
    assert iovs[..][i..][1..] == iovs[..][i + 1..] && s[i..][1..] == s[i + 1..];
    assert iovs[..][..i] == iovs[..i] && iovs[..][i + 1..] == iovs[i + 1..];
    var part := TakeHead(mem, iovs, i, Min(iovs[i].len, left));
    assert iovs[..][..i + 1] == iovs[..i + 1] && iovs[..][i + 1..] == iovs[i + 1..];
    buf, rest := buf0 + part, left - |part|;
  }

  /** The loop of IovAdvance. */
  method AdvanceLoop(mem: Mem, iovs: array<Iovec>, bytes: nat) returns (buf: seq<byte>)
    modifies iovs
    ensures iovs[..] == Advanced(old(iovs[..]), bytes)
    ensures buf == Read(mem, Front(old(iovs[..]), bytes))
  {
    buf := [];
    if bytes == 0 {
      return;
    }
    ghost var s := iovs[..];
    ghost var all, read := AdvancedBegin(mem, s, bytes);
    var left := bytes;
    for i: nat := 0 to iovs.Length
      invariant left > 0 && AdvancedTo(mem, iovs[..], s, i, left, buf, all, read)
    {
      buf, left := AdvanceEntry(mem, iovs, i, left, buf, s, all, read);
      if left == 0 {
        AdvancedEnd(mem, iovs[..], s, i + 1, left, buf, all, read);
        return;
      }
    }
    AdvancedEnd(mem, iovs[..], s, iovs.Length, left, buf, all, read);
  }

  /** Removes the first bytes of the vector and returns them, or all there is. */
  method IovAdvance(mem: Mem, iovs: array<Iovec>, bytes: nat) returns (buf: seq<byte>)
    modifies iovs
    ensures iovs[..] == Advanced(old(iovs[..]), bytes)
    ensures var a, k := old(Addrs(iovs[..])), Min(bytes, |old(Addrs(iovs[..]))|);
      buf == Read(mem, a[..k]) && Addrs(iovs[..]) == a[k..]
    ensures old(NullIsEmpty(iovs[..])) ==> NullIsEmpty(iovs[..])
  {
    AdvancedAddrs(iovs[..], bytes);
    if NullIsEmpty(iovs[..]) {
      AdvancedNull(iovs[..], bytes);
    }
    buf := AdvanceLoop(mem, iovs, bytes);
  }

  // ----- taking bytes off the back, in place

  /** The vector after its last n bytes are gone. */
  function Reversed(s: seq<Iovec>, n: nat): (t: seq<Iovec>)
    ensures |t| == |s|
  {
    if s == [] || n == 0 then s
    else
      var m := |s| - 1;
      var e := s[m];
      if e.len == 0 then Reversed(s[..m], n) + [e]
      else if e.len > n then s[..m] + [Iovec(e.base, e.len - n)]
      else Reversed(s[..m], n - e.len) + [Iovec(0, 0)]
  }

  /** The addresses of those bytes, as many as there are. */
  function Back(s: seq<Iovec>, n: nat): seq<nat> {
    Addrs(s)[Less(|Addrs(s)|, n)..]
  }

  lemma {:induction false} AddrsSnoc(s: seq<Iovec>, e: Iovec)
    ensures Addrs(s + [e]) == Addrs(s) + Range(e.base, e.len)
  {
    AddrsConcat(s, [e]);
    assert Addrs([e]) == Range(e.base, e.len);
  }

  lemma {:induction false} AddrsLast(s: seq<Iovec>)
    requires s != []
    ensures Addrs(s) == Addrs(s[..|s| - 1]) + Range(s[|s| - 1].base, s[|s| - 1].len)
  {
    var m := |s| - 1;
    assert s == s[..m] + [s[m]];
    AddrsSnoc(s[..m], s[m]);
  }

  lemma {:induction false} ReversedAddrs(s: seq<Iovec>, n: nat)
    ensures Addrs(Reversed(s, n)) == Addrs(s)[..Less(|Addrs(s)|, n)]
  {
    if s != [] && n > 0 {
      var m := |s| - 1;
      var e := s[m];
      AddrsLast(s);
      if e.len > n {
        AddrsSnoc(s[..m], Iovec(e.base, e.len - n));
        RangeSplit(e.base, e.len, e.len - n);
      } else {
        ReversedAddrs(s[..m], n - e.len);
        AddrsSnoc(Reversed(s[..m], n - e.len), if e.len == 0 then e else Iovec(0, 0));
      }
    }
  }

  lemma {:induction false} ReversedNull(s: seq<Iovec>, n: nat)
    requires NullIsEmpty(s)
    ensures NullIsEmpty(Reversed(s, n))
  {
    if s != [] && n > 0 {
      ReversedNull(s[..|s| - 1], Less(n, s[|s| - 1].len));
    }
  }

  /** An entry after its last n bytes are gone. */
  function CutTail(e: Iovec, n: nat): Iovec
    requires n <= e.len
  {
    if e.len == 0 then e else if n == e.len then Iovec(0, 0) else Iovec(e.base, e.len - n)
  }

  lemma {:induction false} ReverseStep(s: seq<Iovec>, i: nat, n: nat, done: seq<Iovec>, all: seq<Iovec>)
    requires i < |s| && all == Reversed(s[..i + 1], n) + done
    ensures var k := Min(s[i].len, n);
      all == Reversed(s[..i], n - k) + ([CutTail(s[i], k)] + done)
  {
    assert s[..i + 1][..i] == s[..i] && s[..i + 1] == s[..i] + [s[i]];
  }

  lemma {:induction false} BackSplits(s: seq<Iovec>, i: nat, n: nat)
    requires i < |s|
    ensures var k := Min(s[i].len, n);
      Back(s[..i + 1], n) == Back(s[..i], n - k) + Range(s[i].base + (s[i].len - k), k)
  {
    AddrsPrefix(s, i);
    DropOfConcat(Addrs(s[..i]), Range(s[i].base, s[i].len), n);
    RangeSplit(s[i].base, s[i].len, s[i].len - Min(s[i].len, n));
  }

  lemma {:induction false} DropOfConcat<T>(a: seq<T>, z: seq<T>, n: nat)
    ensures var k := Min(|z|, n);
      (a + z)[Less(|a + z|, n)..] == a[Less(|a|, n - k)..] + z[|z| - k..]
  {
  }

  lemma {:induction false} BackStep(mem: Mem, s: seq<Iovec>, i: nat, n: nat, buf: seq<byte>, all: seq<byte>)
    requires i < |s| && all == Read(mem, Back(s[..i + 1], n)) + buf
    ensures var k := Min(s[i].len, n);
      all == Read(mem, Back(s[..i], n - k)) + (Read(mem, Range(s[i].base + (s[i].len - k), k)) + buf)
  {
    var k := Min(s[i].len, n);
    var a, z := Back(s[..i], n - k), Range(s[i].base + (s[i].len - k), k);
    assert Back(s[..i + 1], n) == a + z by { BackSplits(s, i, n); }
    ReadConcat(mem, a, z);
    Assoc(Read(mem, a), Read(mem, z), buf);
  }

  method TakeTail(mem: Mem, iovs: array<Iovec>, i: nat, n: nat) returns (part: seq<byte>)
    requires i < iovs.Length && n <= iovs[i].len
    modifies iovs
    ensures part == Read(mem, Range(old(iovs[i].base + (iovs[i].len - n)), n))
    ensures iovs[i..] == [CutTail(old(iovs[i]), n)] + old(iovs[i + 1..])
    ensures iovs[..i] == old(iovs[..i])
  {
    part := Read(mem, Range(iovs[i].base + (iovs[i].len - n), n));
    if iovs[i].len > n {
      iovs[i] := Iovec(iovs[i].base, iovs[i].len - n);
    } else if iovs[i].len > 0 {
      iovs[i] := Iovec(0, 0);
    }
  }

  /** One round of the loop of IovReverse. */
  method ReverseEntry(mem: Mem, iovs: array<Iovec>, i: nat, left: nat, buf0: seq<byte>, ghost s: seq<Iovec>,
          ghost all: seq<Iovec>, ghost read: seq<byte>)
    returns (buf: seq<byte>)
    requires i < iovs.Length == |s| && iovs[..i + 1] == s[..i + 1]
    requires all == Reversed(s[..i + 1], left) + iovs[i + 1..] && read == Read(mem, Back(s[..i + 1], left)) + buf0
    modifies iovs
    ensures |buf| == |buf0| + Min(s[i].len, left) && iovs[..i] == s[..i]
    ensures var rest := left - Min(s[i].len, left);
      all == Reversed(s[..i], rest) + iovs[i..] && read == Read(mem, Back(s[..i], rest)) + buf
  {
    assert iovs[i] == iovs[..i + 1][i] == s[i];
    ReverseStep(s, i, left, iovs[i + 1..], all);
    BackStep(mem, s, i, left, buf0, read);
    assert iovs[..i + 1][..i] == iovs[..i] && s[..i + 1][..i] == s[..i];
    var part := TakeTail(mem, iovs, i, Min(iovs[i].len, left));
    buf := part + buf0;
  }

  /** The loop of IovReverse. */
  method ReverseLoop(mem: Mem, iovs: array<Iovec>, bytes: nat) returns (buf: seq<byte>)
    modifies iovs
    ensures iovs[..] == Reversed(old(iovs[..]), bytes)
    ensures buf == Read(mem, Back(old(iovs[..]), bytes))
  {
    buf := [];
    ghost var s := iovs[..];
    ghost var all, read := Reversed(s, bytes), Read(mem, Back(s, bytes));
    assert s[..|s|] == s && iovs[|s|..] == [];
    for i := iovs.Length downto 0
      invariant |buf| <= bytes && iovs[..i] == s[..i]
      invariant all == Reversed(s[..i], bytes - |buf|) + iovs[i..]
      invariant read == Read(mem, Back(s[..i], bytes - |buf|)) + buf
    {
      var more := iovs[i].len > 0;
      buf := ReverseEntry(mem, iovs, i, bytes - |buf|, buf, s, all, read);
      if more && |buf| == bytes {
        assert iovs[..] == iovs[..i] + iovs[i..];
        return;
      }
    }
    assert iovs[0..] == iovs[..];
  }

  /** Removes the last bytes of the vector and returns them, or all there is. */
  method IovReverse(mem: Mem, iovs: array<Iovec>, bytes: nat) returns (buf: seq<byte>)
    modifies iovs
    ensures iovs[..] == Reversed(old(iovs[..]), bytes)
    ensures var a, k := old(Addrs(iovs[..])), Less(|old(Addrs(iovs[..]))|, bytes);
      buf == Read(mem, a[k..]) && Addrs(iovs[..]) == a[..k]
    ensures old(NullIsEmpty(iovs[..])) ==> NullIsEmpty(iovs[..])
  {
    ReversedAddrs(iovs[..], bytes);
    if NullIsEmpty(iovs[..]) {
      ReversedNull(iovs[..], bytes);
    }
    buf := ReverseLoop(mem, iovs, bytes);
  }

  // ----- the two together

  /** Two advances leave, entry for entry, what one of the summed size leaves, and return
      together what it returns; also when there are not as many bytes. */
  lemma {:induction false} AdvancesCompose(mem: Mem, s: seq<Iovec>, j: nat, k: nat)
    ensures Advanced(Advanced(s, j), k) == Advanced(s, j + k)
    ensures Read(mem, Front(s, j)) + Read(mem, Front(Advanced(s, j), k)) == Read(mem, Front(s, j + k))
  {
    AdvancedTwice(s, j, k);
    AdvancedAddrs(s, j);
    assert Front(s, j + k) == Front(s, j) + Front(Advanced(s, j), k);
    ReadConcat(mem, Front(s, j), Front(Advanced(s, j), k));
  }

  lemma {:induction false} AdvancedTwice(s: seq<Iovec>, j: nat, k: nat)
    ensures Advanced(Advanced(s, j), k) == Advanced(s, j + k)
  {
    if s != [] && j > 0 && k > 0 {
      var e, t := s[0], Advanced(s, j);
      if e.len <= j {
        AdvancedTwice(s[1..], j - e.len, k);
        assert t[1..] == Advanced(s[1..], j - e.len);
      } else {
        assert t[1..] == s[1..];
      }
    }
  }

  /** The same from the end. */
  lemma {:induction false} ReversesCompose(s: seq<Iovec>, j: nat, k: nat)
    ensures Reversed(Reversed(s, j), k) == Reversed(s, j + k)
  {
    if s != [] && j > 0 && k > 0 {
      var m := |s| - 1;
      var e, t := s[m], Reversed(s, j);
      if e.len <= j {
        ReversesCompose(s[..m], j - e.len, k);
        assert t[..m] == Reversed(s[..m], j - e.len);
      } else {
        assert t[..m] == s[..m];
      }
    }
  }

  /** An advance and a reverse that do not overlap leave the same vector and return the
      same bytes in either order. */
  lemma {:induction false} AdvanceAndReverseCommute(s: seq<Iovec>, j: nat, k: nat)
    requires j + k <= |Addrs(s)|
    ensures Reversed(Advanced(s, j), k) == Advanced(Reversed(s, k), j)
    ensures Front(Reversed(s, k), j) == Front(s, j) && Back(Advanced(s, j), k) == Back(s, k)
  {
    AdvancedAddrs(s, j);
    ReversedAddrs(s, k);
    Commute(s, j, k);
  }

  lemma {:induction false} AdvancedInit(s: seq<Iovec>, e: Iovec, n: nat)
    requires n <= |Addrs(s)|
    ensures Advanced(s + [e], n) == Advanced(s, n) + [e]
  {
    if s != [] && n > 0 {
      assert (s + [e])[1..] == s[1..] + [e];
      if s[0].len <= n {
        AdvancedInit(s[1..], e, n - s[0].len);
      }
    }
  }

  lemma {:induction false} AdvancedPast(s: seq<Iovec>, e: Iovec, n: nat)
    requires n > |Addrs(s)|
    ensures Advanced(s + [e], n) == Advanced(s, n) + Advanced([e], n - |Addrs(s)|)
  {
    if s == [] {
      assert s + [e] == [e];
    } else {
      assert (s + [e])[1..] == s[1..] + [e];
      AdvancedPast(s[1..], e, n - s[0].len);
    }
  }

  lemma {:induction false} Commute(s: seq<Iovec>, j: nat, k: nat)
    requires j + k <= |Addrs(s)|
    ensures Reversed(Advanced(s, j), k) == Advanced(Reversed(s, k), j)
  {
    if s != [] && j > 0 && k > 0 {
      var m := |s| - 1;
      var init, e := s[..m], s[m];
      assert s == init + [e];
      AddrsLast(s);
      if e.len <= k {
        Commute(init, j, k - e.len);
        AdvancedInit(init, e, j);
        ReversedAddrs(init, k - e.len);
        AdvancedInit(Reversed(init, k - e.len), if e.len == 0 then e else Iovec(0, 0), j);
      } else {
        CommuteInside(init, e, j, k);
      }
    }
  }

  /** The reverse ends inside the last entry. */
  lemma {:induction false} CommuteInside(init: seq<Iovec>, e: Iovec, j: nat, k: nat)
    requires 0 < k < e.len && j + k <= |Addrs(init)| + e.len
    ensures Reversed(Advanced(init + [e], j), k) == Advanced(Reversed(init + [e], k), j)
  {
    var cut := Iovec(e.base, e.len - k);
    assert Reversed(init + [e], k) == init + [cut];
    if j <= |Addrs(init)| {
      AdvancedInit(init, e, j);
      AdvancedInit(init, cut, j);
    } else {
      AdvancedPast(init, e, j);
      AdvancedPast(init, cut, j);
    }
  }

  // ----- entry by entry

  /** What an advance makes of the i-th entry: as it was before the bytes reach it and when it
      is empty, nulled when it is used up, and cut at the front where they end. */
  lemma {:induction false} AdvancedAt(s: seq<Iovec>, n: nat, i: nat)
    requires i < |s|
    ensures var e, before := s[i], |Addrs(s[..i])|;
      Advanced(s, n)[i] ==
        if n <= before || e.len == 0 then e
        else if before + e.len <= n then Iovec(0, 0)
        else Iovec(e.base + (n - before), before + e.len - n)
  {
    if i == 0 {
      assert s[..0] == [];
    } else if n > 0 {
      assert s[..i][0] == s[0] && s[..i][1..] == s[1..][..i - 1];
      AdvancedAt(s[1..], Less(n, s[0].len), i - 1);
    }
  }

  /** And what a reverse does, from the end. */
  lemma {:induction false} ReversedAt(s: seq<Iovec>, n: nat, i: nat)
    requires i < |s|
    ensures var e, after := s[i], |Addrs(s[i + 1..])|;
      Reversed(s, n)[i] ==
        if n <= after || e.len == 0 then e
        else if after + e.len <= n then Iovec(0, 0)
        else Iovec(e.base, after + e.len - n)
  {
    var m := |s| - 1;
    if i == m {
      assert s[m + 1..] == [];
    } else if n > 0 {
      var tail, t := s[i + 1..], s[..m][i + 1..];
      assert tail == t + [s[m]];
      AddrsSnoc(t, s[m]);
      ReversedAt(s[..m], Less(n, s[m].len), i);
    }
  }
}
