/**
 Scatter/gather lists of guest buffers, and the resumable cursor that cuts a
 list into pieces.

 A list stands for the sequence of guest bytes it names, each with its memory
 key (Locs); the cursor is a position in that sequence.
 */
module Gather {
  import opened Psn
  import opened Types

  datatype Loc = Loc(key: uint32, addr: nat)

  function LocRange(key: uint32, addr: nat, len: nat): (r: seq<Loc>)
    ensures |r| == len
  {
    seq(len, i requires 0 <= i < len => Loc(key, addr + i))
  }

  function Locs(sges: seq<Sge>): (r: seq<Loc>)
    ensures |r| == SgeLen(sges)
  {
    if sges == [] then [] else LocRange(sges[0].key, sges[0].addr, sges[0].length) + Locs(sges[1..])
  }

  /** A cursor is an entry of the list and an offset in it; at the end of the list the
      entry is one past the last. */
  predicate CursorOk(sges: seq<Sge>, idx: nat, off: nat) {
    idx <= |sges| && if idx == |sges| then off == 0 else off <= sges[idx].length
  }

  /** The bytes from the cursor on. */
  function LocsFrom(sges: seq<Sge>, idx: nat, off: nat): seq<Loc>
    requires CursorOk(sges, idx, off)
  {
    Locs(sges[idx..])[off..]
  }

  datatype Cut = Cut(sges: seq<Sge>, idx: nat, off: nat)

  /** The next bytes from the cursor, entry by entry, and the cursor after them. */
  function Advance(sges: seq<Sge>, bytes: nat, idx: nat, off: nat): (r: Cut)
    requires CursorOk(sges, idx, off)
    requires bytes <= |LocsFrom(sges, idx, off)|
    ensures CursorOk(sges, r.idx, r.off)
    ensures idx <= r.idx && |r.sges| <= |sges| - idx
    decreases |sges| - idx
  {
    if bytes == 0 then Cut([], idx, off)
    else
      var src := sges[idx];
      var left := src.length - off;
      if left > bytes then Cut([Sge(src.addr + off, bytes, src.key)], idx, off + bytes)
      else
        var first := Sge(src.addr + off, left, src.key);
        assert sges[idx..][1..] == sges[idx + 1..];
        if left == bytes then Cut([first], idx + 1, 0)
        else
          var rest := Advance(sges, bytes - left, idx + 1, 0);
          rest.(sges := [first] + rest.sges)
  }

  lemma {:induction false} LocRangeSplit(key: uint32, addr: nat, len: nat, k: nat)
    requires k <= len
    ensures LocRange(key, addr, len)[..k] == LocRange(key, addr, k)
    ensures LocRange(key, addr, len)[k..] == LocRange(key, addr + k, len - k)
  {
  }

  lemma {:induction false} LocsOfOne(e: Sge)
    ensures Locs([e]) == LocRange(e.key, e.addr, e.length)
  {
    assert [e][1..] == [];
  }

  lemma {:induction false} LocsConcat(a: seq<Sge>, b: seq<Sge>)
    ensures Locs(a + b) == Locs(a) + Locs(b)
  {
    if a == [] {
      assert a + b == b;
    } else {
      assert (a + b)[0] == a[0] && (a + b)[1..] == a[1..] + b;
      LocsConcat(a[1..], b);
    }
  }

  lemma {:induction false} LocsHere(sges: seq<Sge>, idx: nat, off: nat)
    requires idx < |sges| && off <= sges[idx].length
    ensures var e := sges[idx];
      LocsFrom(sges, idx, off) == LocRange(e.key, e.addr + off, e.length - off) + LocsFrom(sges, idx + 1, 0)
  {
    var e := sges[idx];
    assert sges[idx..][1..] == sges[idx + 1..];
    LocRangeSplit(e.key, e.addr, e.length, off);
  }

  lemma {:induction false} CutInside(sges: seq<Sge>, bytes: nat, idx: nat, off: nat)
    requires idx < |sges| && off + bytes <= sges[idx].length
    ensures var e, all := sges[idx], LocsFrom(sges, idx, off);
      all[..bytes] == Locs([Sge(e.addr + off, bytes, e.key)]) && all[bytes..] == LocsFrom(sges, idx, off + bytes)
  {
    var e := sges[idx];
    LocsHere(sges, idx, off);
    LocsHere(sges, idx, off + bytes);
    LocRangeSplit(e.key, e.addr + off, e.length - off, bytes);
    LocsOfOne(Sge(e.addr + off, bytes, e.key));
  }

  lemma {:induction false} CutAcross(sges: seq<Sge>, bytes: nat, idx: nat, off: nat, rest: seq<Sge>)
    requires idx < |sges| && off <= sges[idx].length <= off + bytes
    requires bytes <= |LocsFrom(sges, idx, off)|
    requires bytes - (sges[idx].length - off) <= |LocsFrom(sges, idx + 1, 0)|
    requires Locs(rest) == LocsFrom(sges, idx + 1, 0)[..bytes - (sges[idx].length - off)]
    ensures var e, left := sges[idx], sges[idx].length - off;
      && Locs([Sge(e.addr + off, left, e.key)] + rest) == LocsFrom(sges, idx, off)[..bytes]
      && LocsFrom(sges, idx, off)[bytes..] == LocsFrom(sges, idx + 1, 0)[bytes - left..]
  {
    var e, left := sges[idx], sges[idx].length - off;
    var first := Sge(e.addr + off, left, e.key);
    LocsHere(sges, idx, off);
    LocsOfOne(first);
    LocsConcat([first], rest);
  }

  /** One advance takes exactly the next bytes, keys included, and leaves the cursor at
      the byte after them. */
  lemma {:induction false} AdvanceTakesPrefix(sges: seq<Sge>, bytes: nat, idx: nat, off: nat)
    requires CursorOk(sges, idx, off)
    requires bytes <= |LocsFrom(sges, idx, off)|
    ensures var r, all := Advance(sges, bytes, idx, off), LocsFrom(sges, idx, off);
      Locs(r.sges) == all[..bytes] && LocsFrom(sges, r.idx, r.off) == all[bytes..]
    decreases |sges| - idx
  {
    if bytes > 0 {
      var left := sges[idx].length - off;
      if left > bytes {
        CutInside(sges, bytes, idx, off);
      } else {
        LocsHere(sges, idx, off);
        if left == bytes {
          CutAcross(sges, bytes, idx, off, []);
        } else {
          AdvanceTakesPrefix(sges, bytes - left, idx + 1, 0);
          CutAcross(sges, bytes, idx, off, Advance(sges, bytes - left, idx + 1, 0).sges);
        }
      }
    }
  }

  /** Where the cursor goes, seen from the entry that it is in. */
  lemma {:induction false} AdvanceHead(sges: seq<Sge>, bytes: nat, idx: nat, off: nat)
    requires CursorOk(sges, idx, off) && 0 < bytes <= |LocsFrom(sges, idx, off)|
    ensures idx < |sges|
    ensures var r, left := Advance(sges, bytes, idx, off), sges[idx].length - off;
      if bytes < left then r.idx == idx && r.off == off + bytes
      else if bytes == left then r.idx == idx + 1 && r.off == 0
      else
        && bytes - left <= |LocsFrom(sges, idx + 1, 0)|
        && r.idx == Advance(sges, bytes - left, idx + 1, 0).idx
        && r.off == Advance(sges, bytes - left, idx + 1, 0).off
  {
    LocsHere(sges, idx, off);
  }

  /** Two cuts of which the first ends in the entry that it begins in. */
  lemma {:induction false} AdvanceTwiceHere(sges: seq<Sge>, a: nat, b: nat, idx: nat, off: nat)
    requires CursorOk(sges, idx, off) && a > 0 && 0 < b && a + b <= |LocsFrom(sges, idx, off)|
    requires idx < |sges| && a <= sges[idx].length - off
    ensures var c, d := Advance(sges, a, idx, off), Advance(sges, a + b, idx, off);
      && b <= |LocsFrom(sges, c.idx, c.off)|
      && Advance(sges, b, c.idx, c.off).idx == d.idx && Advance(sges, b, c.idx, c.off).off == d.off
  {
    AdvanceTakesPrefix(sges, a, idx, off);
    AdvanceHead(sges, a, idx, off);
    AdvanceHead(sges, a + b, idx, off);
    if a < sges[idx].length - off {
      AdvanceHead(sges, b, idx, off + a);
    }
  }

  /** Two cuts leave the cursor where one of the summed size does. */
  predicate TwiceIsOnce(sges: seq<Sge>, a: nat, b: nat, idx: nat, off: nat)
    requires CursorOk(sges, idx, off) && a + b <= |LocsFrom(sges, idx, off)|
  {
    var c, d := Advance(sges, a, idx, off), Advance(sges, a + b, idx, off);
    && b <= |LocsFrom(sges, c.idx, c.off)|
    && Advance(sges, b, c.idx, c.off).idx == d.idx && Advance(sges, b, c.idx, c.off).off == d.off
  }

  lemma {:induction false} TwiceFromNext(sges: seq<Sge>, a: nat, b: nat, idx: nat, off: nat)
    requires CursorOk(sges, idx, off) && 0 < b && a + b <= |LocsFrom(sges, idx, off)|
    requires idx < |sges| && a > sges[idx].length - off
    requires a - (sges[idx].length - off) + b <= |LocsFrom(sges, idx + 1, 0)|
    requires TwiceIsOnce(sges, a - (sges[idx].length - off), b, idx + 1, 0)
    ensures TwiceIsOnce(sges, a, b, idx, off)
  {
    AdvanceHead(sges, a, idx, off);
    AdvanceHead(sges, a + b, idx, off);
  }

  lemma {:induction false} AdvanceTwice(sges: seq<Sge>, a: nat, b: nat, idx: nat, off: nat)
    requires CursorOk(sges, idx, off) && a + b <= |LocsFrom(sges, idx, off)|
    ensures var c, d := Advance(sges, a, idx, off), Advance(sges, a + b, idx, off);
      && b <= |LocsFrom(sges, c.idx, c.off)|
      && Advance(sges, b, c.idx, c.off).idx == d.idx && Advance(sges, b, c.idx, c.off).off == d.off
    decreases |sges| - idx
  {
    assert TwiceIsOnce(sges, a, b, idx, off) by {
      if a == 0 || b == 0 {
        AdvanceTakesPrefix(sges, a, idx, off);
      } else {
        LocsHere(sges, idx, off);
        var left := sges[idx].length - off;
        if a <= left {
          AdvanceTwiceHere(sges, a, b, idx, off);
        } else {
          AdvanceTwice(sges, a - left, b, idx + 1, 0);
          TwiceFromNext(sges, a, b, idx, off);
        }
      }
    }
  }

  /** Pieces taken one after the other from the start of the list. */
  function Pieces(sges: seq<Sge>, sizes: seq<nat>, idx: nat, off: nat): (r: seq<seq<Sge>>)
    requires CursorOk(sges, idx, off)
    requires Sum(sizes) <= |LocsFrom(sges, idx, off)|
    decreases |sizes|
  {
    if sizes == [] then []
    else
      var cut := Advance(sges, sizes[0], idx, off);
      AdvanceTakesPrefix(sges, sizes[0], idx, off);
      [cut.sges] + Pieces(sges, sizes[1..], cut.idx, cut.off)
  }

  function Sum(sizes: seq<nat>): nat {
    if sizes == [] then 0 else sizes[0] + Sum(sizes[1..])
  }

  function Flat(pieces: seq<seq<Sge>>): seq<Sge> {
    if pieces == [] then [] else pieces[0] + Flat(pieces[1..])
  }

  /** However a list is cut, the pieces together are a prefix of it. */
  lemma {:induction false} PiecesArePrefix(sges: seq<Sge>, sizes: seq<nat>, idx: nat, off: nat)
    requires CursorOk(sges, idx, off)
    requires Sum(sizes) <= |LocsFrom(sges, idx, off)|
    ensures Locs(Flat(Pieces(sges, sizes, idx, off))) == LocsFrom(sges, idx, off)[..Sum(sizes)]
    decreases |sizes|
  {
    if sizes != [] {
      var cut, all := Advance(sges, sizes[0], idx, off), LocsFrom(sges, idx, off);
      AdvanceTakesPrefix(sges, sizes[0], idx, off);
      PiecesArePrefix(sges, sizes[1..], cut.idx, cut.off);
      var rest := Pieces(sges, sizes[1..], cut.idx, cut.off);
      LocsConcat(cut.sges, Flat(rest));
      assert Flat([cut.sges] + rest) == cut.sges + Flat(rest);
      assert all[..Sum(sizes)] == all[..sizes[0]] + all[sizes[0]..][..Sum(sizes[1..])];
    }
  }

  /** The three assertions of the length: the cursor names an entry, stands inside it, and
      what is left fits 32 bits. */
  predicate LengthFits(sges: seq<Sge>, idx: nat, off: nat) {
    idx < |sges| && off <= sges[idx].length && |LocsFrom(sges, idx, off)| < WORD
  }

  /** The bytes from the cursor on; None stands for a failed assertion. */
  method SgeLength(sges: seq<Sge>, idx: nat, off: nat) returns (r: Option<uint32>)
    ensures r == if LengthFits(sges, idx, off) then Some(|LocsFrom(sges, idx, off)|) else None
  {
    if idx >= |sges| || off > sges[idx].length {
      return None;
    }
    var total: nat := sges[idx].length - off;
    LocsHere(sges, idx, off);
    ghost var all := |LocsFrom(sges, idx, off)|;
    for i := idx + 1 to |sges|
      invariant total + |LocsFrom(sges, i, 0)| == all
    {
      LocsHere(sges, i, 0);
      total := total + sges[i].length;
    }
    return if total < WORD then Some(total) else None;
  }

  /** What the loop does with one entry. */
  lemma {:induction false} AdvanceEntry(src: seq<Sge>, bytes: nat, idx: nat, off: nat)
    requires CursorOk(src, idx, off) && 0 < bytes <= |LocsFrom(src, idx, off)|
    ensures idx < |src| && off <= src[idx].length
    ensures var r, e, left := Advance(src, bytes, idx, off), src[idx], src[idx].length - off;
      if left > bytes then r == Cut([Sge(e.addr + off, bytes, e.key)], idx, off + bytes)
      else if left == bytes then r == Cut([Sge(e.addr + off, left, e.key)], idx + 1, 0)
      else
        && bytes - left <= |LocsFrom(src, idx + 1, 0)|
        && var t := Advance(src, bytes - left, idx + 1, 0);
        r.sges == [Sge(e.addr + off, left, e.key)] + t.sges && r.idx == t.idx && r.off == t.off
  {
    if idx < |src| {
      LocsHere(src, idx, off);
    }
  }

  /** Writes the next bytes of src to dst and moves the cursor. */
  method SgeAdvance(src: seq<Sge>, bytes: nat, idx0: nat, off0: nat, dst: array<Sge>)
    returns (n: nat, idx: nat, off: nat)
    requires idx0 < |src| && off0 <= src[idx0].length
    requires bytes <= |LocsFrom(src, idx0, off0)|
    requires |Advance(src, bytes, idx0, off0).sges| <= dst.Length
    modifies dst
    ensures n <= dst.Length
    ensures Cut(dst[..n], idx, off) == Advance(src, bytes, idx0, off0)
  {
    n, idx, off := 0, idx0, off0;
    if bytes == 0 {
      return;
    }
    ghost var goal := Advance(src, bytes, idx0, off0);
    var want: nat := bytes;
    assert dst[..0] == [];
    while true
      invariant n <= dst.Length && CursorOk(src, idx, off) && 0 < want <= |LocsFrom(src, idx, off)|
      invariant var rest := Advance(src, want, idx, off);
        goal == Cut(dst[..n] + rest.sges, rest.idx, rest.off)
      decreases |src| - idx
    {
      AdvanceEntry(src, want, idx, off);
      ghost var done, rest := dst[..n], Advance(src, want, idx, off).sges;
      var left := src[idx].length - off;
      var piece := Sge(src[idx].addr + off, Min(left, want), src[idx].key);
      dst[n] := piece;
      assert dst[..n + 1] == done + [piece];
      assert rest == [piece] + rest[1..];
      Assoc(done, [piece], rest[1..]);
      n := n + 1;
      if left > want {
        off := off + want;
        return;
      }
      idx, off := idx + 1, 0;
      if left == want {
        return;
      }
      want := want - left;
    }
  }
}
