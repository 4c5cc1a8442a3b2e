/**
 A sequence of messages, each cut into numbered packets, and the stream of packets
 that they make up together.  cut says how one message is cut when its first packet
 has a given number.
 */
module Streams {
  function Stream<M, P>(cut: (M, int) -> seq<P>, msgs: seq<M>, n: int): seq<P> {
    if msgs == [] then []
    else
      var p := cut(msgs[0], n);
      p + Stream(cut, msgs[1..], n + |p|)
  }

  lemma {:induction false} Glue<T>(p: seq<T>, t: seq<T>, u: seq<T>, pt: seq<T>)
    requires pt == p + t
    ensures p + (t + u) == pt + u && |pt| == |p| + |t|
  {
  }

  lemma {:induction false} StreamCons<M, P>(cut: (M, int) -> seq<P>, a: seq<M>, z: seq<M>, n: int)
    requires a != []
    ensures var p := cut(a[0], n);
      Stream(cut, a + z, n) == p + Stream(cut, a[1..] + z, n + |p|)
  {
    assert (a + z)[0] == a[0] && (a + z)[1..] == a[1..] + z;
  }

  lemma {:induction false} StreamConcat<M, P>(cut: (M, int) -> seq<P>, a: seq<M>, z: seq<M>, n: int)
    ensures Stream(cut, a + z, n) == Stream(cut, a, n) + Stream(cut, z, n + |Stream(cut, a, n)|)
  {
    if a == [] {
      assert a + z == z;
    } else {
      var p, m := cut(a[0], n), n + |cut(a[0], n)|;
      var t := Stream(cut, a[1..], m);
      StreamConcat(cut, a[1..], z, m);
      StreamCons(cut, a, z, n);
      Glue(p, t, Stream(cut, z, m + |t|), Stream(cut, a, n));
    }
  }

  lemma {:induction false} StreamOfOne<M, P>(cut: (M, int) -> seq<P>, m: M, n: int)
    ensures Stream(cut, [m], n) == cut(m, n)
  {
    assert [m][1..] == [];
  }

  lemma {:induction false} StreamPrefix<M, P>(cut: (M, int) -> seq<P>, a: seq<M>, d: nat, n: int)
    requires d <= |a|
    ensures Stream(cut, a[..d], n) <= Stream(cut, a, n)
  {
    assert a == a[..d] + a[d..];
    StreamConcat(cut, a[..d], a[d..], n);
  }

  /** How many whole messages are among the first k packets of a stream. */
  function Whole<M, P>(cut: (M, int) -> seq<P>, msgs: seq<M>, n: int, k: nat): (d: nat)
    ensures d <= |msgs|
  {
    if msgs == [] then 0
    else
      var p := |cut(msgs[0], n)|;
      if k < p then 0 else 1 + Whole(cut, msgs[1..], n + p, k - p)
  }

  /** They fit in k packets, and one more message would not. */
  lemma {:induction false} WholeFits<M, P>(cut: (M, int) -> seq<P>, msgs: seq<M>, n: int, k: nat)
    ensures var d := Whole(cut, msgs, n, k);
      |Stream(cut, msgs[..d], n)| <= k && (d < |msgs| ==> k < |Stream(cut, msgs[..d + 1], n)|)
  {
    if msgs != [] {
      var p, d := |cut(msgs[0], n)|, Whole(cut, msgs, n, k);
      if k < p {
        StreamOfOne(cut, msgs[0], n);
        assert msgs[..1] == [msgs[0]];
      } else {
        WholeFits(cut, msgs[1..], n + p, k - p);
        assert msgs[..d][0] == msgs[0] && msgs[..d][1..] == msgs[1..][..d - 1];
        if d < |msgs| {
          assert msgs[..d + 1][0] == msgs[0] && msgs[..d + 1][1..] == msgs[1..][..d];
        }
      }
    }
  }

  lemma {:induction false} TakeAcross<T>(p: seq<T>, t: seq<T>, k: nat)
    requires k <= |p| + |t|
    ensures (p + t)[..k] == if k < |p| then p[..k] else p[..|p|] + t[..k - |p|]
  {
  }

  /** More whole messages never fit in fewer packets. */
  lemma {:induction false} WholeGrows<M, P>(cut: (M, int) -> seq<P>, msgs: seq<M>, n: int, k: nat, j: nat)
    requires k <= j
    ensures Whole(cut, msgs, n, k) <= Whole(cut, msgs, n, j)
  {
    if msgs != [] {
      var p := |cut(msgs[0], n)|;
      if p <= k {
        WholeGrows(cut, msgs[1..], n + p, k - p, j - p);
      }
    }
  }
}
