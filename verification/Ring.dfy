/**
 The intrusive ring under every queue: nodes linked both ways through a head, with no
 other record of what the queue holds.
 */
module Ring {
  class Node {
    var next: Node
    var prev: Node

    /** A node, or the head of an empty list, is linked to itself. */
    constructor ()
      ensures next == this && prev == this
    {
      next, prev := this, this;
    }
  }

  /** Around the ring once, from the head back to the head. */
  function Walk(h: Node, s: seq<Node>): (w: seq<Node>)
    ensures |w| == |s| + 2
  {
    [h] + s + [h]
  }

  predicate Linked(w: seq<Node>)
    reads w
  {
    forall i :: 0 <= i < |w| - 1 ==> w[i].next == w[i + 1] && w[i + 1].prev == w[i]
  }

  predicate NoRepeat(w: seq<Node>) {
    forall i, j :: 0 <= i < j < |w| ==> w[i] != w[j]
  }

  /** The list with head h holds exactly s, in order. */
  predicate Holds(h: Node, s: seq<Node>)
    reads h, s
  {
    NoRepeat([h] + s) && Linked(Walk(h, s))
  }

  predicate Apart(a: seq<Node>, b: seq<Node>) {
    forall x :: x in a ==> x !in b
  }

  lemma {:induction false} Ends(h: Node, s: seq<Node>)
    requires Holds(h, s)
    ensures h.next == (if s == [] then h else s[0]) && h.prev == (if s == [] then h else s[|s| - 1])
  {
    var w := Walk(h, s);
    assert w[0].next == w[1] && w[|s| + 1].prev == w[|s|];
  }

  lemma {:induction false} Neighbours(h: Node, s: seq<Node>, i: nat)
    requires Holds(h, s) && i < |s|
    ensures s[i].prev == (if i == 0 then h else s[i - 1])
    ensures s[i].next == (if i == |s| - 1 then h else s[i + 1])
    ensures s[i].prev in [h] + s && s[i].next in [h] + s
  {
    var w := Walk(h, s);
    assert w[i].next == w[i + 1] == s[i] && w[i + 1].prev == w[i];
    assert w[i + 1].next == w[i + 2];
  }

  method Empty(h: Node, ghost s: seq<Node>) returns (b: bool)
    requires Holds(h, s)
    ensures b <==> s == []
  {
    Ends(h, s);
    assert s != [] ==> ([h] + s)[0] != ([h] + s)[1];
    return h.next == h;
  }

  method Init(h: Node)
    modifies h
    ensures Holds(h, [])
  {
    h.next, h.prev := h, h;
    assert Walk(h, []) == [h, h];
  }

  /** n joins the end of the list. */
  method AddTail(h: Node, n: Node, ghost s: seq<Node>)
    requires Holds(h, s) && n !in [h] + s
    modifies h, n, h.prev
    ensures Holds(h, s + [n])
  {
    ghost var w := Walk(h, s);
    Ends(h, s);
    n.next := h;
    n.prev := h.prev;
    h.prev.next := n;
    h.prev := n;
    AppendedNoRepeat([h] + s, n);
    assert [h] + (s + [n]) == ([h] + s) + [n];
    ghost var v := Walk(h, s + [n]);
    assert v[..|s| + 1] == w[..|s| + 1];
    forall i | 0 <= i < |v| - 1
      ensures v[i].next == v[i + 1] && v[i + 1].prev == v[i]
    {
      if i < |s| {
        assert v[i] == w[i] && v[i + 1] == w[i + 1];
        assert ([h] + s)[i] != ([h] + s)[|s|] && ([h] + s)[0] != ([h] + s)[i + 1];
      }
    }
  }

  lemma {:induction false} AppendedNoRepeat(c: seq<Node>, n: Node)
    requires NoRepeat(c) && n !in c
    ensures NoRepeat(c + [n])
  {
  }

  /** Entry i leaves the list it is in, wherever that is; its own links stay as they are. */
  method Del(n: Node, ghost h: Node, ghost s: seq<Node>, ghost i: nat)
    requires Holds(h, s) && i < |s| && n == s[i]
    modifies n.prev, n.next
    ensures Holds(h, s[..i] + s[i + 1..])
    ensures n.next == old(n.next) && n.prev == old(n.prev)
  {
    ghost var c, w, t := [h] + s, Walk(h, s), s[..i] + s[i + 1..];
    Neighbours(h, s, i);
    assert w[i] == n.prev && w[i + 1] == n && w[i + 2] == n.next;
    DistinctAround(h, s, i);
    n.next.prev := n.prev;
    n.prev.next := n.next;
    RemovedNoRepeat(h, s, i);
    ghost var v := Walk(h, t);
    forall k | 0 <= k < |v| - 1
      ensures v[k].next == v[k + 1] && v[k + 1].prev == v[k]
    {
      if k < i {
        assert v[k] == w[k] && v[k + 1] == w[k + 1];
        WalkDiffers(h, s, k, i);
      } else if k == i {
        assert v[k] == w[k] && v[k + 1] == w[k + 2];
      } else {
        assert v[k] == w[k + 1] && v[k + 1] == w[k + 2];
        WalkDiffers(h, s, k + 1, i);
      }
    }
  }

  lemma {:induction false} RemovedNoRepeat(h: Node, s: seq<Node>, i: nat)
    requires NoRepeat([h] + s) && i < |s|
    ensures NoRepeat([h] + (s[..i] + s[i + 1..]))
  {
    var c, d := [h] + s, [h] + (s[..i] + s[i + 1..]);
    forall k, l | 0 <= k < l < |d|
      ensures d[k] != d[l]
    {
      assert d[k] == c[if k <= i then k else k + 1] && d[l] == c[if l <= i then l else l + 1];
    }
  }

  lemma {:induction false} DistinctAround(h: Node, s: seq<Node>, i: nat)
    requires NoRepeat([h] + s) && i < |s|
    ensures Walk(h, s)[i] != s[i] && Walk(h, s)[i + 2] != s[i]
  {
    var c := [h] + s;
    assert c[i + 1] == s[i] && Walk(h, s)[i] == c[i];
    assert Walk(h, s)[i + 2] == c[if i + 2 < |c| then i + 2 else 0];
  }

  /** The other links of the ring start and end at other nodes than the two at entry i. */
  lemma {:induction false} WalkDiffers(h: Node, s: seq<Node>, k: nat, i: nat)
    requires NoRepeat([h] + s) && i < |s| && k <= |s| && k != i && k != i + 1
    ensures Walk(h, s)[k] != Walk(h, s)[i]
    ensures Walk(h, s)[k + 1] != Walk(h, s)[i + 2]
  {
    var c, w := [h] + s, Walk(h, s);
    assert w[k] == c[k] && w[i] == c[i];
    assert w[k + 1] == c[if k + 1 < |c| then k + 1 else 0];
    assert w[i + 2] == c[if i + 2 < |c| then i + 2 else 0];
  }

  method DelFirst(h: Node, ghost s: seq<Node>) returns (n: Node)
    requires Holds(h, s) && s != []
    modifies h, s
    ensures n == s[0] && Holds(h, s[1..])
  {
    Ends(h, s);
    Neighbours(h, s, 0);
    n := h.next;
    Del(n, h, s, 0);
    assert s[..0] + s[1..] == s[1..];
  }

  /** The first entry is taken off, if there is one. */
  method Pop(h: Node, ghost s: seq<Node>) returns (n: Node?)
    requires Holds(h, s)
    modifies h, s
    ensures s == [] ==> n == null && Holds(h, s)
    ensures s != [] ==> n == s[0] && Holds(h, s[1..])
  {
    var b := Empty(h, s);
    if b {
      return null;
    }
    n := DelFirst(h, s);
  }

  lemma {:induction false} JoinedNoRepeat(a: seq<Node>, b: seq<Node>)
    requires NoRepeat(a) && NoRepeat(b) && Apart(a, b)
    ensures NoRepeat(a + b)
  {
    forall i, j | 0 <= i < j < |a + b|
      ensures (a + b)[i] != (a + b)[j]
    {
      if i < |a| <= j {
        assert (a + b)[i] in a && (a + b)[j] in b;
      }
    }
  }

  /** The list of from, its head included, is sewn onto the end of that of to. */
  method Sew(to: Node, from: Node, ghost s: seq<Node>, ghost t: seq<Node>)
    requires Holds(to, s) && Holds(from, t) && Apart([to] + s, [from] + t)
    modifies to, from, to.prev, from.prev
    ensures Holds(to, s + [from] + t)
  {
    ghost var wt, wf := Walk(to, s), Walk(from, t);
    AwayFrom(to, s, from, t);
    var fromTail, toTail := from.prev, to.prev;
    assert wt[|s| + 1].prev == wt[|s|] && wf[|t| + 1].prev == wf[|t|];
    assert fromTail == wf[|t|] && toTail == wt[|s|] && from == wf[0] && to == wt[0];
    to.prev := fromTail;
    fromTail.next := to;
    toTail.next := from;
    from.prev := toTail;
    ghost var all := s + [from] + t;
    ghost var v := Walk(to, all);
    JoinedNoRepeat([to] + s, [from] + t);
    assert [to] + all == ([to] + s) + ([from] + t);
    forall k | 0 <= k < |v| - 1
      ensures v[k].next == v[k + 1] && v[k + 1].prev == v[k]
    {
      var j := k - |s| - 1;
      if j < -1 {
        assert v[k] == wt[k] && v[k + 1] == wt[k + 1];
        InsideOf(to, s, k);
      } else if 0 <= j < |t| {
        assert v[k] == wf[j] && v[k + 1] == wf[j + 1];
        InsideOf(from, t, j);
      }
    }
  }

  lemma {:induction false} NotAround(c: seq<Node>, x: Node, d: seq<Node>)
    requires NoRepeat(c + [x] + d)
    ensures x !in c + d
  {
    var all := c + [x] + d;
    assert all[|c|] == x;
    forall y | y in c + d
      ensures y != x
    {
      var i :| 0 <= i < |c + d| && (c + d)[i] == y;
      assert y == all[if i < |c| then i else i + 1];
    }
  }

  /** The list of from is appended to that of to, and from is left empty. */
  method AppendList(to: Node, from: Node, ghost s: seq<Node>, ghost t: seq<Node>)
    requires Holds(to, s) && Holds(from, t) && Apart([to] + s, [from] + t)
    modifies to, from, s, t
    ensures Holds(to, s + t) && Holds(from, [])
  {
    ghost var all := s + [from] + t;
    Ends(to, s);
    Ends(from, t);
    Sew(to, from, s, t);
    assert all[|s|] == from && all[..|s|] + all[|s| + 1..] == s + t;
    assert [to] + all == [to] + s + [from] + t && [to] + (s + t) == [to] + s + t;
    NotAround([to] + s, from, t);
    Neighbours(to, all, |s|);
    Del(from, to, all, |s|);
    Init(from);
  }

  /** The links inside a list leave the last node and the head's back link alone. */
  lemma {:induction false} InsideOf(h: Node, s: seq<Node>, k: nat)
    requires NoRepeat([h] + s) && k < |s|
    ensures Walk(h, s)[k] != Walk(h, s)[|s|] && Walk(h, s)[k + 1] != h
  {
    var c, w := [h] + s, Walk(h, s);
    assert w[k] == c[k] && w[k + 1] == c[k + 1] && w[|s|] == c[|s|] && c[0] == h;
  }

  lemma {:induction false} AwayFrom(to: Node, s: seq<Node>, from: Node, t: seq<Node>)
    requires Apart([to] + s, [from] + t)
    ensures forall i, j :: 0 <= i < |s| + 2 && 0 <= j < |t| + 2 ==> Walk(to, s)[i] != Walk(from, t)[j]
  {
    var a, b, v, w := [to] + s, [from] + t, Walk(to, s), Walk(from, t);
    forall i, j | 0 <= i < |v| && 0 <= j < |w|
      ensures v[i] != w[j]
    {
      assert v[i] == a[if i < |a| then i else 0] && w[j] == b[if j < |b| then j else 0];
      assert v[i] in a && w[j] in b;
    }
  }

  lemma {:induction false} RestWalk(h: Node, s: seq<Node>)
    requires NoRepeat([h] + s) && s != []
    ensures s[0] !in [h] + s[1..]
    ensures forall k :: 0 <= k < |s| + 1 ==> Walk(h, s[1..])[k] in [h] + s && Walk(h, s[1..])[k] != s[0]
  {
    var c, d := [h] + s, [h] + s[1..];
    forall i | 0 <= i < |d|
      ensures d[i] in c && d[i] != s[0]
    {
      assert d[i] == c[if i == 0 then 0 else i + 1] && s[0] == c[1];
    }
    forall k | 0 <= k < |s| + 1
      ensures Walk(h, s[1..])[k] in c && Walk(h, s[1..])[k] != s[0]
    {
      assert Walk(h, s[1..])[k] == d[if k < |s| then k else 0];
    }
  }

  lemma {:induction false} Separate(g: Node, s: seq<Node>, h: Node, t: seq<Node>)
    requires Apart([g] + s, [h] + t)
    ensures forall k :: 0 <= k < |t| + 2 ==> Walk(h, t)[k] != g && Walk(h, t)[k] !in s
  {
    var w := Walk(h, t);
    assert g in [g] + s && forall x :: x in s ==> x in [g] + s;
    forall k | 0 <= k < |w|
      ensures w[k] != g && w[k] !in s
    {
      assert w[k] == ([h] + t)[if k < |t| + 1 then k else 0];
      assert w[k] in [h] + t;
    }
  }

  /** A packet goes from the head of one queue to the end of another. */
  method MoveHead(pending: Node, outgoing: Node, ghost s: seq<Node>, ghost t: seq<Node>)
    requires Holds(pending, s) && s != [] && Holds(outgoing, t) && Apart([pending] + s, [outgoing] + t)
    modifies pending, outgoing, s, t
    ensures Holds(pending, s[1..]) && Holds(outgoing, t + [s[0]])
  {
    Separate(pending, s, outgoing, t);
    var n := DelFirst(pending, s);
    RestWalk(pending, s);
    Ends(outgoing, t);
    assert n in [pending] + s && outgoing in [outgoing] + t && outgoing.prev in [outgoing] + t;
    AddTail(outgoing, n, t);
  }
}
