/**
 Reference counts balance: what every call keeps, when a memory region goes, and what
 an object in use can rely on.
 */
module Balance {
  import opened Psn
  import opened Types
  import opened Lifetime

  // ----- tables

  lemma {:induction false} HeldUpdate<T>(xs: seq<Option<T>>, i: nat, v: Option<T>, f: T -> multiset<nat>)
    requires i < |xs|
    ensures Held(xs[i := v], f) + Of(xs[i], f) == Held(xs, f) + Of(v, f)
  {
    if i == 0 {
      assert xs[i := v][1..] == xs[1..];
    } else {
      assert xs[i := v][1..] == xs[1..][i - 1 := v];
      HeldUpdate(xs[1..], i - 1, v, f);
      var head, now, was := Of(xs[0], f), Held(xs[1..][i - 1 := v], f), Held(xs[1..], f);
      assert head + now + Of(xs[i], f) == head + (now + Of(xs[i], f));
      assert head + was + Of(v, f) == head + (was + Of(v, f));
    }
  }

  /** What is held is held by one of the objects. */
  lemma {:induction false} HeldBySome<T>(xs: seq<Option<T>>, f: T -> multiset<nat>, k: nat)
    ensures Held(xs, f)[k] > 0 <==> exists i :: 0 <= i < |xs| && xs[i].Some? && f(xs[i].value)[k] > 0
  {
    if xs != [] {
      HeldBySome(xs[1..], f, k);
      if Held(xs[1..], f)[k] > 0 {
        var i :| 0 <= i < |xs[1..]| && xs[1..][i].Some? && f(xs[1..][i].value)[k] > 0;
        assert xs[i + 1].Some? && f(xs[i + 1].value)[k] > 0;
      }
      if i :| 0 < i < |xs| && xs[i].Some? && f(xs[i].value)[k] > 0 {
        assert xs[1..][i - 1] == xs[i];
      }
    }
  }

  /** From what was held before, with x let go and y taken, to what is held now. */
  lemma {:induction false} Shift(was: multiset<nat>, now: multiset<nat>, x: multiset<nat>, y: multiset<nat>,
          owed: multiset<nat>, owes: multiset<nat>)
    requires now + x == was + y
    requires x + owed == y + owes
    ensures now + owes == was + owed
  {
    forall k: nat ensures (now + owes)[k] == (was + owed)[k] {
      assert (now + x)[k] == (was + y)[k];
      assert (x + owed)[k] == (y + owes)[k];
    }
  }

  // ----- counts

  lemma {:induction false} GetCounts(xs: seq<Option<int>>, h: nat, held: multiset<nat>)
    requires Counts(xs, held) && Live(xs, h)
    ensures Counts(GetRef(xs, h), held + multiset{h})
  {
    forall k: nat ensures Ref(GetRef(xs, h), k) == (held + multiset{h})[k] {
      assert Ref(xs, k) == held[k];
    }
  }

  lemma {:induction false} PutCounts(xs: seq<Option<int>>, h: nat, held: multiset<nat>)
    requires Counts(xs, held + multiset{h})
    ensures Live(xs, h) && Counts(PutRef(xs, h), held)
  {
    assert Ref(xs, h) == (held + multiset{h})[h] > 0;
    forall k: nat ensures Ref(PutRef(xs, h), k) == held[k] {
      assert Ref(xs, k) == (held + multiset{h})[k];
    }
  }

  /** An empty slot may get a count of zero, and a count of zero may go. */
  lemma {:induction false} ZeroCounts(xs: seq<Option<int>>, h: nat, v: Option<int>, held: multiset<nat>)
    requires Counts(xs, held) && h < |xs| && Ref(xs, h) == 0 && (v == None || v == Some(0))
    ensures Counts(xs[h := v], held)
  {
    forall k: nat ensures Ref(xs[h := v], k) == held[k] {
      assert Ref(xs, k) == held[k];
    }
  }

  lemma {:induction false} SetMrCounts(mrs: seq<Option<Mr>>, h: nat, v: Option<Mr>, held: multiset<nat>,
          next: multiset<nat>)
    requires MrCounts(mrs, held) && h < |mrs|
    requires forall k: nat :: k != h ==> next[k] == held[k]
    requires next[h] == if v.Some? then v.value.ref else 0
    requires v.Some? && v.value.destroyed ==> v.value.ref > 0
    ensures MrCounts(mrs[h := v], next)
  {
    forall k: nat ensures MrRef(mrs[h := v], k) == next[k] {
      assert MrRef(mrs, k) == held[k];
    }
  }

  // ----- changes to one object

  lemma {:induction false} TakePd(d: Device, h: nat, ps: multiset<nat>, cs: multiset<nat>, ms: multiset<nat>)
    requires Owes(d, ps, cs, ms) && Live(d.pds, h)
    ensures Owes(d.(pds := GetRef(d.pds, h)), ps + multiset{h}, cs, ms)
  {
    GetCounts(d.pds, h, PdUses(d) + ps);
    assert PdUses(d) + ps + multiset{h} == PdUses(d) + (ps + multiset{h});
  }

  lemma {:induction false} GivePd(d: Device, h: nat, ps: multiset<nat>, cs: multiset<nat>, ms: multiset<nat>)
    requires Owes(d, ps + multiset{h}, cs, ms)
    ensures Live(d.pds, h) && Owes(PutPd(d, h), ps, cs, ms)
  {
    assert PdUses(d) + (ps + multiset{h}) == PdUses(d) + ps + multiset{h};
    PutCounts(d.pds, h, PdUses(d) + ps);
  }

  lemma {:induction false} TakeCq(d: Device, h: nat, ps: multiset<nat>, cs: multiset<nat>, ms: multiset<nat>)
    requires Owes(d, ps, cs, ms) && Live(d.cqs, h)
    ensures Owes(d.(cqs := GetRef(d.cqs, h)), ps, cs + multiset{h}, ms)
  {
    GetCounts(d.cqs, h, CqUses(d) + cs);
    assert CqUses(d) + cs + multiset{h} == CqUses(d) + (cs + multiset{h});
  }

  lemma {:induction false} GiveCq(d: Device, h: nat, ps: multiset<nat>, cs: multiset<nat>, ms: multiset<nat>)
    requires Owes(d, ps, cs + multiset{h}, ms)
    ensures Live(d.cqs, h) && Owes(PutCq(d, h), ps, cs, ms)
  {
    assert CqUses(d) + (cs + multiset{h}) == CqUses(d) + cs + multiset{h};
    PutCounts(d.cqs, h, CqUses(d) + cs);
  }

  /** An address handle comes or goes; the reference to its protection domain is owed
      afterwards or was owed before. */
  lemma {:induction false} ChangeAh(d: Device, h: nat, v: Option<Ah>, ps: multiset<nat>, qs: multiset<nat>,
          cs: multiset<nat>, ms: multiset<nat>)
    requires Owes(d, ps, cs, ms) && h < |d.ahs|
    requires Of(d.ahs[h], AhPd()) + ps == Of(v, AhPd()) + qs
    ensures Owes(d.(ahs := d.ahs[h := v]), qs, cs, ms)
  {
    var e := d.(ahs := d.ahs[h := v]);
    assert PdUses(e) + qs == PdUses(d) + ps by {
      var rest := Held(d.mrs, MrPd()) + Held(d.qps, QpPd());
      ShiftHeld(d.ahs, h, v, AhPd(), rest, ps, qs);
      assert PdUses(d) + ps == rest + Held(d.ahs, AhPd()) + ps;
      assert PdUses(e) + qs == rest + Held(e.ahs, AhPd()) + qs;
    }
  }

  /** The same for a memory region.  Its own count agrees with ms, the regions owed after. */
  lemma {:induction false} ChangeMr(d: Device, h: nat, v: Option<Mr>, ps: multiset<nat>, qs: multiset<nat>,
          cs: multiset<nat>, ms: multiset<nat>, ns: multiset<nat>)
    requires Owes(d, ps, cs, ms) && h < |d.mrs|
    requires Of(d.mrs[h], MrPd()) + ps == Of(v, MrPd()) + qs
    requires forall k: nat :: k != h ==> ns[k] == ms[k]
    requires ns[h] + MrRef(d.mrs, h) == ms[h] + if v.Some? then v.value.ref else 0
    requires v.Some? && v.value.destroyed ==> v.value.ref > 0
    ensures Owes(d.(mrs := d.mrs[h := v]), qs, cs, ns)
  {
    var e := d.(mrs := d.mrs[h := v]);
    assert PdUses(e) + qs == PdUses(d) + ps by {
      var rest := Held(d.ahs, AhPd()) + Held(d.qps, QpPd());
      ShiftHeld(d.mrs, h, v, MrPd(), rest, ps, qs);
      assert PdUses(d) + ps == rest + Held(d.mrs, MrPd()) + ps;
      assert PdUses(e) + qs == rest + Held(e.mrs, MrPd()) + qs;
    }
    assert MrRef(d.mrs, h) == (MrUses(d) + ms)[h];
    SetMrCounts(d.mrs, h, v, MrUses(d) + ms, MrUses(d) + ns);
  }

  /** From one table to the next with what is owed besides, whatever else holds. */
  lemma {:induction false} ShiftHeld<T>(xs: seq<Option<T>>, i: nat, v: Option<T>, f: T -> multiset<nat>,
          rest: multiset<nat>, owed: multiset<nat>, owes: multiset<nat>)
    requires i < |xs| && Of(xs[i], f) + owed == Of(v, f) + owes
    ensures rest + Held(xs[i := v], f) + owes == rest + Held(xs, f) + owed
  {
    HeldUpdate(xs, i, v, f);
    Shift(Held(xs, f), Held(xs[i := v], f), Of(xs[i], f), Of(v, f), owed, owes);
    var now, was := Held(xs[i := v], f), Held(xs, f);
    assert rest + now + owes == rest + (now + owes);
    assert rest + was + owed == rest + (was + owed);
  }

  lemma {:induction false} ChangeQp(d: Device, h: nat, v: Option<Qp>, ps: multiset<nat>, qs: multiset<nat>,
          cs: multiset<nat>, ds: multiset<nat>, ms: multiset<nat>, ns: multiset<nat>)
    requires Owes(d, ps, cs, ms) && h < |d.qps|
    requires Of(d.qps[h], QpPd()) + ps == Of(v, QpPd()) + qs
    requires Of(d.qps[h], QpCqs()) + cs == Of(v, QpCqs()) + ds
    requires Of(d.qps[h], QpMrs()) + ms == Of(v, QpMrs()) + ns
    ensures Owes(d.(qps := d.qps[h := v]), qs, ds, ns)
  {
    var e := d.(qps := d.qps[h := v]);
    assert PdUses(e) + qs == PdUses(d) + ps by {
      ShiftHeld(d.qps, h, v, QpPd(), Held(d.ahs, AhPd()) + Held(d.mrs, MrPd()), ps, qs);
    }
    assert CqUses(e) + ds == CqUses(d) + cs by {
      HeldUpdate(d.qps, h, v, QpCqs());
      Shift(Held(d.qps, QpCqs()), Held(e.qps, QpCqs()), Of(d.qps[h], QpCqs()), Of(v, QpCqs()), cs, ds);
    }
    assert MrUses(e) + ns == MrUses(d) + ms by {
      var lost := NamedByAll(d.lost);
      ShiftHeld(d.qps, h, v, QpMrs(), lost, ms, ns);
      assert MrUses(e) + ns == lost + Held(e.qps, QpMrs()) + ns;
      assert MrUses(d) + ms == lost + Held(d.qps, QpMrs()) + ms;
    }
  }

  lemma {:induction false} NamedByAllSnoc(ws: seq<Keys>, w: Keys)
    ensures NamedByAll(ws + [w]) == NamedByAll(ws) + Named(w)
  {
    if ws == [] {
      assert ws + [w] == [w] && [w][1..] == [];
      assert NamedByAll([w]) == Named(w) + NamedByAll([]);
    } else {
      assert (ws + [w])[1..] == ws[1..] + [w];
      NamedByAllSnoc(ws[1..], w);
    }
  }

  lemma {:induction false} NamedBySendsSnoc(ws: seq<Wr>, w: Wr)
    ensures NamedBySends(ws + [w]) == NamedBySends(ws) + Named(HeldBy(w))
  {
    if ws == [] {
      assert ws + [w] == [w] && [w][1..] == [];
      assert NamedBySends([w]) == Named(HeldBy(w)) + NamedBySends([]);
    } else {
      assert (ws + [w])[1..] == ws[1..] + [w];
      NamedBySendsSnoc(ws[1..], w);
    }
  }

  lemma {:induction false} NamedSnoc(keys: Keys)
    requires keys != []
    ensures Named(keys) == Named(keys[..|keys| - 1]) + multiset{Index(keys[|keys| - 1])}
  {
    var n := |keys| - 1;
    assert keys == keys[..n] + [keys[n]];
    NamedAppend(keys[..n], keys[n]);
  }

  lemma {:induction false} NamedAppend(keys: Keys, key: uint32)
    ensures Named(keys + [key]) == Named(keys) + multiset{Index(key)}
  {
    if keys == [] {
      assert keys + [key] == [key] && [key][1..] == [];
    } else {
      assert (keys + [key])[1..] == keys[1..] + [key];
      NamedAppend(keys[1..], key);
    }
  }

  lemma {:induction false} LoseOwes(d: Device, w: Keys, ps: multiset<nat>, cs: multiset<nat>, ms: multiset<nat>)
    requires Owes(d, ps, cs, ms + Named(w))
    ensures Owes(Lose(d, Some(w)), ps, cs, ms)
  {
    NamedByAllSnoc(d.lost, w);
    assert MrUses(Lose(d, Some(w))) + ms == MrUses(d) + (ms + Named(w));
  }

  // ----- memory regions

  lemma {:induction false} GetMrOwes(d: Device, h: nat, ps: multiset<nat>, cs: multiset<nat>, ms: multiset<nat>)
    requires Owes(d, ps, cs, ms) && Live(d.mrs, h)
    ensures Owes(GetMr(d, h), ps, cs, ms + multiset{h})
  {
    var mr := d.mrs[h].value;
    var more := Some(mr.(ref := mr.ref + 1));
    assert Of(d.mrs[h], MrPd()) == Of(more, MrPd());
    ChangeMr(d, h, more, ps, ps, cs, ms, ms + multiset{h});
  }

  lemma {:induction false} DropMr(d: Device, h: nat, ps: multiset<nat>, cs: multiset<nat>, ms: multiset<nat>,
          ns: multiset<nat>)
    requires Owes(d, ps, cs, ms) && Live(d.mrs, h)
    requires forall k: nat :: k != h ==> ns[k] == ms[k]
    requires ns[h] + d.mrs[h].value.ref == ms[h]
    ensures Owes(PutPd(d.(mrs := d.mrs[h := None]), d.mrs[h].value.pd), ps, cs, ns)
  {
    var pd := d.mrs[h].value.pd;
    assert Of(d.mrs[h], MrPd()) + ps == Of(None, MrPd()) + (ps + multiset{pd});
    ChangeMr(d, h, None, ps, ps + multiset{pd}, cs, ms, ns);
    GivePd(d.(mrs := d.mrs[h := None]), pd, ps, cs, ns);
  }

  /** Giving back a reference ends a region only if it was the last and it is marked. */
  lemma {:induction false} PutMrIs(d: Device, h: nat)
    requires Live(d.mrs, h)
    ensures var mr := d.mrs[h].value;
      PutMr(d, h) == if mr.destroyed && mr.ref == 1 then PutPd(d.(mrs := d.mrs[h := None]), mr.pd)
                     else d.(mrs := d.mrs[h := Some(mr.(ref := mr.ref - 1))])
  {
    var mr := d.mrs[h].value;
    var less := mr.(ref := mr.ref - 1);
    assert d.mrs[h := Some(less)][h := None] == d.mrs[h := None];
    assert d.mrs[h := Some(less)][h := Some(less)] == d.mrs[h := Some(less)];
  }

  lemma {:induction false} NamedIsLive(d: Device, h: nat, held: multiset<nat>)
    requires MrCounts(d.mrs, held) && held[h] > 0
    ensures Live(d.mrs, h) && d.mrs[h].value.ref > 0
  {
    assert MrRef(d.mrs, h) == held[h];
  }

  lemma {:induction false} PutMrOwes(d: Device, h: nat, ps: multiset<nat>, cs: multiset<nat>, ms: multiset<nat>)
    requires Owes(d, ps, cs, ms + multiset{h})
    ensures Live(d.mrs, h) && Owes(PutMr(d, h), ps, cs, ms)
  {
    NamedIsLive(d, h, MrUses(d) + (ms + multiset{h}));
    assert MrCounts(d.mrs, MrUses(d) + (ms + multiset{h}));
    PutMrIs(d, h);
    var mr := d.mrs[h].value;
    if mr.destroyed && mr.ref == 1 {
      DropMr(d, h, ps, cs, ms + multiset{h}, ms);
    } else {
      LessMrOwes(d, h, ps, cs, ms);
    }
  }

  lemma {:induction false} LessMrOwes(d: Device, h: nat, ps: multiset<nat>, cs: multiset<nat>, ms: multiset<nat>)
    requires Owes(d, ps, cs, ms + multiset{h}) && Live(d.mrs, h)
    requires d.mrs[h].value.destroyed ==> d.mrs[h].value.ref > 1
    ensures Owes(d.(mrs := d.mrs[h := Some(d.mrs[h].value.(ref := d.mrs[h].value.ref - 1))]), ps, cs, ms)
  {
    var mr := d.mrs[h].value;
    var less := Some(mr.(ref := mr.ref - 1));
    assert Of(d.mrs[h], MrPd()) == Of(less, MrPd());
    ChangeMr(d, h, less, ps, ps, cs, ms + multiset{h}, ms);
  }

  lemma {:induction false} PutAllOwes(d: Device, keys: Keys, ps: multiset<nat>, cs: multiset<nat>, ms: multiset<nat>)
    requires Owes(d, ps, cs, ms + Named(keys))
    ensures Owes(PutAll(d, keys), ps, cs, ms)
    decreases |keys|
  {
    if keys == [] {
      assert ms + Named(keys) == ms;
    } else {
      var h := Index(keys[0]);
      assert ms + Named(keys) == ms + Named(keys[1..]) + multiset{h};
      PutMrOwes(d, h, ps, cs, ms + Named(keys[1..]));
      PutAllOwes(PutMr(d, h), keys[1..], ps, cs, ms);
    }
  }

  /** Taking references makes and ends no region. */
  lemma {:induction false} GetAllLive(d: Device, keys: Keys, h: nat)
    ensures Live(GetAll(d, keys).mrs, h) == Live(d.mrs, h)
    ensures GetAll(d, keys).(mrs := d.mrs) == d
    ensures Live(d.mrs, h) ==> GetAll(d, keys).mrs[h].value.(ref := d.mrs[h].value.ref) == d.mrs[h].value
                               && GetAll(d, keys).mrs[h].value.ref >= d.mrs[h].value.ref
  {
    if keys != [] {
      GetAllLive(d, keys[..|keys| - 1], h);
    }
  }

  lemma {:induction false} GetAllOwes(d: Device, keys: Keys, ps: multiset<nat>, cs: multiset<nat>, ms: multiset<nat>)
    requires Owes(d, ps, cs, ms) && AllLive(d.mrs, keys)
    ensures Owes(GetAll(d, keys), ps, cs, ms + Named(keys))
  {
    if keys == [] {
      assert ms + Named(keys) == ms;
    } else {
      var init, h := keys[..|keys| - 1], Index(keys[|keys| - 1]);
      GetAllOwes(d, init, ps, cs, ms);
      GetAllLive(d, init, h);
      GetMrOwes(GetAll(d, init), h, ps, cs, ms + Named(init));
      NamedSnoc(keys);
      assert ms + Named(init) + multiset{h} == ms + Named(keys);
    }
  }

  /** Giving back what was just taken undoes it, also for a region marked for destruction,
      as long as it is still in use. */
  lemma {:induction false} RollbackIsExact(d: Device, keys: Keys)
    requires AllLive(d.mrs, keys)
    requires forall k :: 0 <= k < |d.mrs| && d.mrs[k].Some? && d.mrs[k].value.destroyed ==> d.mrs[k].value.ref > 0
    ensures PutBack(GetAll(d, keys), keys) == d
  {
    if keys != [] {
      var init, h := keys[..|keys| - 1], Index(keys[|keys| - 1]);
      GetAllLive(d, init, h);
      assert Live(d.mrs, h);
      PutUndoesGet(GetAll(d, init), h);
      RollbackIsExact(d, init);
    }
  }

  lemma {:induction false} PutUndoesGet(d: Device, h: nat)
    requires Live(d.mrs, h) && (d.mrs[h].value.destroyed ==> d.mrs[h].value.ref != 0)
    ensures PutMr(GetMr(d, h), h) == d
  {
    var mr := d.mrs[h].value;
    var put := GetMr(d, h).(mrs := GetMr(d, h).mrs[h := Some(mr)]);
    assert put.mrs == d.mrs;
    if mr.destroyed {
      assert put.mrs[h := Some(mr)] == d.mrs;
    }
  }

  /** References are taken for all the entries of a request or for none. */
  lemma {:induction false} AllOrNone(d: Device, keys: Keys, ps: multiset<nat>, cs: multiset<nat>, ms: multiset<nat>)
    requires Owes(d, ps, cs, ms)
    ensures GetMrs(d, keys).1 == 0 <==> AllLive(d.mrs, keys)
    ensures GetMrs(d, keys).1 == 0 ==> GetMrs(d, keys).0 == GetAll(d, keys)
                                       && Owes(GetAll(d, keys), ps, cs, ms + Named(keys))
    ensures GetMrs(d, keys).1 != 0 ==> GetMrs(d, keys) == (d, -EACCES)
  {
    var n := Found(d.mrs, keys);
    if n == |keys| {
      assert keys[..n] == keys;
      GetAllOwes(d, keys, ps, cs, ms);
    } else {
      RollbackIsExact(d, keys[..n]);
    }
  }
}
