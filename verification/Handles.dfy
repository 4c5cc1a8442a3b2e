/**
 What creating and destroying objects returns, and what it does to the tables, slot by slot.
 */
module Handles {
  import opened Psn
  import opened Types
  import opened Lifetime
  import O = Ownership

  /** h is the first empty slot of a table. */
  predicate FirstEmpty<T>(slots: seq<Option<T>>, h: int) {
    0 <= h < |slots| && slots[h].None? && forall j :: 0 <= j < h ==> slots[j].Some?
  }

  predicate Full<T>(slots: seq<Option<T>>) { forall j :: 0 <= j < |slots| ==> slots[j].Some? }

  lemma {:induction false} FreeIsFirst<T>(slots: seq<Option<T>>)
    ensures var i := FirstFree(slots);
      if i == |slots| then Full(slots) else FirstEmpty(slots, i)
  {
  }

  lemma {:induction false} PutUndoesGet(xs: seq<Option<int>>, h: nat)
    requires Live(xs, h)
    ensures Live(GetRef(xs, h), h) && PutRef(GetRef(xs, h), h) == xs
    ensures GetRef(xs, h) == xs[h := Some(xs[h].value + 1)]
  {
  }

  /** A domain gets the first empty slot, with no reference; -16 is EBUSY. */
  lemma {:induction false} NewPd(d: Device)
    ensures var (t, h) := AllocPd(d);
      if Full(d.pds) then t == d && h == -16
      else FirstEmpty(d.pds, h) && t == d.(pds := d.pds[h := Some(0)])
  {
    FreeIsFirst(d.pds);
  }

  /** So does a completion queue of a size that is allowed; -22 is EINVAL. */
  lemma {:induction false} NewCq(d: Device, sizeOk: bool)
    ensures var (t, h) := CreateCq(d, sizeOk);
      if !sizeOk || Full(d.cqs) then t == d && h == if sizeOk then -16 else -22
      else FirstEmpty(d.cqs, h) && t == d.(cqs := d.cqs[h := Some(0)])
  {
    FreeIsFirst(d.cqs);
  }

  /** An address handle gets the first empty slot and takes a reference to its domain. */
  lemma {:induction false} NewAh(d: Device, pd: nat)
    ensures var (t, h) := CreateAh(d, pd);
      if !Live(d.pds, pd) || Full(d.ahs) then t == d && h == if Live(d.pds, pd) then -16 else -22
      else
        && FirstEmpty(d.ahs, h)
        && t == d.(ahs := d.ahs[h := Some(Ah(pd))], pds := d.pds[pd := Some(d.pds[pd].value + 1)])
  {
    FreeIsFirst(d.ahs);
    if Live(d.pds, pd) {
      PutUndoesGet(d.pds, pd);
    }
  }

  /** So does a region, unmarked and unused. */
  lemma {:induction false} NewMr(d: Device, pd: nat, pageOk: bool, refused: int)
    requires refused <= 0
    ensures var (t, h) := CreateMr(d, pd, pageOk, refused);
      if !pageOk || !Live(d.pds, pd) then t == d && h == -22
      else if refused != 0 || Full(d.mrs) then t == d && h == if refused != 0 then refused else -16
      else
        && FirstEmpty(d.mrs, h)
        && t == d.(mrs := d.mrs[h := Some(Mr(pd, 0, false))], pds := d.pds[pd := Some(d.pds[pd].value + 1)])
  {
    FreeIsFirst(d.mrs);
    if Live(d.pds, pd) {
      PutUndoesGet(d.pds, pd);
    }
  }

  /** A queue pair takes references to its domain and its completion queues, twice where they
      are the same; its receive queue is not checked. */
  lemma {:induction false} NewQp(d: Device, pd: nat, scq: nat, rcq: nat, argsOk: bool)
    ensures var (t, h) := CreateQp(d, pd, scq, rcq, argsOk);
      if !argsOk || !Live(d.pds, pd) || !Live(d.cqs, scq) || Full(d.qps) then t == d && h == -22
      else
        && FirstEmpty(d.qps, h)
        && t.qps == d.qps[h := Some(Qp(pd, scq, if Live(d.cqs, rcq) then Some(rcq) else None, [], [], None))]
        && t.pds == d.pds[pd := Some(d.pds[pd].value + 1)]
        && Taken(d.cqs, t.cqs, scq, rcq)
        && t == d.(qps := t.qps, pds := t.pds, cqs := t.cqs)
  {
    FreeIsFirst(d.qps);
    if argsOk && Live(d.pds, pd) && Live(d.cqs, scq) {
      PutUndoesGet(d.pds, pd);
      PutUndoesBoth(d.cqs, scq, rcq);
    }
  }

  /** Each count is up by the references that the two handles take. */
  predicate Taken(was: seq<Option<int>>, now: seq<Option<int>>, scq: nat, rcq: nat) {
    && |now| == |was|
    && forall k :: 0 <= k < |was| ==>
         if was[k].None? then now[k].None?
         else now[k] == Some(was[k].value + (if k == scq then 1 else 0) + (if k == rcq then 1 else 0))
  }

  lemma {:induction false} PutUndoesBoth(xs: seq<Option<int>>, scq: nat, rcq: nat)
    requires Live(xs, scq)
    ensures var both := GetRef(GetRef(xs, scq), rcq);
      && Taken(xs, both, scq, rcq) && Live(both, scq)
      && (Live(xs, rcq) ==> Live(PutRef(both, scq), rcq) && PutRef(PutRef(both, scq), rcq) == xs)
      && (!Live(xs, rcq) ==> PutRef(both, scq) == xs)
  {
    var both := GetRef(GetRef(xs, scq), rcq);
    if Live(xs, rcq) {
      assert PutRef(PutRef(both, scq), rcq) == xs;
    } else {
      assert PutRef(both, scq) == xs;
    }
  }

  // ----- the ends

  /** A domain or a completion queue goes exactly if it is there and has no references. */
  lemma {:induction false} CountedGoes(d: Device, h: nat)
    ensures var (t, ret) := DeallocPd(d, h);
      if Live(d.pds, h) && d.pds[h].value == 0 then ret == 0 && t == d.(pds := d.pds[h := None])
      else t == d && ret == if Live(d.pds, h) then -16 else -22
    ensures var (t, ret) := DestroyCq(d, h);
      if Live(d.cqs, h) && d.cqs[h].value == 0 then ret == 0 && t == d.(cqs := d.cqs[h := None])
      else t == d && ret == if Live(d.cqs, h) then -16 else -22
  {
  }

  /** An address handle, and a region that is not used, go and give back their references to
      the domain; a region that is used is marked. */
  lemma {:induction false} HolderGoes(d: Device, h: nat)
    ensures var (t, ret) := DestroyAh(d, h);
      if !Live(d.ahs, h) then t == d && ret == -22
      else ret == 0 && t.ahs == d.ahs[h := None] && Dropped(d, t, d.ahs[h].value.pd) && t.mrs == d.mrs
    ensures var (t, ret) := DestroyMr(d, h);
      if !Live(d.mrs, h) then t == d && ret == -22
      else if d.mrs[h].value.ref != 0 then
        ret == 0 && t == d.(mrs := d.mrs[h := Some(d.mrs[h].value.(destroyed := true))])
      else ret == 0 && t.mrs == d.mrs[h := None] && Dropped(d, t, d.mrs[h].value.pd) && t.ahs == d.ahs
  {
  }

  /** One reference to a domain less, which is asserted to be there. */
  predicate Dropped(d: Device, t: Device, pd: nat) {
    && t.cqs == d.cqs && t.qps == d.qps && t.lost == d.lost
    && (Live(d.pds, pd) ==> t.pds == d.pds[pd := Some(d.pds[pd].value - 1)] && t.aborted == d.aborted)
    && (!Live(d.pds, pd) ==> t.pds == d.pds && t.aborted)
  }

  // ----- the work queues

  lemma {:induction false} GetOnlyRegions(d: Device, keys: Keys)
    ensures GetAll(d, keys).(mrs := d.mrs) == d
  {
    if keys != [] {
      GetOnlyRegions(d, keys[..|keys| - 1]);
    }
  }

  lemma {:induction false} PutBackOnlyRegions(d: Device, keys: Keys)
    ensures PutBack(d, keys).(mrs := d.mrs, pds := d.pds, aborted := d.aborted) == d
    decreases |keys|
  {
    if keys != [] {
      O.PutMrFollows(d, Index(keys[|keys| - 1]), 0);
      PutBackOnlyRegions(PutMr(d, Index(keys[|keys| - 1])), keys[..|keys| - 1]);
    }
  }

  lemma {:induction false} GetsExactly(d: Device, keys: Keys)
    ensures var (t, ret) := GetMrs(d, keys);
      && t.qps == d.qps && t.lost == d.lost && t.cqs == d.cqs && t.ahs == d.ahs
      && ret == if forall i :: 0 <= i < |keys| ==> Live(d.mrs, keys[i] / 256) then 0 else -13
  {
    var n := Found(d.mrs, keys);
    GetOnlyRegions(d, keys);
    GetOnlyRegions(d, keys[..n]);
    PutBackOnlyRegions(GetAll(d, keys[..n]), keys[..n]);
    if n == |keys| {
      assert keys[..n] == keys;
    }
  }

  /** A send request is queued, marked by whether all its keys name regions; a receive request
      is queued exactly if they do, and -13, EACCES, is returned if not. */
  lemma {:induction false} PostedIsQueued(d: Device, h: nat, keys: Keys)
    requires Live(d.qps, h)
    ensures var all, qp := forall i :: 0 <= i < |keys| ==> Live(d.mrs, keys[i] / 256), d.qps[h].value;
      && PostSend(d, h, keys).qps == d.qps[h := Some(qp.(sq := qp.sq + [Wr(keys, all)]))]
      && PostRecv(d, h, keys).1 == (if all then 0 else -13)
      && PostRecv(d, h, keys).0.qps == if all then d.qps[h := Some(qp.(rq := qp.rq + [keys]))] else d.qps
  {
    GetsExactly(d, keys);
    O.PutAllFollows(GetMrs(d, keys).0, keys, 0);
  }

  /** With a queue pair its queues go; the request being filled is lost. */
  lemma {:induction false} QpGoes(d: Device, h: nat)
    requires Live(d.qps, h) && d.qps[h].value.rcq.Some?
    ensures var t, qp := DestroyQp(d, h), d.qps[h].value;
      t.qps == d.qps[h := None] && t.lost == d.lost + if qp.cur.Some? then [qp.cur.value] else []
  {
    var qp := d.qps[h].value;
    var put := PutCq(PutCq(PutPd(d, qp.pd), qp.scq), qp.rcq.value);
    var gone := Lose(SetQp(put, h, None), qp.cur);
    assert d.lost + [] == d.lost;
    FreeKeepsQps(gone, qp.sq, []);
    FreeKeepsQps(FreeSends(gone, qp.sq), [], qp.rq);
  }

  lemma {:induction false} FreeKeepsQps(d: Device, ws: seq<Wr>, rs: seq<Keys>)
    ensures FreeSends(d, ws).qps == d.qps && FreeSends(d, ws).lost == d.lost
    ensures FreeRecvs(d, rs).qps == d.qps && FreeRecvs(d, rs).lost == d.lost
    decreases |ws| + |rs|
  {
    if ws != [] {
      O.PutAllFollows(d, ws[0].keys, 0);
      FreeKeepsQps(FreeSend(d, ws[0]), ws[1..], []);
    }
    if rs != [] {
      O.PutAllFollows(d, rs[0], 0);
      FreeKeepsQps(PutAll(d, rs[0]), [], rs[1..]);
    }
  }

  /** The steps of the work queues move the heads, and nothing else of them. */
  lemma {:induction false} HeadsMove(d: Device, h: nat)
    requires Live(d.qps, h)
    ensures var qp := d.qps[h].value;
      && (qp.sq != [] ==>
            && FinishSend(d, h).qps == d.qps[h := Some(qp.(sq := qp.sq[1..]))] && FinishSend(d, h).lost == d.lost
            && SkipSend(d, h).qps == d.qps[h := Some(qp.(sq := qp.sq[1..]))]
            && SkipSend(d, h).lost == d.lost + [if qp.sq[0].mapped then qp.sq[0].keys else []])
      && (qp.rq != [] ==> TakeRecv(d, h).qps == d.qps[h := Some(qp.(rq := qp.rq[1..]))])
      && (qp.rq != [] && qp.cur.None? ==>
            StartRecv(d, h) == d.(qps := d.qps[h := Some(qp.(rq := qp.rq[1..], cur := Some(qp.rq[0])))]))
      && (qp.cur.Some? ==> FinishRecv(d, h).qps == d.qps[h := Some(qp.(cur := None))])
  {
    var qp := d.qps[h].value;
    if qp.sq != [] {
      O.PutAllFollows(SetQp(d, h, Some(qp.(sq := qp.sq[1..]))), qp.sq[0].keys, 0);
    }
    if qp.rq != [] {
      O.PutAllFollows(SetQp(d, h, Some(qp.(rq := qp.rq[1..]))), qp.rq[0], 0);
    }
    if qp.cur.Some? {
      O.PutAllFollows(SetQp(d, h, Some(qp.(cur := None))), qp.cur.value, 0);
    }
  }
}
