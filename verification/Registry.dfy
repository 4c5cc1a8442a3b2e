/**
 The tables of a device with the calls that change them one count and one slot at a
 time.  Each is proved to do to the whole state what the function of the same name in
 Lifetime says, and so to keep what Ownership proves about that.
 */
module Registry {
  import opened Psn
  import opened Types
  import L = Lifetime
  import O = Ownership

  /** The first empty slot of a table, or the number of slots. */
  method FirstFree<T>(slots: seq<Option<T>>) returns (i: nat)
    ensures i == L.FirstFree(slots)
  {
    i := 0;
    while i < |slots| && slots[i].Some?
      invariant i <= |slots| && forall j :: 0 <= j < i ==> slots[j].Some?
    {
      i := i + 1;
    }
  }

  /** From a balanced state the call leads to a balanced one exactly if it is legal. */
  ghost predicate Kept(was: L.Device, now: L.Device, e: L.Event) {
    L.Balanced(was) ==> (L.Balanced(now) <==> O.Legal(was, e))
  }

  lemma {:induction false} StepKept(was: L.Device, now: L.Device, e: L.Event)
    requires now == L.Step(was, e)
    ensures Kept(was, now, e)
  {
    if L.Balanced(was) {
      O.StepBalances(was, e);
    }
  }

  class Device {
    var pds: seq<Option<int>>
    var cqs: seq<Option<int>>
    var ahs: seq<Option<L.Ah>>
    var mrs: seq<Option<L.Mr>>
    var qps: seq<Option<L.Qp>>
    var lost: seq<L.Keys>
    var aborted: bool

    function State(): L.Device
      reads this
    {
      L.Device(pds, cqs, ahs, mrs, qps, lost, aborted)
    }

    constructor (size: nat)
      ensures State() == L.Device(seq(size, _ => None), seq(size, _ => None), seq(size, _ => None),
                                  seq(size, _ => None), seq(size, _ => None), [], false)
    {
      pds, cqs, ahs := seq(size, _ => None), seq(size, _ => None), seq(size, _ => None);
      mrs, qps := seq(size, _ => None), seq(size, _ => None);
      lost, aborted := [], false;
    }

    method AllocPd() returns (ret: int)
      modifies this
      ensures (State(), ret) == L.AllocPd(old(State()))
      ensures Kept(old(State()), State(), L.EvAllocPd)
    {
      StepKept(State(), L.AllocPd(State()).0, L.EvAllocPd);
      var i := FirstFree(pds);
      if i == |pds| {
        return -L.EBUSY;
      }
      pds := pds[i := Some(0)];
      return i;
    }

    method GetPd(h: nat) returns (found: bool)
      modifies this`pds
      ensures found == L.Live(old(pds), h) && pds == L.GetRef(old(pds), h)
    {
      if h >= |pds| || pds[h].None? {
        return false;
      }
      pds := pds[h := Some(pds[h].value + 1)];
      return true;
    }

    method PutPd(h: nat)
      modifies this`pds, this`aborted
      ensures State() == L.PutPd(old(State()), h)
    {
      if h >= |pds| || pds[h].None? {
        aborted := true;
        return;
      }
      pds := pds[h := Some(pds[h].value - 1)];
    }

    method DeallocPd(h: nat) returns (ret: int)
      modifies this
      ensures (State(), ret) == L.DeallocPd(old(State()), h)
      ensures Kept(old(State()), State(), L.EvDeallocPd(h))
    {
      StepKept(State(), L.DeallocPd(State(), h).0, L.EvDeallocPd(h));
      if h >= |pds| || pds[h].None? {
        return -L.EINVAL;
      }
      if pds[h].value != 0 {
        return -L.EBUSY;
      }
      pds := pds[h := None];
      return 0;
    }

    method CreateCq(sizeOk: bool) returns (ret: int)
      modifies this
      ensures (State(), ret) == L.CreateCq(old(State()), sizeOk)
      ensures Kept(old(State()), State(), L.EvCreateCq(sizeOk))
    {
      StepKept(State(), L.CreateCq(State(), sizeOk).0, L.EvCreateCq(sizeOk));
      if !sizeOk {
        return -L.EINVAL;
      }
      var i := FirstFree(cqs);
      if i == |cqs| {
        return -L.EBUSY;
      }
      cqs := cqs[i := Some(0)];
      return i;
    }

    method GetCq(h: nat) returns (found: bool)
      modifies this`cqs
      ensures found == L.Live(old(cqs), h) && cqs == L.GetRef(old(cqs), h)
    {
      if h >= |cqs| || cqs[h].None? {
        return false;
      }
      cqs := cqs[h := Some(cqs[h].value + 1)];
      return true;
    }

    method PutCq(h: nat)
      modifies this`cqs, this`aborted
      ensures State() == L.PutCq(old(State()), h)
    {
      if h >= |cqs| || cqs[h].None? {
        aborted := true;
        return;
      }
      cqs := cqs[h := Some(cqs[h].value - 1)];
    }

    method DestroyCq(h: nat) returns (ret: int)
      modifies this
      ensures (State(), ret) == L.DestroyCq(old(State()), h)
      ensures Kept(old(State()), State(), L.EvDestroyCq(h))
    {
      StepKept(State(), L.DestroyCq(State(), h).0, L.EvDestroyCq(h));
      if h >= |cqs| || cqs[h].None? {
        return -L.EINVAL;
      }
      if cqs[h].value != 0 {
        return -L.EBUSY;
      }
      cqs := cqs[h := None];
      return 0;
    }

    method CreateAh(pd: nat) returns (ret: int)
      modifies this
      ensures (State(), ret) == L.CreateAh(old(State()), pd)
      ensures Kept(old(State()), State(), L.EvCreateAh(pd))
    {
      StepKept(State(), L.CreateAh(State(), pd).0, L.EvCreateAh(pd));
      var found := GetPd(pd);
      if !found {
        return -L.EINVAL;
      }
      var i := FirstFree(ahs);
      if i == |ahs| {
        PutPd(pd);
        return -L.EBUSY;
      }
      ahs := ahs[i := Some(L.Ah(pd))];
      return i;
    }

    method DestroyAh(h: nat) returns (ret: int)
      modifies this
      ensures (State(), ret) == L.DestroyAh(old(State()), h)
      ensures Kept(old(State()), State(), L.EvDestroyAh(h))
    {
      StepKept(State(), L.DestroyAh(State(), h).0, L.EvDestroyAh(h));
      if h >= |ahs| || ahs[h].None? {
        return -L.EINVAL;
      }
      var ah := ahs[h].value;
      ahs := ahs[h := None];
      PutPd(ah.pd);
      return 0;
    }

    method CreateMr(pd: nat, pageOk: bool, refused: int) returns (ret: int)
      modifies this
      ensures (State(), ret) == L.CreateMr(old(State()), pd, pageOk, refused)
      ensures Kept(old(State()), State(), L.EvCreateMr(pd, pageOk, refused))
    {
      StepKept(State(), L.CreateMr(State(), pd, pageOk, refused).0, L.EvCreateMr(pd, pageOk, refused));
      if !pageOk {
        return -L.EINVAL;
      }
      var found := GetPd(pd);
      if !found {
        return -L.EINVAL;
      }
      if refused != 0 {
        PutPd(pd);
        return refused;
      }
      var i := FirstFree(mrs);
      if i == |mrs| {
        PutPd(pd);
        return -L.EBUSY;
      }
      mrs := mrs[i := Some(L.Mr(pd, 0, false))];
      return i;
    }

    method GetMr(h: nat) returns (found: bool)
      modifies this`mrs
      ensures found == L.Live(old(mrs), h) && State() == L.GetMr(old(State()), h)
    {
      if h >= |mrs| || mrs[h].None? {
        return false;
      }
      mrs := mrs[h := Some(mrs[h].value.(ref := mrs[h].value.ref + 1))];
      return true;
    }

    method DestroyMr(h: nat) returns (ret: int)
      modifies this
      ensures (State(), ret) == L.DestroyMr(old(State()), h)
      ensures Kept(old(State()), State(), L.EvDestroyMr(h))
    {
      StepKept(State(), L.DestroyMr(State(), h).0, L.EvDestroyMr(h));
      if h >= |mrs| || mrs[h].None? {
        return -L.EINVAL;
      }
      if mrs[h].value.ref != 0 {
        mrs := mrs[h := Some(mrs[h].value.(destroyed := true))];
        return 0;
      }
      var mr := mrs[h].value;
      mrs := mrs[h := None];
      PutPd(mr.pd);
      return 0;
    }

    method PutMr(h: nat)
      modifies this
      ensures State() == L.PutMr(old(State()), h)
    {
      if h >= |mrs| || mrs[h].None? {
        return;
      }
      mrs := mrs[h := Some(mrs[h].value.(ref := mrs[h].value.ref - 1))];
      if mrs[h].value.destroyed {
        var _ := DestroyMr(h);
      }
    }

    /** Walks the entries forward and, at the first that names no region, back again. */
    method GetMrs(keys: L.Keys) returns (ret: int)
      modifies this
      ensures (State(), ret) == L.GetMrs(old(State()), keys)
    {
      ghost var was := State();
      ghost var n := L.Found(mrs, keys);
      var i := 0;
      assert keys[..0] == [];
      while i < |keys|
        invariant 0 <= i <= n && State() == L.GetAll(was, keys[..i])
        invariant forall k :: 0 <= k ==> L.Live(mrs, k) == L.Live(was.mrs, k)
      {
        var found := GetMr(L.Index(keys[i]));
        if !found {
          if i < n {
            FoundIsLive(was.mrs, keys, i);
          }
          Rollback(keys, i);
          return -L.EACCES;
        }
        FoundGoesOn(was.mrs, keys, i);
        assert keys[..i + 1][..i] == keys[..i];
        i := i + 1;
      }
      assert keys[..i] == keys;
      return 0;
    }

    method Rollback(keys: L.Keys, count: nat)
      requires count <= |keys|
      modifies this
      ensures State() == L.PutBack(old(State()), keys[..count])
    {
      var i: int := count - 1;
      while i >= 0
        invariant -1 <= i < count
        invariant L.PutBack(old(State()), keys[..count]) == L.PutBack(State(), keys[..i + 1])
      {
        assert keys[..i + 1][..i] == keys[..i];
        PutMr(L.Index(keys[i]));
        i := i - 1;
      }
    }

    method PutMrs(keys: L.Keys)
      modifies this
      ensures State() == L.PutAll(old(State()), keys)
    {
      for i := 0 to |keys|
        invariant L.PutAll(old(State()), keys) == L.PutAll(State(), keys[i..])
      {
        assert keys[i..][1..] == keys[i + 1..];
        PutMr(L.Index(keys[i]));
      }
    }

    method CreateQp(pd: nat, scq: nat, rcq: nat, argsOk: bool) returns (ret: int)
      modifies this
      ensures (State(), ret) == L.CreateQp(old(State()), pd, scq, rcq, argsOk)
      ensures Kept(old(State()), State(), L.EvCreateQp(pd, scq, rcq, argsOk))
    {
      StepKept(State(), L.CreateQp(State(), pd, scq, rcq, argsOk).0, L.EvCreateQp(pd, scq, rcq, argsOk));
      if !argsOk {
        return -L.EINVAL;
      }
      ret := MakeQp(pd, scq, rcq);
    }

    /** The arguments are in order. */
    method MakeQp(pd: nat, scq: nat, rcq: nat) returns (ret: int)
      modifies this
      ensures (State(), ret) == L.CreateQp(old(State()), pd, scq, rcq, true)
    {
      var havePd := GetPd(pd);
      if !havePd {
        return -L.EINVAL;
      }
      var haveS := GetCq(scq);
      if !haveS {
        PutPd(pd);
        return -L.EINVAL;
      }
      var haveR := GetCq(rcq);
      var i := FirstFree(qps);
      if i == |qps| {
        PutPd(pd);
        PutCq(scq);
        if haveR {
          PutCq(rcq);
        }
        return -L.EINVAL;
      }
      qps := qps[i := Some(L.Qp(pd, scq, if haveR then Some(rcq) else None, [], [], None))];
      return i;
    }

    method FreeSend(w: L.Wr)
      modifies this
      ensures State() == L.FreeSend(old(State()), w)
    {
      if w.mapped {
        PutMrs(w.keys);
      }
    }

    method DestroyQp(h: nat)
      modifies this
      ensures State() == L.DestroyQp(old(State()), h)
      ensures Kept(old(State()), State(), L.EvDestroyQp(h))
    {
      StepKept(State(), L.DestroyQp(State(), h), L.EvDestroyQp(h));
      if h >= |qps| || qps[h].None? {
        aborted := true;
        return;
      }
      var qp := qps[h].value;
      PutPd(qp.pd);
      PutCq(qp.scq);
      if qp.rcq.None? {
        aborted := true;
        return;
      }
      PutCq(qp.rcq.value);
      qps := qps[h := None];
      if qp.cur.Some? {
        lost := lost + [qp.cur.value];
      }
      FreeQueues(qp.sq, qp.rq);
    }

    method FreeQueues(sq: seq<L.Wr>, rq: seq<L.Keys>)
      modifies this
      ensures State() == L.FreeRecvs(L.FreeSends(old(State()), sq), rq)
    {
      for i := 0 to |sq|
        invariant L.FreeSends(old(State()), sq) == L.FreeSends(State(), sq[i..])
      {
        assert sq[i..][1..] == sq[i + 1..];
        FreeSend(sq[i]);
      }
      ghost var freed := State();
      for i := 0 to |rq|
        invariant L.FreeRecvs(freed, rq) == L.FreeRecvs(State(), rq[i..])
      {
        assert rq[i..][1..] == rq[i + 1..];
        PutMrs(rq[i]);
      }
    }

    method PostSend(h: nat, keys: L.Keys)
      modifies this
      ensures State() == L.PostSend(old(State()), h, keys)
      ensures Kept(old(State()), State(), L.EvPostSend(h, keys))
    {
      StepKept(State(), L.PostSend(State(), h, keys), L.EvPostSend(h, keys));
      var error := GetMrs(keys);
      if h >= |qps| || qps[h].None? {
        aborted := true;
        return;
      }
      var qp := qps[h].value;
      qps := qps[h := Some(qp.(sq := qp.sq + [L.Wr(keys, error == 0)]))];
    }

    method PostRecv(h: nat, keys: L.Keys) returns (ret: int)
      modifies this
      ensures (State(), ret) == L.PostRecv(old(State()), h, keys)
      ensures Kept(old(State()), State(), L.EvPostRecv(h, keys))
    {
      StepKept(State(), L.PostRecv(State(), h, keys).0, L.EvPostRecv(h, keys));
      var error := GetMrs(keys);
      if error != 0 {
        PutMrs(keys);
        return -L.EACCES;
      }
      if h >= |qps| || qps[h].None? {
        aborted := true;
        return 0;
      }
      var qp := qps[h].value;
      qps := qps[h := Some(qp.(rq := qp.rq + [keys]))];
      return 0;
    }
  }

  lemma {:induction false} FoundIsLive(mrs: seq<Option<L.Mr>>, keys: L.Keys, i: nat)
    requires i < L.Found(mrs, keys)
    ensures L.Live(mrs, L.Index(keys[i]))
  {
    assert keys[..L.Found(mrs, keys)][i] == keys[i];
  }

  lemma {:induction false} FoundGoesOn(mrs: seq<Option<L.Mr>>, keys: L.Keys, i: nat)
    requires i <= L.Found(mrs, keys) && i < |keys| && L.Live(mrs, L.Index(keys[i]))
    ensures i < L.Found(mrs, keys)
  {
  }
}
