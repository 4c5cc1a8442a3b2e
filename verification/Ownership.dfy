/**
 Reference counting over whole runs: the counts stay right exactly as long as the calls
 are ones the code can serve, nothing in use points to what was freed, and a memory
 region marked for destruction goes exactly when its last user lets go.
 */
module Ownership {
  import opened Psn
  import opened Types
  import opened Lifetime
  import opened Balance

  /** The calls that do not break the counts.  A queue pair must exist, and one made with
      a missing receive completion queue cannot be destroyed; a receive that cannot be
      posted must name no region at all, since its references are given back twice. */
  predicate Legal(d: Device, e: Event) {
    match e
    case EvDestroyQp(h) => Live(d.qps, h) && d.qps[h].value.rcq.Some?
    case EvPostSend(h, _) => Live(d.qps, h)
    case EvPostRecv(h, keys) =>
      if AllLive(d.mrs, keys) then Live(d.qps, h)
      else forall i :: 0 <= i < |keys| ==> !Live(d.mrs, Index(keys[i]))
    case _ => true
  }

  // ----- one step keeps the balance

  lemma {:induction false} MakeAndDropBalance(d: Device, e: Event)
    requires Balanced(d)
    requires e.EvAllocPd? || e.EvDeallocPd? || e.EvCreateCq? || e.EvDestroyCq?
    ensures Balanced(Step(d, e))
  {
    match e {
      case EvAllocPd =>
        var i := FirstFree(d.pds);
        if i < |d.pds| { ZeroCounts(d.pds, i, Some(0), PdUses(d) + multiset{}); }
      case EvDeallocPd(h) =>
        if Live(d.pds, h) && d.pds[h].value == 0 { ZeroCounts(d.pds, h, None, PdUses(d) + multiset{}); }
      case EvCreateCq(_) =>
        var i := FirstFree(d.cqs);
        if i < |d.cqs| { ZeroCounts(d.cqs, i, Some(0), CqUses(d) + multiset{}); }
      case EvDestroyCq(h) =>
        if Live(d.cqs, h) && d.cqs[h].value == 0 { ZeroCounts(d.cqs, h, None, CqUses(d) + multiset{}); }
    }
  }

  lemma {:induction false} AhBalances(d: Device, pd: nat, h: nat)
    requires Balanced(d)
    ensures Balanced(CreateAh(d, pd).0) && Balanced(DestroyAh(d, h).0)
  {
    var none: multiset<nat> := multiset{};
    if Live(d.pds, pd) {
      TakePd(d, pd, none, none, none);
      var got := d.(pds := GetRef(d.pds, pd));
      var i := FirstFree(got.ahs);
      if i == |got.ahs| {
        GivePd(got, pd, none, none, none);
      } else {
        assert AhPd()(Ah(pd)) == multiset{pd};
        ChangeAh(got, i, Some(Ah(pd)), none + multiset{pd}, none, none, none);
      }
    }
    if Live(d.ahs, h) {
      var p := d.ahs[h].value.pd;
      ChangeAh(d, h, None, none, none + multiset{p}, none, none);
      GivePd(d.(ahs := d.ahs[h := None]), p, none, none, none);
    }
  }

  lemma {:induction false} CreateMrBalances(d: Device, pd: nat, pageOk: bool, refused: int)
    requires Balanced(d)
    ensures Balanced(CreateMr(d, pd, pageOk, refused).0)
  {
    if pageOk && Live(d.pds, pd) {
      GivePdAgain(d, pd);
      var i := FirstFree(d.mrs);
      if refused == 0 && i < |d.mrs| {
        var none: multiset<nat> := multiset{};
        TakePd(d, pd, none, none, none);
        ChangeMr(d.(pds := GetRef(d.pds, pd)), i, Some(Mr(pd, 0, false)), none + multiset{pd}, none, none, none, none);
      }
    }
  }

  lemma {:induction false} DestroyMrBalances(d: Device, h: nat)
    requires Balanced(d)
    ensures Balanced(DestroyMr(d, h).0)
  {
    if Live(d.mrs, h) {
      var none: multiset<nat> := multiset{};
      var mr := d.mrs[h].value;
      if mr.ref == 0 {
        DropMr(d, h, none, none, none, none);
      } else {
        assert mr.ref > 0 by { assert MrRef(d.mrs, h) == (MrUses(d) + none)[h]; }
        ChangeMr(d, h, Some(mr.(destroyed := true)), none, none, none, none, none);
      }
    }
  }

  lemma {:induction false} GivePdAgain(d: Device, pd: nat)
    requires Balanced(d) && Live(d.pds, pd)
    ensures Balanced(PutPd(d.(pds := GetRef(d.pds, pd)), pd))
  {
    var none: multiset<nat> := multiset{};
    TakePd(d, pd, none, none, none);
    GivePd(d.(pds := GetRef(d.pds, pd)), pd, none, none, none);
  }

  /** A new queue pair has references to its domain and to the queues that exist. */
  function Taken(d: Device, pd: nat, scq: nat, rcq: nat): Device {
    var got := d.(pds := GetRef(d.pds, pd));
    var gotS := got.(cqs := GetRef(got.cqs, scq));
    gotS.(cqs := GetRef(gotS.cqs, rcq))
  }

  function CqsOf(scq: nat, rcq: nat, both: bool): multiset<nat> {
    multiset{scq} + if both then multiset{rcq} else multiset{}
  }

  lemma {:induction false} TakenOwes(d: Device, pd: nat, scq: nat, rcq: nat)
    requires Balanced(d) && Live(d.pds, pd) && Live(d.cqs, scq)
    ensures Owes(Taken(d, pd, scq, rcq), multiset{} + multiset{pd}, CqsOf(scq, rcq, Live(d.cqs, rcq)), multiset{})
  {
    var none: multiset<nat> := multiset{};
    var ps, cs := none + multiset{pd}, none + multiset{scq};
    TakePd(d, pd, none, none, none);
    var got := d.(pds := GetRef(d.pds, pd));
    TakeCq(got, scq, ps, none, none);
    var gotS := got.(cqs := GetRef(got.cqs, scq));
    if Live(d.cqs, rcq) {
      TakeCq(gotS, rcq, ps, cs, none);
      assert cs + multiset{rcq} == CqsOf(scq, rcq, true);
    } else {
      assert cs == CqsOf(scq, rcq, false);
    }
  }

  lemma {:induction false} AddQpBalances(d: Device, i: nat, qp: Qp)
    requires i < |d.qps| && d.qps[i].None? && qp.sq == [] && qp.rq == [] && qp.cur.None?
    requires Owes(d, multiset{} + multiset{qp.pd}, QpCqs()(qp), multiset{})
    ensures Balanced(d.(qps := d.qps[i := Some(qp)]))
  {
    var none: multiset<nat> := multiset{};
    assert QpPd()(qp) == none + multiset{qp.pd} && QpMrs()(qp) == none;
    ChangeQp(d, i, Some(qp), none + multiset{qp.pd}, none, QpCqs()(qp), none, none, none);
  }

  lemma {:induction false} CreateQpBalances(d: Device, pd: nat, scq: nat, rcq: nat, argsOk: bool)
    requires Balanced(d)
    ensures Balanced(CreateQp(d, pd, scq, rcq, argsOk).0)
  {
    var none: multiset<nat> := multiset{};
    if argsOk && Live(d.pds, pd) {
      if !Live(d.cqs, scq) {
        GivePdAgain(d, pd);
      } else {
        TakenOwes(d, pd, scq, rcq);
        var got, both := Taken(d, pd, scq, rcq), Live(d.cqs, rcq);
        var i := FirstFree(d.qps);
        if i == |d.qps| {
          GivePd(got, pd, none, CqsOf(scq, rcq, both), none);
          UndoCqs(PutPd(got, pd), scq, rcq, both);
        } else {
          var qp := Qp(pd, scq, if both then Some(rcq) else None, [], [], None);
          assert QpCqs()(qp) == CqsOf(scq, rcq, both);
          AddQpBalances(got, i, qp);
        }
      }
    }
  }

  lemma {:induction false} UndoCqs(d: Device, scq: nat, rcq: nat, both: bool)
    requires Owes(d, multiset{}, CqsOf(scq, rcq, both), multiset{})
    ensures Balanced(if both then PutCq(PutCq(d, scq), rcq) else PutCq(d, scq))
  {
    var none: multiset<nat> := multiset{};
    var last := none + if both then multiset{rcq} else multiset{};
    assert CqsOf(scq, rcq, both) == last + multiset{scq};
    GiveCq(d, scq, none, last, none);
    if both { GiveCq(PutCq(d, scq), rcq, none, none, none); }
  }

  lemma {:induction false} FreeSendsOwes(d: Device, ws: seq<Wr>, ps: multiset<nat>, cs: multiset<nat>,
          ms: multiset<nat>)
    requires Owes(d, ps, cs, ms + NamedBySends(ws))
    ensures Owes(FreeSends(d, ws), ps, cs, ms)
    decreases |ws|
  {
    if ws == [] {
      assert ms + NamedBySends(ws) == ms;
    } else {
      assert ms + NamedBySends(ws) == ms + NamedBySends(ws[1..]) + Named(HeldBy(ws[0]));
      PutAllOwes(d, HeldBy(ws[0]), ps, cs, ms + NamedBySends(ws[1..]));
      assert FreeSend(d, ws[0]) == PutAll(d, HeldBy(ws[0]));
      FreeSendsOwes(FreeSend(d, ws[0]), ws[1..], ps, cs, ms);
    }
  }

  lemma {:induction false} FreeRecvsOwes(d: Device, ws: seq<Keys>, ps: multiset<nat>, cs: multiset<nat>,
          ms: multiset<nat>)
    requires Owes(d, ps, cs, ms + NamedByAll(ws))
    ensures Owes(FreeRecvs(d, ws), ps, cs, ms)
    decreases |ws|
  {
    if ws == [] {
      assert ms + NamedByAll(ws) == ms;
    } else {
      assert ms + NamedByAll(ws) == ms + NamedByAll(ws[1..]) + Named(ws[0]);
      PutAllOwes(d, ws[0], ps, cs, ms + NamedByAll(ws[1..]));
      FreeRecvsOwes(PutAll(d, ws[0]), ws[1..], ps, cs, ms);
    }
  }

  /** The queue pair gives back its domain and queues before it is taken off its table. */
  lemma {:induction false} UnlinkOwes(d: Device, h: nat)
    requires Balanced(d) && Live(d.qps, h) && d.qps[h].value.rcq.Some?
    ensures var qp := d.qps[h].value;
      Owes(SetQp(PutCq(PutCq(PutPd(d, qp.pd), qp.scq), qp.rcq.value), h, None), multiset{}, multiset{}, QpMrs()(qp))
  {
    var none: multiset<nat> := multiset{};
    var qp := d.qps[h].value;
    var ms := QpMrs()(qp);
    assert QpPd()(qp) == none + multiset{qp.pd};
    assert QpCqs()(qp) == none + multiset{qp.rcq.value} + multiset{qp.scq};
    ChangeQp(d, h, None, none, none + multiset{qp.pd}, none, none + multiset{qp.rcq.value} + multiset{qp.scq},
             none, ms);
    var u := SetQp(d, h, None);
    GivePd(u, qp.pd, none, none + multiset{qp.rcq.value} + multiset{qp.scq}, ms);
    var v := PutPd(u, qp.pd);
    GiveCq(v, qp.scq, none, none + multiset{qp.rcq.value}, ms);
    GiveCq(PutCq(v, qp.scq), qp.rcq.value, none, none, ms);
  }

  lemma {:induction false} DestroyQpBalances(d: Device, h: nat)
    requires Balanced(d)
    ensures Balanced(DestroyQp(d, h)) <==> Live(d.qps, h) && d.qps[h].value.rcq.Some?
  {
    if Live(d.qps, h) && d.qps[h].value.rcq.Some? {
      var none: multiset<nat> := multiset{};
      var qp := d.qps[h].value;
      UnlinkOwes(d, h);
      var u := SetQp(PutCq(PutCq(PutPd(d, qp.pd), qp.scq), qp.rcq.value), h, None);
      var queued := NamedByAll(qp.rq) + NamedBySends(qp.sq);
      var cur := if qp.cur.Some? then Named(qp.cur.value) else none;
      assert QpMrs()(qp) == queued + cur;
      if qp.cur.Some? {
        LoseOwes(u, qp.cur.value, none, none, queued);
      } else {
        assert queued + cur == queued;
      }
      var l := Lose(u, qp.cur);
      FreeSendsOwes(l, qp.sq, none, none, NamedByAll(qp.rq));
      assert NamedByAll(qp.rq) == none + NamedByAll(qp.rq);
      FreeRecvsOwes(FreeSends(l, qp.sq), qp.rq, none, none, none);
    }
  }

  /** A request put on a queue pair takes over the references taken for it. */
  lemma {:induction false} TakeOn(d: Device, h: nat, q: Qp, keys: Keys)
    requires Owes(d, multiset{}, multiset{}, multiset{} + Named(keys)) && Live(d.qps, h)
    requires var qp := d.qps[h].value; q.pd == qp.pd && q.scq == qp.scq && q.rcq == qp.rcq
    requires QpMrs()(q) == QpMrs()(d.qps[h].value) + Named(keys)
    ensures Balanced(SetQp(d, h, Some(q)))
  {
    var none: multiset<nat> := multiset{};
    var qp := d.qps[h].value;
    assert QpPd()(q) == QpPd()(qp) && QpCqs()(q) == QpCqs()(qp);
    ChangeQp(d, h, Some(q), none, none, none, none, none + Named(keys), none);
  }

  lemma {:induction false} QpMrsIs(qp: Qp)
    ensures QpMrs()(qp) == NamedBySends(qp.sq) + NamedByAll(qp.rq)
                           + (if qp.cur.Some? then Named(qp.cur.value) else multiset{})
  {
  }

  lemma {:induction false} SendNames(qp: Qp, w: Wr)
    ensures QpMrs()(qp.(sq := qp.sq + [w])) == QpMrs()(qp) + Named(HeldBy(w))
  {
    NamedBySendsSnoc(qp.sq, w);
  }

  lemma {:induction false} RecvNames(qp: Qp, keys: Keys)
    ensures QpMrs()(qp.(rq := qp.rq + [keys])) == QpMrs()(qp) + Named(keys)
  {
    NamedByAllSnoc(qp.rq, keys);
  }

  /** A failed attempt to take references leaves a request that holds none. */
  lemma {:induction false} GotOwes(d: Device, keys: Keys)
    requires Balanced(d)
    ensures var (got, ret) := GetMrs(d, keys);
      && got.qps == d.qps && (ret == 0 <==> AllLive(d.mrs, keys)) && (ret == 0 || ret == -EACCES)
      && (ret != 0 ==> got == d)
      && Owes(got, multiset{}, multiset{}, multiset{} + Named(HeldBy(Wr(keys, ret == 0))))
  {
    var none: multiset<nat> := multiset{};
    AllOrNone(d, keys, none, none, none);
    GetAllLive(d, keys, 0);
    assert none + Named([]) == none;
  }

  lemma {:induction false} PostSendBalances(d: Device, h: nat, keys: Keys)
    requires Balanced(d)
    ensures Balanced(PostSend(d, h, keys)) <==> Live(d.qps, h)
  {
    GotOwes(d, keys);
    var (got, ret) := GetMrs(d, keys);
    if Live(got.qps, h) {
      var qp, w := got.qps[h].value, Wr(keys, ret == 0);
      SendNames(qp, w);
      TakeOn(got, h, qp.(sq := qp.sq + [w]), HeldBy(w));
    }
  }

  lemma {:induction false} PostRecvBalances(d: Device, h: nat, keys: Keys)
    requires Balanced(d) && AllLive(d.mrs, keys)
    ensures Balanced(PostRecv(d, h, keys).0) <==> Live(d.qps, h)
  {
    GotOwes(d, keys);
    var got := GetMrs(d, keys).0;
    if Live(got.qps, h) {
      var qp := got.qps[h].value;
      RecvNames(qp, keys);
      TakeOn(got, h, qp.(rq := qp.rq + [keys]), keys);
    }
  }

  /** What becomes of slot k when references are given back. */
  ghost predicate Follows(was: seq<Option<Mr>>, now: seq<Option<Mr>>, k: nat) {
    && (!Live(was, k) ==> !Live(now, k))
    && (Live(was, k) && !Live(now, k) ==> was[k].value.destroyed)
    && (Live(was, k) && Live(now, k) ==> now[k].value.(ref := was[k].value.ref) == was[k].value)
  }

  lemma {:induction false} PutMrFollows(d: Device, h: nat, k: nat)
    ensures var e := PutMr(d, h);
      && e.(mrs := d.mrs, pds := d.pds, aborted := d.aborted) == d
      && Follows(d.mrs, e.mrs, k)
      && (Live(e.mrs, k) ==> e.mrs[k].value.ref == d.mrs[k].value.ref - if k == h then 1 else 0)
  {
  }

  lemma {:induction false} PutAllFollows(d: Device, keys: Keys, k: nat)
    ensures var e := PutAll(d, keys);
      && e.(mrs := d.mrs, pds := d.pds, aborted := d.aborted) == d
      && Follows(d.mrs, e.mrs, k)
      && (Live(e.mrs, k) ==> e.mrs[k].value.ref == d.mrs[k].value.ref - Named(keys)[k])
    decreases |keys|
  {
    if keys != [] {
      PutMrFollows(d, Index(keys[0]), k);
      PutAllFollows(PutMr(d, Index(keys[0])), keys[1..], k);
    }
  }

  lemma {:induction false} NamedHas(keys: Keys, i: nat)
    requires i < |keys|
    ensures Named(keys)[Index(keys[i])] > 0
  {
    if i > 0 {
      NamedHas(keys[1..], i - 1);
    }
  }

  lemma {:induction false} PutAllOfNone(d: Device, keys: Keys)
    requires forall i :: 0 <= i < |keys| ==> !Live(d.mrs, Index(keys[i]))
    ensures PutAll(d, keys) == d
  {
    if keys != [] {
      assert !Live(d.mrs, Index(keys[0]));
      forall i | 0 <= i < |keys[1..]| ensures !Live(d.mrs, Index(keys[1..][i])) {
        assert keys[1..][i] == keys[i + 1];
      }
      PutAllOfNone(d, keys[1..]);
    }
  }

  /** A receive that cannot be posted gives back references it no longer has. */
  lemma {:induction false} FailedPostRecv(d: Device, h: nat, keys: Keys)
    requires Balanced(d) && !AllLive(d.mrs, keys)
    ensures PostRecv(d, h, keys) == (PutAll(d, keys), -EACCES)
    ensures Balanced(PostRecv(d, h, keys).0) <==> forall i :: 0 <= i < |keys| ==> !Live(d.mrs, Index(keys[i]))
  {
    var none: multiset<nat> := multiset{};
    AllOrNone(d, keys, none, none, none);
    var e := PutAll(d, keys);
    if forall i :: 0 <= i < |keys| ==> !Live(d.mrs, Index(keys[i])) {
      PutAllOfNone(d, keys);
    } else {
      var i :| 0 <= i < |keys| && Live(d.mrs, Index(keys[i]));
      var k := Index(keys[i]);
      NamedHas(keys, i);
      PutAllFollows(d, keys, k);
      assert MrUses(e) == MrUses(d);
      assert MrRef(d.mrs, k) == (MrUses(d) + none)[k];
      assert MrRef(e.mrs, k) != (MrUses(e) + none)[k];
    }
  }

  /** A request taken off a queue pair leaves its references to be given back. */
  lemma {:induction false} LetGo(d: Device, h: nat, q: Qp, keys: Keys)
    requires Balanced(d) && Live(d.qps, h)
    requires var qp := d.qps[h].value; q.pd == qp.pd && q.scq == qp.scq && q.rcq == qp.rcq
    requires QpMrs()(d.qps[h].value) == QpMrs()(q) + Named(keys)
    ensures Owes(SetQp(d, h, Some(q)), multiset{}, multiset{}, multiset{} + Named(keys))
  {
    var none: multiset<nat> := multiset{};
    var qp := d.qps[h].value;
    assert QpPd()(q) == QpPd()(qp) && QpCqs()(q) == QpCqs()(qp);
    ChangeQp(d, h, Some(q), none, none, none, none, none, none + Named(keys));
  }

  lemma {:induction false} SendBalances(d: Device, h: nat)
    requires Balanced(d)
    ensures Balanced(FinishSend(d, h)) && Balanced(SkipSend(d, h))
  {
    if Live(d.qps, h) && d.qps[h].value.sq != [] {
      var none: multiset<nat> := multiset{};
      var qp := d.qps[h].value;
      var q, keys := qp.(sq := qp.sq[1..]), HeldBy(qp.sq[0]);
      QpMrsIs(qp);
      QpMrsIs(q);
      LetGo(d, h, q, keys);
      var u := SetQp(d, h, Some(q));
      PutAllOwes(u, keys, none, none, none);
      assert FinishSend(d, h) == PutAll(u, keys);
      LoseOwes(u, keys, none, none, none);
    }
  }

  lemma {:induction false} FinishRecvBalances(d: Device, h: nat)
    requires Balanced(d)
    ensures Balanced(FinishRecv(d, h))
  {
    if Live(d.qps, h) && d.qps[h].value.cur.Some? {
      var none: multiset<nat> := multiset{};
      var qp := d.qps[h].value;
      var q := qp.(cur := None);
      QpMrsIs(qp);
      QpMrsIs(q);
      LetGo(d, h, q, qp.cur.value);
      PutAllOwes(SetQp(d, h, Some(q)), qp.cur.value, none, none, none);
    }
  }

  lemma {:induction false} TakeRecvBalances(d: Device, h: nat)
    requires Balanced(d)
    ensures Balanced(TakeRecv(d, h))
  {
    if Live(d.qps, h) && d.qps[h].value.rq != [] {
      var none: multiset<nat> := multiset{};
      var qp := d.qps[h].value;
      var q := qp.(rq := qp.rq[1..]);
      QpMrsIs(qp);
      QpMrsIs(q);
      LetGo(d, h, q, qp.rq[0]);
      PutAllOwes(SetQp(d, h, Some(q)), qp.rq[0], none, none, none);
    }
  }

  lemma {:induction false} StartRecvBalances(d: Device, h: nat)
    requires Balanced(d)
    ensures Balanced(StartRecv(d, h))
  {
    if Live(d.qps, h) && d.qps[h].value.rq != [] && d.qps[h].value.cur.None? {
      var none: multiset<nat> := multiset{};
      var qp := d.qps[h].value;
      var q := qp.(rq := qp.rq[1..], cur := Some(qp.rq[0]));
      QpMrsIs(qp);
      QpMrsIs(q);
      assert QpMrs()(q) == QpMrs()(qp) + Named([]);
      LetGo(d, h, q, []);
      assert none + Named([]) == none;
    }
  }

  /** The counts stay right, and no assertion fails, for the legal calls and no others. */
  lemma {:induction false} StepBalances(d: Device, e: Event)
    requires Balanced(d)
    ensures Balanced(Step(d, e)) <==> Legal(d, e)
  {
    match e {
      case EvAllocPd => MakeAndDropBalance(d, e);
      case EvDeallocPd(_) => MakeAndDropBalance(d, e);
      case EvCreateCq(_) => MakeAndDropBalance(d, e);
      case EvDestroyCq(_) => MakeAndDropBalance(d, e);
      case EvCreateAh(pd) => AhBalances(d, pd, 0);
      case EvDestroyAh(h) => AhBalances(d, 0, h);
      case EvCreateMr(pd, pageOk, refused) => CreateMrBalances(d, pd, pageOk, refused);
      case EvDestroyMr(h) => DestroyMrBalances(d, h);
      case EvCreateQp(pd, scq, rcq, argsOk) => CreateQpBalances(d, pd, scq, rcq, argsOk);
      case EvDestroyQp(h) => DestroyQpBalances(d, h);
      case EvPostSend(h, keys) => PostSendBalances(d, h, keys);
      case EvPostRecv(h, keys) =>
        if AllLive(d.mrs, keys) { PostRecvBalances(d, h, keys); } else { FailedPostRecv(d, h, keys); }
      case EvFinishSend(h) => SendBalances(d, h);
      case EvSkipSend(h) => SendBalances(d, h);
      case EvStartRecv(h) => StartRecvBalances(d, h);
      case EvFinishRecv(h) => FinishRecvBalances(d, h);
      case EvTakeRecv(h) => TakeRecvBalances(d, h);
    }
  }

  // ----- whole runs

  ghost predicate LegalRun(d: Device, es: seq<Event>)
    decreases |es|
  {
    es != [] ==> Legal(d, es[0]) && LegalRun(Step(d, es[0]), es[1..])
  }

  ghost predicate BalancedThroughout(d: Device, es: seq<Event>)
    decreases |es|
  {
    Balanced(d) && (es != [] ==> BalancedThroughout(Step(d, es[0]), es[1..]))
  }

  lemma {:induction false} RunBalances(d: Device, es: seq<Event>)
    requires Balanced(d)
    ensures BalancedThroughout(d, es) <==> LegalRun(d, es)
    ensures LegalRun(d, es) ==> Balanced(Run(d, es))
    decreases |es|
  {
    if es != [] {
      StepBalances(d, es[0]);
      if Legal(d, es[0]) {
        RunBalances(Step(d, es[0]), es[1..]);
      } else if es[1..] == [] {
        assert !BalancedThroughout(Step(d, es[0]), es[1..]);
      }
    }
  }

  lemma {:induction false} HeldByNone<T>(xs: seq<Option<T>>, f: T -> multiset<nat>)
    requires forall i :: 0 <= i < |xs| ==> xs[i].None?
    ensures Held(xs, f) == multiset{}
  {
    if xs != [] {
      HeldByNone(xs[1..], f);
    }
  }

  /** A device starts with its tables empty. */
  lemma {:induction false} NewDeviceBalances(d: Device)
    requires d.lost == [] && !d.aborted
    requires forall i :: 0 <= i < |d.pds| ==> d.pds[i].None?
    requires forall i :: 0 <= i < |d.cqs| ==> d.cqs[i].None?
    requires forall i :: 0 <= i < |d.ahs| ==> d.ahs[i].None?
    requires forall i :: 0 <= i < |d.mrs| ==> d.mrs[i].None?
    requires forall i :: 0 <= i < |d.qps| ==> d.qps[i].None?
    ensures Balanced(d)
  {
    HeldByNone(d.ahs, AhPd());
    HeldByNone(d.mrs, MrPd());
    HeldByNone(d.qps, QpPd());
    HeldByNone(d.qps, QpCqs());
    HeldByNone(d.qps, QpMrs());
  }

  // ----- nobody refers to what is gone

  lemma {:induction false} CountedIsLive(d: Device, h: nat)
    requires Balanced(d)
    ensures PdUses(d)[h] > 0 ==> Live(d.pds, h)
    ensures CqUses(d)[h] > 0 ==> Live(d.cqs, h)
    ensures MrUses(d)[h] > 0 ==> Live(d.mrs, h)
  {
    assert Ref(d.pds, h) == (PdUses(d) + multiset{})[h];
    assert Ref(d.cqs, h) == (CqUses(d) + multiset{})[h];
    assert MrRef(d.mrs, h) == (MrUses(d) + multiset{})[h];
  }

  lemma {:induction false} NoDanglingAh(d: Device, h: nat)
    requires Balanced(d) && Live(d.ahs, h)
    ensures Live(d.pds, d.ahs[h].value.pd)
  {
    var pd := d.ahs[h].value.pd;
    assert AhPd()(d.ahs[h].value)[pd] > 0;
    HeldBySome(d.ahs, AhPd(), pd);
    CountedIsLive(d, pd);
  }

  lemma {:induction false} NoDanglingMr(d: Device, h: nat)
    requires Balanced(d) && Live(d.mrs, h)
    ensures Live(d.pds, d.mrs[h].value.pd)
  {
    var pd := d.mrs[h].value.pd;
    assert MrPd()(d.mrs[h].value)[pd] > 0;
    HeldBySome(d.mrs, MrPd(), pd);
    CountedIsLive(d, pd);
  }

  lemma {:induction false} NoDanglingQp(d: Device, h: nat)
    requires Balanced(d) && Live(d.qps, h)
    ensures var qp := d.qps[h].value;
      && Live(d.pds, qp.pd) && Live(d.cqs, qp.scq)
      && (qp.rcq.Some? ==> Live(d.cqs, qp.rcq.value))
  {
    var qp := d.qps[h].value;
    assert QpPd()(qp)[qp.pd] > 0 && QpCqs()(qp)[qp.scq] > 0;
    HeldBySome(d.qps, QpPd(), qp.pd);
    HeldBySome(d.qps, QpCqs(), qp.scq);
    CountedIsLive(d, qp.pd);
    CountedIsLive(d, qp.scq);
    if qp.rcq.Some? {
      assert QpCqs()(qp)[qp.rcq.value] > 0;
      HeldBySome(d.qps, QpCqs(), qp.rcq.value);
      CountedIsLive(d, qp.rcq.value);
    }
  }

  lemma {:induction false} NamedInQueue(ws: seq<Keys>, i: nat, k: nat)
    requires i < |ws| && Named(ws[i])[k] > 0
    ensures NamedByAll(ws)[k] > 0
  {
    if i > 0 {
      NamedInQueue(ws[1..], i - 1, k);
    }
  }

  lemma {:induction false} NamedInSends(ws: seq<Wr>, i: nat, k: nat)
    requires i < |ws| && Named(HeldBy(ws[i]))[k] > 0
    ensures NamedBySends(ws)[k] > 0
  {
    if i > 0 {
      NamedInSends(ws[1..], i - 1, k);
    }
  }

  /** Every entry of every receive request, queued or being filled, and of every send
      request that was mapped names a region that is still there. */
  lemma {:induction false} NoDanglingKeys(d: Device, h: nat)
    requires Balanced(d) && Live(d.qps, h)
    ensures var qp := d.qps[h].value;
      && (forall i :: 0 <= i < |qp.sq| && qp.sq[i].mapped ==> AllLive(d.mrs, qp.sq[i].keys))
      && (forall i :: 0 <= i < |qp.rq| ==> AllLive(d.mrs, qp.rq[i]))
      && (qp.cur.Some? ==> AllLive(d.mrs, qp.cur.value))
  {
    var qp := d.qps[h].value;
    forall i | 0 <= i < |qp.sq| && qp.sq[i].mapped ensures AllLive(d.mrs, qp.sq[i].keys) {
      forall j | 0 <= j < |qp.sq[i].keys| ensures Live(d.mrs, Index(qp.sq[i].keys[j])) {
        var k := Index(qp.sq[i].keys[j]);
        NamedHas(qp.sq[i].keys, j);
        NamedInSends(qp.sq, i, k);
        UsedIsLive(d, h, k);
      }
    }
    forall i | 0 <= i < |qp.rq| ensures AllLive(d.mrs, qp.rq[i]) {
      forall j | 0 <= j < |qp.rq[i]| ensures Live(d.mrs, Index(qp.rq[i][j])) {
        var k := Index(qp.rq[i][j]);
        NamedHas(qp.rq[i], j);
        NamedInQueue(qp.rq, i, k);
        UsedIsLive(d, h, k);
      }
    }
    if qp.cur.Some? {
      forall j | 0 <= j < |qp.cur.value| ensures Live(d.mrs, Index(qp.cur.value[j])) {
        NamedHas(qp.cur.value, j);
        UsedIsLive(d, h, Index(qp.cur.value[j]));
      }
    }
  }

  lemma {:induction false} UsedIsLive(d: Device, h: nat, k: nat)
    requires Balanced(d) && Live(d.qps, h) && QpMrs()(d.qps[h].value)[k] > 0
    ensures Live(d.mrs, k)
  {
    HeldBySome(d.qps, QpMrs(), k);
    CountedIsLive(d, k);
  }

  /** A protection domain can be returned exactly when nothing was made in it. */
  lemma {:induction false} DeallocPdExactly(d: Device, h: nat)
    requires Balanced(d) && Live(d.pds, h)
    ensures DeallocPd(d, h).1 == 0 <==>
      && (forall i :: 0 <= i < |d.ahs| && d.ahs[i].Some? ==> d.ahs[i].value.pd != h)
      && (forall i :: 0 <= i < |d.mrs| && d.mrs[i].Some? ==> d.mrs[i].value.pd != h)
      && (forall i :: 0 <= i < |d.qps| && d.qps[i].Some? ==> d.qps[i].value.pd != h)
  {
    assert Ref(d.pds, h) == (PdUses(d) + multiset{})[h];
    assert DeallocPd(d, h).1 == 0 <==>
      Held(d.ahs, AhPd())[h] == 0 && Held(d.mrs, MrPd())[h] == 0 && Held(d.qps, QpPd())[h] == 0;
    assert Held(d.ahs, AhPd())[h] == 0 <==>
      forall i :: 0 <= i < |d.ahs| && d.ahs[i].Some? ==> d.ahs[i].value.pd != h by {
      HeldBySome(d.ahs, AhPd(), h);
    }
    assert Held(d.mrs, MrPd())[h] == 0 <==>
      forall i :: 0 <= i < |d.mrs| && d.mrs[i].Some? ==> d.mrs[i].value.pd != h by {
      HeldBySome(d.mrs, MrPd(), h);
    }
    assert Held(d.qps, QpPd())[h] == 0 <==>
      forall i :: 0 <= i < |d.qps| && d.qps[i].Some? ==> d.qps[i].value.pd != h by {
      HeldBySome(d.qps, QpPd(), h);
    }
  }

  lemma {:induction false} CompletesTo(qp: Qp, h: nat)
    ensures QpCqs()(qp)[h] > 0 <==> qp.scq == h || qp.rcq == Some(h)
  {
  }

  lemma {:induction false} CqUsed(d: Device, h: nat)
    ensures CqUses(d)[h] > 0 <==>
      exists i :: 0 <= i < |d.qps| && d.qps[i].Some? && (d.qps[i].value.scq == h || d.qps[i].value.rcq == Some(h))
  {
    HeldBySome(d.qps, QpCqs(), h);
    if CqUses(d)[h] > 0 {
      var i :| 0 <= i < |d.qps| && d.qps[i].Some? && QpCqs()(d.qps[i].value)[h] > 0;
      CompletesTo(d.qps[i].value, h);
    }
    if i :| 0 <= i < |d.qps| && d.qps[i].Some? && (d.qps[i].value.scq == h || d.qps[i].value.rcq == Some(h)) {
      CompletesTo(d.qps[i].value, h);
    }
  }

  /** A completion queue can be destroyed exactly when no queue pair completes to it. */
  lemma {:induction false} DestroyCqExactly(d: Device, h: nat)
    requires Balanced(d) && Live(d.cqs, h)
    ensures DestroyCq(d, h).1 == 0 <==>
      forall i :: 0 <= i < |d.qps| && d.qps[i].Some? ==>
        d.qps[i].value.scq != h && d.qps[i].value.rcq != Some(h)
  {
    assert Ref(d.cqs, h) == (CqUses(d) + multiset{})[h];
    CqUsed(d, h);
  }

  // ----- the life of a memory region

  lemma {:induction false} FollowsThrough(a: seq<Option<Mr>>, b: seq<Option<Mr>>, c: seq<Option<Mr>>, k: nat)
    requires Follows(a, b, k) && Follows(b, c, k)
    ensures Follows(a, c, k)
  {
  }

  lemma {:induction false} FreeSendsFollows(d: Device, ws: seq<Wr>, k: nat)
    ensures Follows(d.mrs, FreeSends(d, ws).mrs, k)
    decreases |ws|
  {
    if ws != [] {
      PutAllFollows(d, HeldBy(ws[0]), k);
      assert FreeSend(d, ws[0]) == PutAll(d, HeldBy(ws[0]));
      FreeSendsFollows(FreeSend(d, ws[0]), ws[1..], k);
      FollowsThrough(d.mrs, FreeSend(d, ws[0]).mrs, FreeSends(d, ws).mrs, k);
    }
  }

  lemma {:induction false} FreeRecvsFollows(d: Device, ws: seq<Keys>, k: nat)
    ensures Follows(d.mrs, FreeRecvs(d, ws).mrs, k)
    decreases |ws|
  {
    if ws != [] {
      PutAllFollows(d, ws[0], k);
      FreeRecvsFollows(PutAll(d, ws[0]), ws[1..], k);
      FollowsThrough(d.mrs, PutAll(d, ws[0]).mrs, FreeRecvs(d, ws).mrs, k);
    }
  }

  lemma {:induction false} DestroyQpFollows(d: Device, h: nat, k: nat)
    ensures Follows(d.mrs, DestroyQp(d, h).mrs, k)
  {
    if Live(d.qps, h) && d.qps[h].value.rcq.Some? {
      var qp := d.qps[h].value;
      var put := PutCq(PutCq(PutPd(d, qp.pd), qp.scq), qp.rcq.value);
      var l := Lose(SetQp(put, h, None), qp.cur);
      FreeSendsFollows(l, qp.sq, k);
      FreeRecvsFollows(FreeSends(l, qp.sq), qp.rq, k);
      FollowsThrough(d.mrs, FreeSends(l, qp.sq).mrs, DestroyQp(d, h).mrs, k);
    }
  }

  lemma {:induction false} PostFollows(d: Device, h: nat, keys: Keys, k: nat)
    requires Balanced(d)
    ensures Follows(d.mrs, PostSend(d, h, keys).mrs, k)
    ensures Follows(d.mrs, PostRecv(d, h, keys).0.mrs, k)
  {
    AllOrNone(d, keys, multiset{}, multiset{}, multiset{});
    GetAllLive(d, keys, k);
    PutAllFollows(d, keys, k);
  }

  lemma {:induction false} WorkFollows(d: Device, h: nat, k: nat)
    ensures Follows(d.mrs, FinishSend(d, h).mrs, k) && Follows(d.mrs, FinishRecv(d, h).mrs, k)
    ensures Follows(d.mrs, TakeRecv(d, h).mrs, k)
  {
    if Live(d.qps, h) {
      var qp := d.qps[h].value;
      if qp.sq != [] { PutAllFollows(SetQp(d, h, Some(qp.(sq := qp.sq[1..]))), qp.sq[0].keys, k); }
      if qp.rq != [] { PutAllFollows(SetQp(d, h, Some(qp.(rq := qp.rq[1..]))), qp.rq[0], k); }
      if qp.cur.Some? { PutAllFollows(SetQp(d, h, Some(qp.(cur := None))), qp.cur.value, k); }
    }
  }

  /** Of a region that is there: it stays what it is or it goes, and only if its
      destruction was asked for. */
  ghost predicate Fate(was: seq<Option<Mr>>, now: seq<Option<Mr>>, k: nat, asked: bool) {
    Live(was, k) ==>
      if Live(now, k) then
        now[k].value.(ref := 0) == was[k].value.(ref := 0, destroyed := was[k].value.destroyed || asked)
      else
        was[k].value.destroyed || asked
  }

  predicate TouchesMrs(e: Event) {
    e.EvCreateMr? || e.EvDestroyMr? || Frees(e)
  }

  predicate Frees(e: Event) {
    e.EvDestroyQp? || e.EvPostSend? || e.EvPostRecv? || e.EvFinishSend? || e.EvFinishRecv? || e.EvTakeRecv?
  }

  lemma {:induction false} OthersKeepMrs(d: Device, e: Event)
    requires !TouchesMrs(e)
    ensures Step(d, e).mrs == d.mrs
  {
  }

  lemma {:induction false} OthersKeepLost(d: Device, e: Event)
    ensures !Frees(e) && !e.EvSkipSend? ==> Step(d, e).lost == d.lost
  {
  }

  lemma {:induction false} DestroyMrFate(d: Device, h: nat, k: nat)
    ensures Fate(d.mrs, DestroyMr(d, h).0.mrs, k, h == k)
  {
  }

  lemma {:induction false} FreesFollows(d: Device, e: Event, k: nat)
    requires Balanced(d) && Frees(e)
    ensures Follows(d.mrs, Step(d, e).mrs, k)
  {
    if e.EvDestroyQp? {
      DestroyQpFollows(d, e.h, k);
    } else if e.EvPostSend? || e.EvPostRecv? {
      PostFollows(d, e.h, e.keys, k);
    } else {
      WorkFollows(d, e.h, k);
    }
  }

  lemma {:induction false} CreateMrFate(d: Device, pd: nat, pageOk: bool, refused: int, k: nat)
    ensures Fate(d.mrs, CreateMr(d, pd, pageOk, refused).0.mrs, k, false)
  {
  }

  lemma {:induction false} StepFate(d: Device, e: Event, k: nat)
    requires Balanced(d)
    ensures Fate(d.mrs, Step(d, e).mrs, k, e == EvDestroyMr(k))
  {
    if Frees(e) {
      FreesFollows(d, e, k);
    } else if e.EvCreateMr? {
      CreateMrFate(d, e.pd, e.pageOk, e.refused, k);
    } else if e.EvDestroyMr? {
      DestroyMrFate(d, e.h, k);
    } else {
      OthersKeepMrs(d, e);
    }
  }

  /** A region goes in exactly the step after which nothing names it any more, its
      destruction having been asked for then or before. */
  lemma {:induction false} GoesExactlyWhenUnused(d: Device, e: Event, k: nat)
    requires Balanced(d) && Legal(d, e) && Live(d.mrs, k)
    ensures Live(Step(d, e).mrs, k) <==>
      MrUses(Step(d, e))[k] > 0 || !(d.mrs[k].value.destroyed || e == EvDestroyMr(k))
  {
    StepBalances(d, e);
    StepFate(d, e, k);
    var now := Step(d, e);
    assert MrRef(now.mrs, k) == (MrUses(now) + multiset{})[k];
  }

  ghost predicate UsedThroughout(d: Device, es: seq<Event>, k: nat)
    decreases |es|
  {
    MrUses(d)[k] > 0 && (es != [] ==> UsedThroughout(Step(d, es[0]), es[1..], k))
  }

  /** As long as some request names a region it is the same region, whatever is
      destroyed; afterwards it is marked if and only if it was, or someone asked. */
  lemma {:induction false} UsedRegionStays(d: Device, es: seq<Event>, k: nat)
    requires Balanced(d) && LegalRun(d, es) && UsedThroughout(d, es, k)
    ensures Live(d.mrs, k) && Live(Run(d, es).mrs, k)
    ensures Run(d, es).mrs[k].value.pd == d.mrs[k].value.pd
    ensures Run(d, es).mrs[k].value.destroyed <==> d.mrs[k].value.destroyed || EvDestroyMr(k) in es
    decreases |es|
  {
    CountedIsLive(d, k);
    if es != [] {
      StepBalances(d, es[0]);
      StepFate(d, es[0], k);
      UsedRegionStays(Step(d, es[0]), es[1..], k);
      assert EvDestroyMr(k) in es <==> EvDestroyMr(k) == es[0] || EvDestroyMr(k) in es[1..];
    }
  }

  lemma {:induction false} NamedByPrefix(ws: seq<Keys>, more: seq<Keys>, k: nat)
    ensures NamedByAll(ws + more)[k] >= NamedByAll(ws)[k]
  {
    if ws != [] {
      assert (ws + more)[1..] == ws[1..] + more;
      NamedByPrefix(ws[1..], more, k);
    }
  }

  lemma {:induction false} FreeKeepsLost(d: Device, ws: seq<Wr>, rs: seq<Keys>)
    ensures FreeSends(d, ws).lost == d.lost && FreeRecvs(d, rs).lost == d.lost
    decreases |ws| + |rs|
  {
    if ws != [] {
      PutAllFollows(d, ws[0].keys, 0);
      FreeKeepsLost(FreeSend(d, ws[0]), ws[1..], []);
    }
    if rs != [] {
      PutAllFollows(d, rs[0], 0);
      FreeKeepsLost(PutAll(d, rs[0]), [], rs[1..]);
    }
  }

  lemma {:induction false} DestroyQpLost(d: Device, h: nat)
    ensures DestroyQp(d, h).lost ==
      if Live(d.qps, h) && d.qps[h].value.rcq.Some? then Lose(d, d.qps[h].value.cur).lost else d.lost
  {
    if Live(d.qps, h) && d.qps[h].value.rcq.Some? {
      var qp := d.qps[h].value;
      var l := Lose(SetQp(PutCq(PutCq(PutPd(d, qp.pd), qp.scq), qp.rcq.value), h, None), qp.cur);
      FreeKeepsLost(l, qp.sq, []);
      FreeKeepsLost(FreeSends(l, qp.sq), [], qp.rq);
    }
  }

  lemma {:induction false} PostKeepsLost(d: Device, h: nat, keys: Keys)
    requires Balanced(d)
    ensures PostSend(d, h, keys).lost == d.lost && PostRecv(d, h, keys).0.lost == d.lost
  {
    AllOrNone(d, keys, multiset{}, multiset{}, multiset{});
    GetAllLive(d, keys, 0);
    PutAllFollows(d, keys, 0);
  }

  lemma {:induction false} DestroyQpKeepsLost(d: Device, h: nat, k: nat)
    ensures NamedByAll(DestroyQp(d, h).lost)[k] >= NamedByAll(d.lost)[k]
  {
    DestroyQpLost(d, h);
    if Live(d.qps, h) && d.qps[h].value.cur.Some? { NamedByPrefix(d.lost, [d.qps[h].value.cur.value], k); }
  }

  lemma {:induction false} SkipKeepsLost(d: Device, h: nat, k: nat)
    ensures NamedByAll(SkipSend(d, h).lost)[k] >= NamedByAll(d.lost)[k]
  {
    if Live(d.qps, h) && d.qps[h].value.sq != [] {
      NamedByPrefix(d.lost, [HeldBy(d.qps[h].value.sq[0])], k);
    }
  }

  /** Only the end of a queue pair and a skipped request lose anything. */
  lemma {:induction false} LostOtherwise(d: Device, e: Event)
    requires Balanced(d)
    ensures e.EvPostSend? || e.EvPostRecv? ==> Step(d, e).lost == d.lost
    ensures e.EvFinishSend? || e.EvFinishRecv? || e.EvTakeRecv? ==> Step(d, e).lost == d.lost
  {
    if e.EvPostSend? || e.EvPostRecv? {
      PostKeepsLost(d, e.h, e.keys);
    } else if e.EvFinishSend? || e.EvFinishRecv? || e.EvTakeRecv? {
      WorkKeepsLost(d, e.h);
    }
  }

  lemma {:induction false} LostStays(d: Device, e: Event, k: nat)
    requires Balanced(d)
    ensures NamedByAll(Step(d, e).lost)[k] >= NamedByAll(d.lost)[k]
  {
    if e.EvDestroyQp? {
      DestroyQpKeepsLost(d, e.h, k);
    } else if e.EvSkipSend? {
      SkipKeepsLost(d, e.h, k);
    } else {
      LostOtherwise(d, e);
      OthersKeepLost(d, e);
    }
  }

  lemma {:induction false} WorkKeepsLost(d: Device, h: nat)
    ensures FinishSend(d, h).lost == d.lost && FinishRecv(d, h).lost == d.lost && TakeRecv(d, h).lost == d.lost
  {
    if Live(d.qps, h) {
      var qp := d.qps[h].value;
      if qp.sq != [] { PutAllFollows(SetQp(d, h, Some(qp.(sq := qp.sq[1..]))), qp.sq[0].keys, 0); }
      if qp.rq != [] { PutAllFollows(SetQp(d, h, Some(qp.(rq := qp.rq[1..]))), qp.rq[0], 0); }
      if qp.cur.Some? { PutAllFollows(SetQp(d, h, Some(qp.(cur := None))), qp.cur.value, 0); }
    }
  }

  /** A request that was lost keeps its regions for good: a local request that leaves the
      send queue, and a receive cut short by the end of its queue pair, are never freed. */
  lemma {:induction false} LostRequestPins(d: Device, es: seq<Event>, k: nat)
    requires Balanced(d) && LegalRun(d, es) && NamedByAll(d.lost)[k] > 0
    ensures Live(d.mrs, k) && Live(Run(d, es).mrs, k)
    ensures Run(d, es).mrs[k].value.pd == d.mrs[k].value.pd
  {
    LostIsUsed(d, es, k);
    UsedRegionStays(d, es, k);
  }

  lemma {:induction false} LostIsUsed(d: Device, es: seq<Event>, k: nat)
    requires Balanced(d) && LegalRun(d, es) && NamedByAll(d.lost)[k] > 0
    ensures UsedThroughout(d, es, k)
    decreases |es|
  {
    if es != [] {
      StepBalances(d, es[0]);
      LostStays(d, es[0], k);
      LostIsUsed(Step(d, es[0]), es[1..], k);
    }
  }

  /** With the queue pairs gone and nothing lost no region waits to be destroyed. */
  lemma {:induction false} NothingWaits(d: Device, k: nat)
    requires Balanced(d) && Live(d.mrs, k) && NamedByAll(d.lost)[k] == 0
    requires forall i :: 0 <= i < |d.qps| ==> d.qps[i].None?
    ensures !d.mrs[k].value.destroyed && !Live(DestroyMr(d, k).0.mrs, k)
  {
    HeldByNone(d.qps, QpMrs());
    assert MrRef(d.mrs, k) == (MrUses(d) + multiset{})[k];
  }
}
