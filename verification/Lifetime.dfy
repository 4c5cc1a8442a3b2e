/**
 The lifetime of protection domains, completion queues, address handles, memory regions
 and queue pairs: who holds a reference to whom, and when an object may go.

 An object is named by its slot in the table of its kind.  The code keeps pointers; that
 the two say the same is what NoDangling states: a slot is not emptied, and so not
 refilled, while an object refers to it.
 */
module Lifetime {
  import opened Psn
  import opened Types

  const EINVAL := 22
  const EBUSY := 16
  const EACCES := 13

  /** The memory keys named by the entries of a work request. */
  type Keys = seq<uint32>

  datatype Ah = Ah(pd: nat)

  datatype Mr = Mr(pd: nat, ref: int, destroyed: bool)

  /** mapped says that the memory regions were referenced when the request was posted. */
  datatype Wr = Wr(keys: Keys, mapped: bool)

  /** cur is the receive request being filled.  rcq is absent when the queue pair was made
      with the handle of a receive completion queue that does not exist. */
  datatype Qp = Qp(pd: nat, scq: nat, rcq: Option<nat>, sq: seq<Wr>, rq: seq<Keys>, cur: Option<Keys>)

  /** A protection domain and a completion queue are their reference counts.  lost holds
      the requests that were taken off a queue and never freed; aborted says that the
      program stopped at an assertion or a null pointer. */
  datatype Device = Device(
    pds: seq<Option<int>>,
    cqs: seq<Option<int>>,
    ahs: seq<Option<Ah>>,
    mrs: seq<Option<Mr>>,
    qps: seq<Option<Qp>>,
    lost: seq<Keys>,
    aborted: bool)

  // ----- slots and counts

  predicate Live<T>(xs: seq<Option<T>>, h: nat) { h < |xs| && xs[h].Some? }

  /** The first empty slot, or the number of slots. */
  function FirstFree<T>(xs: seq<Option<T>>): (i: nat)
    ensures i <= |xs| && (i < |xs| ==> xs[i].None?)
    ensures forall j :: 0 <= j < i ==> xs[j].Some?
  {
    if xs == [] || xs[0].None? then 0 else 1 + FirstFree(xs[1..])
  }

  function GetRef(xs: seq<Option<int>>, h: nat): seq<Option<int>> {
    if Live(xs, h) then xs[h := Some(xs[h].value + 1)] else xs
  }

  function PutRef(xs: seq<Option<int>>, h: nat): seq<Option<int>> {
    if Live(xs, h) then xs[h := Some(xs[h].value - 1)] else xs
  }

  /** Giving back a reference is asserted to succeed. */
  function PutPd(d: Device, h: nat): Device {
    if Live(d.pds, h) then d.(pds := PutRef(d.pds, h)) else d.(aborted := true)
  }

  function PutCq(d: Device, h: nat): Device {
    if Live(d.cqs, h) then d.(cqs := PutRef(d.cqs, h)) else d.(aborted := true)
  }

  // ----- protection domains, completion queues, address handles

  function AllocPd(d: Device): (Device, int) {
    var i := FirstFree(d.pds);
    if i == |d.pds| then (d, -EBUSY) else (d.(pds := d.pds[i := Some(0)]), i)
  }

  function DeallocPd(d: Device, h: nat): (Device, int) {
    if !Live(d.pds, h) then (d, -EINVAL)
    else if d.pds[h].value != 0 then (d, -EBUSY)
    else (d.(pds := d.pds[h := None]), 0)
  }

  /** sizeOk is the check of the number of entries. */
  function CreateCq(d: Device, sizeOk: bool): (Device, int) {
    var i := FirstFree(d.cqs);
    if !sizeOk then (d, -EINVAL)
    else if i == |d.cqs| then (d, -EBUSY)
    else (d.(cqs := d.cqs[i := Some(0)]), i)
  }

  function DestroyCq(d: Device, h: nat): (Device, int) {
    if !Live(d.cqs, h) then (d, -EINVAL)
    else if d.cqs[h].value != 0 then (d, -EBUSY)
    else (d.(cqs := d.cqs[h := None]), 0)
  }

  function CreateAh(d: Device, pd: nat): (Device, int) {
    if !Live(d.pds, pd) then (d, -EINVAL) else
    var got := d.(pds := GetRef(d.pds, pd));
    var i := FirstFree(got.ahs);
    if i == |got.ahs| then (PutPd(got, pd), -EBUSY)
    else (got.(ahs := got.ahs[i := Some(Ah(pd))]), i)
  }

  function DestroyAh(d: Device, h: nat): (Device, int) {
    if !Live(d.ahs, h) then (d, -EINVAL)
    else (PutPd(d.(ahs := d.ahs[h := None]), d.ahs[h].value.pd), 0)
  }

  // ----- memory regions

  /** pageOk is the check of the page size, made before the protection domain is
      referenced; refused is the error code of the checks made after, or 0. */
  function CreateMr(d: Device, pd: nat, pageOk: bool, refused: int): (Device, int) {
    if !pageOk || !Live(d.pds, pd) then (d, -EINVAL) else
    var got := d.(pds := GetRef(d.pds, pd));
    var i := FirstFree(got.mrs);
    if refused != 0 then (PutPd(got, pd), refused)
    else if i == |got.mrs| then (PutPd(got, pd), -EBUSY)
    else (got.(mrs := got.mrs[i := Some(Mr(pd, 0, false))]), i)
  }

  function GetMr(d: Device, h: nat): Device {
    if Live(d.mrs, h) then
      var mr := d.mrs[h].value;
      d.(mrs := d.mrs[h := Some(mr.(ref := mr.ref + 1))])
    else d
  }

  /** A region in use is only marked, and goes when its last reference is given back. */
  function DestroyMr(d: Device, h: nat): (Device, int) {
    if !Live(d.mrs, h) then (d, -EINVAL) else
    var mr := d.mrs[h].value;
    if mr.ref != 0 then (d.(mrs := d.mrs[h := Some(mr.(destroyed := true))]), 0)
    else (PutPd(d.(mrs := d.mrs[h := None]), mr.pd), 0)
  }

  function PutMr(d: Device, h: nat): Device {
    if !Live(d.mrs, h) then d else
    var mr := d.mrs[h].value;
    var put := d.(mrs := d.mrs[h := Some(mr.(ref := mr.ref - 1))]);
    if mr.destroyed then DestroyMr(put, h).0 else put
  }

  /** The upper 24 bits of a key are the slot of its memory region. */
  function Index(key: uint32): nat { key / 256 }

  predicate AllLive(mrs: seq<Option<Mr>>, keys: Keys) {
    forall i :: 0 <= i < |keys| ==> Live(mrs, Index(keys[i]))
  }

  /** How many leading keys name a memory region. */
  function Found(mrs: seq<Option<Mr>>, keys: Keys): (n: nat)
    ensures n <= |keys| && AllLive(mrs, keys[..n])
    ensures n < |keys| ==> !Live(mrs, Index(keys[n]))
  {
    if keys == [] || !Live(mrs, Index(keys[0])) then 0
    else
      var n := Found(mrs, keys[1..]);
      assert keys[..1 + n] == [keys[0]] + keys[1..][..n];
      1 + n
  }

  function GetAll(d: Device, keys: Keys): Device {
    if keys == [] then d
    else GetMr(GetAll(d, keys[..|keys| - 1]), Index(keys[|keys| - 1]))
  }

  /** References given back from the last key to the first. */
  function PutBack(d: Device, keys: Keys): Device
    decreases |keys|
  {
    if keys == [] then d
    else PutBack(PutMr(d, Index(keys[|keys| - 1])), keys[..|keys| - 1])
  }

  /** References given back from the first key to the last. */
  function PutAll(d: Device, keys: Keys): Device
    decreases |keys|
  {
    if keys == [] then d else PutAll(PutMr(d, Index(keys[0])), keys[1..])
  }

  /** All the references or, as far as RollbackIsExact says, none. */
  function GetMrs(d: Device, keys: Keys): (Device, int) {
    var n := Found(d.mrs, keys);
    if n == |keys| then (GetAll(d, keys), 0)
    else (PutBack(GetAll(d, keys[..n]), keys[..n]), -EACCES)
  }

  // ----- queue pairs and work requests

  function CreateQp(d: Device, pd: nat, scq: nat, rcq: nat, argsOk: bool): (Device, int) {
    if !argsOk || !Live(d.pds, pd) then (d, -EINVAL) else
    var got := d.(pds := GetRef(d.pds, pd));
    if !Live(d.cqs, scq) then (PutPd(got, pd), -EINVAL) else
    var gotS := got.(cqs := GetRef(got.cqs, scq));
    var gotR := gotS.(cqs := GetRef(gotS.cqs, rcq));
    var i := FirstFree(d.qps);
    if i == |d.qps| then
      var put := PutCq(PutPd(gotR, pd), scq);
      (if Live(d.cqs, rcq) then PutCq(put, rcq) else put, -EINVAL)
    else
      var qp := Qp(pd, scq, if Live(d.cqs, rcq) then Some(rcq) else None, [], [], None);
      (gotR.(qps := d.qps[i := Some(qp)]), i)
  }

  function FreeSend(d: Device, w: Wr): Device {
    if w.mapped then PutAll(d, w.keys) else d
  }

  function FreeSends(d: Device, ws: seq<Wr>): Device
    decreases |ws|
  {
    if ws == [] then d else FreeSends(FreeSend(d, ws[0]), ws[1..])
  }

  function FreeRecvs(d: Device, ws: seq<Keys>): Device
    decreases |ws|
  {
    if ws == [] then d else FreeRecvs(PutAll(d, ws[0]), ws[1..])
  }

  function SetQp(d: Device, h: nat, qp: Option<Qp>): Device
    requires Live(d.qps, h)
  {
    d.(qps := d.qps[h := qp])
  }

  function Lose(d: Device, w: Option<Keys>): Device {
    if w.Some? then d.(lost := d.lost + [w.value]) else d
  }

  /** The request that was being filled is not among those freed. */
  function DestroyQp(d: Device, h: nat): Device {
    if !Live(d.qps, h) then d.(aborted := true) else
    var qp := d.qps[h].value;
    var put := PutCq(PutPd(d, qp.pd), qp.scq);
    if qp.rcq.None? then put.(aborted := true) else
    var unlinked := SetQp(PutCq(put, qp.rcq.value), h, None);
    FreeRecvs(FreeSends(Lose(unlinked, qp.cur), qp.sq), qp.rq)
  }

  /** A request whose keys could not be referenced is queued all the same. */
  function PostSend(d: Device, h: nat, keys: Keys): Device {
    var (got, ret) := GetMrs(d, keys);
    if !Live(got.qps, h) then got.(aborted := true) else
    var qp := got.qps[h].value;
    SetQp(got, h, Some(qp.(sq := qp.sq + [Wr(keys, ret == 0)])))
  }

  function PostRecv(d: Device, h: nat, keys: Keys): (Device, int) {
    var (got, ret) := GetMrs(d, keys);
    if ret != 0 then (PutAll(got, keys), -EACCES)
    else if !Live(got.qps, h) then (got.(aborted := true), 0)
    else
      var qp := got.qps[h].value;
      (SetQp(got, h, Some(qp.(rq := qp.rq + [keys]))), 0)
  }

  // ----- runs

  /** FinishSend frees the head of a send queue and SkipSend takes it off unfreed;
      StartRecv makes the head of a receive queue the request being filled, FinishRecv
      frees that one, and TakeRecv takes the head and frees it at once. */
  datatype Event =
    | EvAllocPd | EvDeallocPd(h: nat)
    | EvCreateCq(sizeOk: bool) | EvDestroyCq(h: nat)
    | EvCreateAh(pd: nat) | EvDestroyAh(h: nat)
    | EvCreateMr(pd: nat, pageOk: bool, refused: int) | EvDestroyMr(h: nat)
    | EvCreateQp(pd: nat, scq: nat, rcq: nat, argsOk: bool) | EvDestroyQp(h: nat)
    | EvPostSend(h: nat, keys: Keys) | EvPostRecv(h: nat, keys: Keys)
    | EvFinishSend(h: nat) | EvSkipSend(h: nat)
    | EvStartRecv(h: nat) | EvFinishRecv(h: nat) | EvTakeRecv(h: nat)

  function FinishSend(d: Device, h: nat): Device {
    if !Live(d.qps, h) || d.qps[h].value.sq == [] then d else
    var qp := d.qps[h].value;
    FreeSend(SetQp(d, h, Some(qp.(sq := qp.sq[1..]))), qp.sq[0])
  }

  function SkipSend(d: Device, h: nat): Device {
    if !Live(d.qps, h) || d.qps[h].value.sq == [] then d else
    var qp := d.qps[h].value;
    Lose(SetQp(d, h, Some(qp.(sq := qp.sq[1..]))), Some(HeldBy(qp.sq[0])))
  }

  function StartRecv(d: Device, h: nat): Device {
    if !Live(d.qps, h) || d.qps[h].value.rq == [] || d.qps[h].value.cur.Some? then d else
    var qp := d.qps[h].value;
    SetQp(d, h, Some(qp.(rq := qp.rq[1..], cur := Some(qp.rq[0]))))
  }

  function FinishRecv(d: Device, h: nat): Device {
    if !Live(d.qps, h) || d.qps[h].value.cur.None? then d else
    var qp := d.qps[h].value;
    PutAll(SetQp(d, h, Some(qp.(cur := None))), qp.cur.value)
  }

  function TakeRecv(d: Device, h: nat): Device {
    if !Live(d.qps, h) || d.qps[h].value.rq == [] then d else
    var qp := d.qps[h].value;
    PutAll(SetQp(d, h, Some(qp.(rq := qp.rq[1..]))), qp.rq[0])
  }

  function Step(d: Device, e: Event): Device {
    match e
    case EvAllocPd => AllocPd(d).0
    case EvDeallocPd(h) => DeallocPd(d, h).0
    case EvCreateCq(sizeOk) => CreateCq(d, sizeOk).0
    case EvDestroyCq(h) => DestroyCq(d, h).0
    case EvCreateAh(pd) => CreateAh(d, pd).0
    case EvDestroyAh(h) => DestroyAh(d, h).0
    case EvCreateMr(pd, pageOk, refused) => CreateMr(d, pd, pageOk, refused).0
    case EvDestroyMr(h) => DestroyMr(d, h).0
    case EvCreateQp(pd, scq, rcq, argsOk) => CreateQp(d, pd, scq, rcq, argsOk).0
    case EvDestroyQp(h) => DestroyQp(d, h)
    case EvPostSend(h, keys) => PostSend(d, h, keys)
    case EvPostRecv(h, keys) => PostRecv(d, h, keys).0
    case EvFinishSend(h) => FinishSend(d, h)
    case EvSkipSend(h) => SkipSend(d, h)
    case EvStartRecv(h) => StartRecv(d, h)
    case EvFinishRecv(h) => FinishRecv(d, h)
    case EvTakeRecv(h) => TakeRecv(d, h)
  }

  function Run(d: Device, es: seq<Event>): Device
    decreases |es|
  {
    if es == [] then d else Run(Step(d, es[0]), es[1..])
  }

  // ----- who holds what

  function HeldBy(w: Wr): Keys { if w.mapped then w.keys else [] }

  function Named(keys: Keys): multiset<nat> {
    if keys == [] then multiset{} else multiset{Index(keys[0])} + Named(keys[1..])
  }

  function NamedBySends(ws: seq<Wr>): multiset<nat> {
    if ws == [] then multiset{} else Named(HeldBy(ws[0])) + NamedBySends(ws[1..])
  }

  function NamedByAll(ws: seq<Keys>): multiset<nat> {
    if ws == [] then multiset{} else Named(ws[0]) + NamedByAll(ws[1..])
  }

  function Of<T>(x: Option<T>, f: T -> multiset<nat>): multiset<nat> {
    if x.Some? then f(x.value) else multiset{}
  }

  /** What the objects of a table hold, taken together. */
  function Held<T>(xs: seq<Option<T>>, f: T -> multiset<nat>): multiset<nat> {
    if xs == [] then multiset{} else Of(xs[0], f) + Held(xs[1..], f)
  }

  function AhPd(): Ah -> multiset<nat> { (ah: Ah) => multiset{ah.pd} }

  function MrPd(): Mr -> multiset<nat> { (mr: Mr) => multiset{mr.pd} }

  function QpPd(): Qp -> multiset<nat> { (qp: Qp) => multiset{qp.pd} }

  function QpCqs(): Qp -> multiset<nat> {
    (qp: Qp) => multiset{qp.scq} + (if qp.rcq.Some? then multiset{qp.rcq.value} else multiset{})
  }

  function QpMrs(): Qp -> multiset<nat> {
    (qp: Qp) => NamedBySends(qp.sq) + NamedByAll(qp.rq)
                + (if qp.cur.Some? then Named(qp.cur.value) else multiset{})
  }

  function PdUses(d: Device): multiset<nat> {
    Held(d.ahs, AhPd()) + Held(d.mrs, MrPd()) + Held(d.qps, QpPd())
  }

  function CqUses(d: Device): multiset<nat> { Held(d.qps, QpCqs()) }

  /** The regions named by requests posted and not freed, once for each entry. */
  function MrUses(d: Device): multiset<nat> { Held(d.qps, QpMrs()) + NamedByAll(d.lost) }

  function Ref(xs: seq<Option<int>>, h: nat): int {
    if Live(xs, h) then xs[h].value else 0
  }

  function MrRef(mrs: seq<Option<Mr>>, h: nat): int {
    if Live(mrs, h) then mrs[h].value.ref else 0
  }

  ghost predicate Counts(xs: seq<Option<int>>, held: multiset<nat>) {
    forall k: nat :: Ref(xs, k) == held[k]
  }

  /** A region marked for destruction is still in use. */
  ghost predicate MrCounts(mrs: seq<Option<Mr>>, held: multiset<nat>) {
    && (forall k: nat :: MrRef(mrs, k) == held[k])
    && (forall k :: 0 <= k < |mrs| && mrs[k].Some? && mrs[k].value.destroyed ==> mrs[k].value.ref > 0)
  }

  /** Every count is what the objects hold and, on top of it, references that a call has
      taken and not yet stored, or unstored and not yet given back. */
  ghost predicate Owes(d: Device, pds: multiset<nat>, cqs: multiset<nat>, mrs: multiset<nat>) {
    && !d.aborted
    && Counts(d.pds, PdUses(d) + pds)
    && Counts(d.cqs, CqUses(d) + cqs)
    && MrCounts(d.mrs, MrUses(d) + mrs)
  }

  ghost predicate Balanced(d: Device) { Owes(d, multiset{}, multiset{}, multiset{}) }
}
