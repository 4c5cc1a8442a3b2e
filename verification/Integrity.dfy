/**
 What a completion is worth: in every run, the data of a completed request is in the
 receiver's memory.

 The runs considered are those whose requests consume a receive request (SEND, SEND
 with immediate, RDMA WRITE with immediate), where the i-th receive request has room
 for the i-th message.
 */
module Integrity {
  import opened Psn
  import opened Types
  import opened Scatter
  import opened Requester
  import opened Segment
  import opened Responder
  import opened Delivery
  import opened Streams
  import opened Protocol
  import opened Safety

  // ----- the receiver between two packets

  /** The memory after one more message. */
  function Put(env: Env, mem: Mem, m: Msg, wr: RecvWr): Mem {
    if Fits(env, m, wr) then Write(mem, Target(env, m, wr), m.data) else mem
  }

  /** The memory after the first i messages. */
  function MemAfter(env: Env, mem: Mem, msgs: seq<Msg>, recvs: seq<RecvWr>, i: nat): Mem
    decreases i
  {
    if i == 0 then mem
    else
      var before := MemAfter(env, mem, msgs, recvs, i - 1);
      if i <= |msgs| && i <= |recvs| then Put(env, before, msgs[i - 1], recvs[i - 1]) else before
  }

  function CqAfter(msgs: seq<Msg>, recvs: seq<RecvWr>, i: nat): seq<Wc>
    decreases i
  {
    if i == 0 then []
    else CqAfter(msgs, recvs, i - 1) + if i <= |msgs| && i <= |recvs| then [RecvWcOf(msgs[i - 1], recvs[i - 1])] else []
  }

  /** The receiver after exactly the first i messages. */
  function Settled(env: Env, mem: Mem, msgs: seq<Msg>, recvs: seq<RecvWr>, i: nat): Data {
    Data(Idle, if i <= |recvs| then recvs[i..] else [], MemAfter(env, mem, msgs, recvs, i), CqAfter(msgs, recvs, i))
  }

  /** d with the first n bytes of message i in, where i whole ones are in d. */
  function Resumed(env: Env, d: Data, msgs: seq<Msg>, i: nat, n: nat): Data {
    if i < |msgs| then Partial(env, d, msgs[i], n) else d
  }

  predicate Arrivable(env: Env, m: Msg) {
    Delivered(m.w) && (m.w.op.WrWriteWithImm? ==> RemoteReady(env, m))
  }

  /** Every message could begin to arrive, and fits the receive request it will use. */
  predicate AllFit(env: Env, msgs: seq<Msg>, recvs: seq<RecvWr>) {
    && (forall j :: 0 <= j < |msgs| ==> Arrivable(env, msgs[j]))
    && (forall j :: 0 <= j < |msgs| && j < |recvs| ==> Fits(env, msgs[j], recvs[j]))
  }

  lemma {:induction false} SettledStep(env: Env, mem: Mem, msgs: seq<Msg>, recvs: seq<RecvWr>, i: nat)
    requires i < |msgs| && i < |recvs| && Fits(env, msgs[i], recvs[i])
    ensures var d := Settled(env, mem, msgs, recvs, i);
      CanArrive(env, d, msgs[i]) && Done(env, d, msgs[i]) == Settled(env, mem, msgs, recvs, i + 1)
  {
  }

  lemma {:induction false} SettledWithMore(env: Env, mem: Mem, msgs: seq<Msg>, m: seq<Msg>, recvs: seq<RecvWr>, i: nat)
    requires i <= |msgs|
    ensures Settled(env, mem, msgs + m, recvs, i) == Settled(env, mem, msgs, recvs, i)
    decreases i
  {
    if i > 0 {
      SettledWithMore(env, mem, msgs, m, recvs, i - 1);
    }
  }

  lemma {:induction false} SettledWithRecv(env: Env, mem: Mem, msgs: seq<Msg>, recvs: seq<RecvWr>, wr: RecvWr, i: nat)
    requires i <= |recvs|
    ensures var d := Settled(env, mem, msgs, recvs, i);
      Settled(env, mem, msgs, recvs + [wr], i) == d.(rq := d.rq + [wr])
    decreases i
  {
    if i > 0 {
      SettledWithRecv(env, mem, msgs, recvs, wr, i - 1);
    }
  }

  lemma {:induction false} PartialWithRecv(env: Env, d: Data, m: Msg, n: nat, wr: RecvWr)
    requires n == 0 || d.rq != [] || m.w.op.WrWriteWithImm?
    ensures var p := Partial(env, d, m, n);
      Partial(env, d.(rq := d.rq + [wr]), m, n) == p.(rq := p.rq + [wr])
  {
  }

  lemma {:induction false} PartialZero(env: Env, d: Data, m: Msg)
    ensures Partial(env, d, m, 0) == d
  {
  }

  // ----- the packets still to come

  /** rest is what is left of message i. */
  function WithLater(mtu: pos, msgs: seq<Msg>, i: nat, rest: seq<Pkt>, psn: int): seq<Pkt>
    requires i < |msgs|
  {
    rest + Stream(Cutter(mtu), msgs[i + 1..], psn + |rest|)
  }

  function LeftOver(mtu: pos, msgs: seq<Msg>, i: nat, n: nat, psn: int): seq<Pkt> {
    if i >= |msgs| || !Delivered(msgs[i].w) || n > |msgs[i].data| then []
    else WithLater(mtu, msgs, i, Rest(msgs[i], n, mtu, psn), psn)
  }

  lemma {:induction false} LaterCons(mtu: pos, msgs: seq<Msg>, i: nat, x: Pkt, rest: seq<Pkt>, psn: int)
    requires i < |msgs|
    ensures WithLater(mtu, msgs, i, [x] + rest, psn) == [x] + WithLater(mtu, msgs, i, rest, psn + 1)
  {
    var more := Stream(Cutter(mtu), msgs[i + 1..], psn + 1 + |rest|);
    Glue([x], rest, more, [x] + rest);
    assert psn + |[x] + rest| == psn + 1 + |rest|;
  }

  lemma {:induction false} WholeRest(m: Msg, mtu: pos, psn: int)
    requires Delivered(m.w)
    ensures Rest(m, 0, mtu, psn) == Packets(m.w, m.data, mtu, psn)
  {
    assert m.data[0..] == m.data;
  }

  /** At the end of a message the next one begins. */
  lemma {:induction false} LeftOverNext(mtu: pos, msgs: seq<Msg>, i: nat, psn: int)
    requires i <= |msgs| && (i < |msgs| ==> Delivered(msgs[i].w))
    ensures LeftOver(mtu, msgs, i, 0, psn) == Stream(Cutter(mtu), msgs[i..], psn)
  {
    if i < |msgs| {
      WholeRest(msgs[i], mtu, psn);
      assert msgs[i..][1..] == msgs[i + 1..];
    }
  }

  lemma {:induction false} LeftOverHead(mtu: pos, msgs: seq<Msg>, i: nat, n: nat, psn: int)
    requires i < |msgs| && Delivered(msgs[i].w) && (i + 1 < |msgs| ==> Delivered(msgs[i + 1].w))
    requires n <= |msgs[i].data|
    ensures var m, left := msgs[i], LeftOver(mtu, msgs, i, n, psn);
      var len := Min(|m.data| - n, mtu);
      left == [Piece(m, n, len, psn)]
              + if n + len == |m.data| then LeftOver(mtu, msgs, i + 1, 0, psn + 1)
                else LeftOver(mtu, msgs, i, n + len, psn + 1)
  {
    var m := msgs[i];
    var len := Min(|m.data| - n, mtu);
    var head, rest := Piece(m, n, len, psn), if n + len == |m.data| then [] else Rest(m, n + len, mtu, psn + 1);
    assert Rest(m, n, mtu, psn) == [head] + rest by { RestSplits(m, n, mtu, psn); }
    LaterCons(mtu, msgs, i, head, rest, psn);
    if n + len == |m.data| {
      LeftOverNext(mtu, msgs, i + 1, psn + 1);
      assert WithLater(mtu, msgs, i, [], psn + 1) == Stream(Cutter(mtu), msgs[i + 1..], psn + 1);
    }
  }

  // ----- the place that the receiver has reached

  /** Whole messages received, and bytes of the next one. */
  datatype Place = Place(i: nat, n: nat)

  predicate InMessage(msgs: seq<Msg>, recvs: seq<RecvWr>, p: Place) {
    && p.i <= |msgs| && p.i <= |recvs|
    && (p.n > 0 ==> p.i < |msgs| && p.n < |msgs[p.i].data| && (p.i < |recvs| || msgs[p.i].w.op.WrWriteWithImm?))
  }

  /** left are the packets not taken yet, the first of them numbered psn. */
  predicate At(c: Config, mem: Mem, msgs: seq<Msg>, recvs: seq<RecvWr>, d: Data, left: seq<Pkt>, psn: int, p: Place) {
    && InMessage(msgs, recvs, p)
    && left == LeftOver(c.mtu, msgs, p.i, p.n, psn)
    && d == DataAt(c, mem, msgs, recvs, p)
  }

  /** The place after one more packet. */
  function PlaceAfter(mtu: pos, msgs: seq<Msg>, p: Place): Place {
    if p.i >= |msgs| then p
    else
      var size := |msgs[p.i].data|;
      if size - p.n <= mtu then Place(p.i + 1, 0) else Place(p.i, p.n + mtu)
  }

  /** d0 and d1 are the data before and after message p.i. */
  lemma {:induction false} ResumedNext(env: Env, d0: Data, d1: Data, msgs: seq<Msg>, p: Place, mtu: pos)
    requires p.i < |msgs| && p.n <= |msgs[p.i].data| && d1 == Done(env, d0, msgs[p.i])
    ensures var m, q := msgs[p.i], PlaceAfter(mtu, msgs, p);
      Next(env, d0, m, p.n + Min(|m.data| - p.n, mtu)) == Resumed(env, if q.i == p.i then d0 else d1, msgs, q.i, q.n)
  {
    if p.i + 1 < |msgs| {
      PartialZero(env, d1, msgs[p.i + 1]);
    }
  }

  lemma {:induction false} LeftStep(mtu: pos, msgs: seq<Msg>, p: Place, psn: int)
    requires p.i < |msgs| && Delivered(msgs[p.i].w) && (p.i + 1 < |msgs| ==> Delivered(msgs[p.i + 1].w))
    requires p.n <= |msgs[p.i].data|
    ensures var m, left, q := msgs[p.i], LeftOver(mtu, msgs, p.i, p.n, psn), PlaceAfter(mtu, msgs, p);
      && left != [] && left[0] == Piece(m, p.n, Min(|m.data| - p.n, mtu), psn)
      && left[1..] == LeftOver(mtu, msgs, q.i, q.n, psn + 1)
  {
    var m, left, q := msgs[p.i], LeftOver(mtu, msgs, p.i, p.n, psn), PlaceAfter(mtu, msgs, p);
    var head, tail := Piece(m, p.n, Min(|m.data| - p.n, mtu), psn), LeftOver(mtu, msgs, q.i, q.n, psn + 1);
    assert left == [head] + tail by { LeftOverHead(mtu, msgs, p.i, p.n, psn); }
    HeadTail(left, head, tail);
  }

  lemma {:induction false} HeadTail<T>(s: seq<T>, x: T, t: seq<T>)
    requires s == [x] + t
    ensures s != [] && s[0] == x && s[1..] == t
  {
  }

  /** The data that the receiver has at a place. */
  function DataAt(c: Config, mem: Mem, msgs: seq<Msg>, recvs: seq<RecvWr>, p: Place): Data {
    Resumed(c.env, Settled(c.env, mem, msgs, recvs, p.i), msgs, p.i, p.n)
  }

  /** The first packet of what is left continues the message at this place, and what
      comes after it is what is left at the next place. */
  lemma {:induction false} PieceAtPlace(c: Config, mem: Mem, msgs: seq<Msg>, recvs: seq<RecvWr>, d: Data,
          left: seq<Pkt>, psn: int, p: Place)
    requires AllFit(c.env, msgs, recvs) && At(c, mem, msgs, recvs, d, left, psn, p)
    requires Takeable(c.mtu, msgs, recvs, p)
    ensures var m, q := msgs[p.i], PlaceAfter(c.mtu, msgs, p);
      && left != [] && left[0] == Piece(m, p.n, Min(|m.data| - p.n, c.mtu), psn)
      && At(c, mem, msgs, recvs, DataAt(c, mem, msgs, recvs, q), left[1..], psn + 1, q)
  {
    LeftStep(c.mtu, msgs, p, psn);
  }

  // ----- packets that arrive

  lemma {:induction false} RecvTook(env: Env, r: Rsp, pkt: Pkt, d': Data)
    requires Judge(r.rqPsn, pkt.psn) == Expected && StepOf(env)(r.data, pkt, d')
    ensures Takes(env, r, pkt) && RecvRc(env, r, pkt).data == d'
  {
  }

  lemma {:induction false} RecvIdle(env: Env, r: Rsp, pkt: Pkt)
    requires Judge(r.rqPsn, pkt.psn) == Expected ==> Receive(env, r.data, pkt) == Refused(r.data, false)
    ensures !Takes(env, r, pkt) && RecvRc(env, r, pkt).data == r.data
  {
  }

  /** The packet at this place can be taken: it is the last of its message, and a receive
      request is there; or it is one before it, and the message can begin. */
  predicate Takeable(mtu: pos, msgs: seq<Msg>, recvs: seq<RecvWr>, p: Place) {
    p.i < |msgs| && (p.i < |recvs| || (msgs[p.i].w.op.WrWriteWithImm? && |msgs[p.i].data| - p.n > mtu))
  }

  /** dp and dq are the data at p and at the place after it. */
  lemma {:induction false} DataStep(step: (Data, Pkt, Data) -> bool, env: Env, d0: Data, d1: Data, msgs: seq<Msg>,
          p: Place, mtu: pos, dp: Data, pkt: Pkt, dq: Data)
    requires p.i < |msgs| && p.n <= |msgs[p.i].data| && d1 == Done(env, d0, msgs[p.i])
    requires var m, len := msgs[p.i], Min(|msgs[p.i].data| - p.n, mtu);
      step(Partial(env, d0, m, p.n), pkt, Next(env, d0, m, p.n + len))
    requires dp == Resumed(env, d0, msgs, p.i, p.n)
    requires var q := PlaceAfter(mtu, msgs, p); dq == Resumed(env, if q.i == p.i then d0 else d1, msgs, q.i, q.n)
    ensures step(dp, pkt, dq)
  {
    ResumedNext(env, d0, d1, msgs, p, mtu);
  }

  /** d0 are the data before message p.i. */
  lemma {:induction false} PieceStep(step: (Data, Pkt, Data) -> bool, env: Env, d0: Data, msgs: seq<Msg>, p: Place,
          mtu: pos, psn: int, dp: Data, pkt: Pkt, dq: Data, whole: bool)
    requires mtu <= env.pageSize
    requires p.i < |msgs| && (p.n < |msgs[p.i].data| || p.n == |msgs[p.i].data| == 0)
    requires Follows(step, env, d0, msgs[p.i], whole) && (|msgs[p.i].data| - p.n <= mtu ==> whole)
    requires pkt == Piece(msgs[p.i], p.n, Min(|msgs[p.i].data| - p.n, mtu), psn)
    requires dp == Resumed(env, d0, msgs, p.i, p.n)
    requires var q := PlaceAfter(mtu, msgs, p);
      dq == Resumed(env, if q.i == p.i then d0 else Done(env, d0, msgs[p.i]), msgs, q.i, q.n)
    ensures step(dp, pkt, dq)
  {
    FollowsAt(step, env, d0, msgs[p.i], p.n, Min(|msgs[p.i].data| - p.n, mtu), psn, whole);
    DataStep(step, env, d0, Done(env, d0, msgs[p.i]), msgs, p, mtu, dp, pkt, dq);
  }

  lemma {:induction false} SettledBegins(c: Config, mem: Mem, msgs: seq<Msg>, recvs: seq<RecvWr>, p: Place)
    requires AllFit(c.env, msgs, recvs) && InMessage(msgs, recvs, p) && Takeable(c.mtu, msgs, recvs, p)
    ensures var d, m := Settled(c.env, mem, msgs, recvs, p.i), msgs[p.i];
      && Delivered(m.w) && CanBegin(c.env, d, m)
      && (p.i < |recvs| ==> CanArrive(c.env, d, m) && Done(c.env, d, m) == Settled(c.env, mem, msgs, recvs, p.i + 1))
  {
    assert Arrivable(c.env, msgs[p.i]);
    if p.i < |recvs| {
      SettledStep(c.env, mem, msgs, recvs, p.i);
    }
  }

  lemma {:induction false} PlaceStep(step: (Data, Pkt, Data) -> bool, c: Config, mem: Mem, msgs: seq<Msg>,
          recvs: seq<RecvWr>, d: Data, psn: int, p: Place, pkt: Pkt)
    requires c.mtu <= c.env.pageSize
    requires AllFit(c.env, msgs, recvs) && InMessage(msgs, recvs, p) && Takeable(c.mtu, msgs, recvs, p)
    requires Follows(step, c.env, Settled(c.env, mem, msgs, recvs, p.i), msgs[p.i], p.i < |recvs|)
    requires d == DataAt(c, mem, msgs, recvs, p)
    requires pkt == Piece(msgs[p.i], p.n, Min(|msgs[p.i].data| - p.n, c.mtu), psn)
    ensures step(d, pkt, DataAt(c, mem, msgs, recvs, PlaceAfter(c.mtu, msgs, p)))
  {
    var d0, q := Settled(c.env, mem, msgs, recvs, p.i), PlaceAfter(c.mtu, msgs, p);
    SettledBegins(c, mem, msgs, recvs, p);
    PieceStep(step, c.env, d0, msgs, p, c.mtu, psn, d, pkt, DataAt(c, mem, msgs, recvs, q), p.i < |recvs|);
  }

  /** The expected packet arrives and can be taken. */
  lemma {:induction false} ExpectedTaken(c: Config, mem: Mem, msgs: seq<Msg>, recvs: seq<RecvWr>, d: Data, psn: int,
          p: Place, pkt: Pkt)
    requires c.mtu <= c.env.pageSize
    requires AllFit(c.env, msgs, recvs) && InMessage(msgs, recvs, p) && Takeable(c.mtu, msgs, recvs, p)
    requires d == DataAt(c, mem, msgs, recvs, p) && Delivered(msgs[p.i].w)
    requires pkt == Piece(msgs[p.i], p.n, Min(|msgs[p.i].data| - p.n, c.mtu), psn)
    ensures StepOf(c.env)(d, pkt, DataAt(c, mem, msgs, recvs, PlaceAfter(c.mtu, msgs, p)))
  {
    SettledBegins(c, mem, msgs, recvs, p);
    MessageFollows(c.env, Settled(c.env, mem, msgs, recvs, p.i), msgs[p.i], p.i < |recvs|);
    PlaceStep(StepOf(c.env), c, mem, msgs, recvs, d, psn, p, pkt);
  }

  /** The opcodes that consume a receive request. */
  predicate WithImm(op: Opcode) { op.WriteLastImm? || op.WriteOnlyImm? }

  /** The expected packet arrives and cannot be taken: it begins a SEND. */
  lemma {:induction false} ExpectedRefused(c: Config, mem: Mem, msgs: seq<Msg>, recvs: seq<RecvWr>, r: Rsp,
          left: seq<Pkt>, psn: int, p: Place)
    requires AllFit(c.env, msgs, recvs) && At(c, mem, msgs, recvs, r.data, left, psn, p)
    requires p.i < |msgs| && !Takeable(c.mtu, msgs, recvs, p) && left != []
    requires WithImm(left[0].opcode) ==> r.data.rq != []
    ensures Receive(c.env, r.data, left[0]) == Refused(r.data, false)
  {
    assert Arrivable(c.env, msgs[p.i]);
    LeftHead(c.mtu, msgs, p, psn);
    PartialZero(c.env, Settled(c.env, mem, msgs, recvs, p.i), msgs[p.i]);
    assert r.data.rq == [];
    assert !msgs[p.i].w.op.WrWriteWithImm?;
    SendDispatch(c.env, r.data, msgs[p.i], 0, Min(|msgs[p.i].data|, c.mtu), psn);
  }

  lemma {:induction false} LeftHead(mtu: pos, msgs: seq<Msg>, p: Place, psn: int)
    requires p.i < |msgs| && Delivered(msgs[p.i].w) && p.n <= |msgs[p.i].data|
    ensures var m, left := msgs[p.i], LeftOver(mtu, msgs, p.i, p.n, psn);
      left != [] && left[0] == Piece(m, p.n, Min(|m.data| - p.n, mtu), psn)
  {
    RestSplits(msgs[p.i], p.n, mtu, psn);
  }

  /** The expected packet arrives. */
  lemma {:induction false} ExpectedMoves(c: Config, mem: Mem, msgs: seq<Msg>, recvs: seq<RecvWr>, r: Rsp,
          left: seq<Pkt>, psn: int, p: Place)
    returns (q: Place)
    requires c.mtu <= c.env.pageSize
    requires AllFit(c.env, msgs, recvs) && At(c, mem, msgs, recvs, r.data, left, psn, p)
    requires left != [] && Judge(r.rqPsn, left[0].psn) == Expected
    requires WithImm(left[0].opcode) ==> r.data.rq != []
    ensures var after := RecvRc(c.env, r, left[0]).data;
      if Takes(c.env, r, left[0]) then At(c, mem, msgs, recvs, after, left[1..], psn + 1, q)
      else q == p && after == r.data
  {
    if Takeable(c.mtu, msgs, recvs, p) {
      q := PlaceAfter(c.mtu, msgs, p);
      PieceAtPlace(c, mem, msgs, recvs, r.data, left, psn, p);
      ExpectedTaken(c, mem, msgs, recvs, r.data, psn, p, left[0]);
      RecvTook(c.env, r, left[0], DataAt(c, mem, msgs, recvs, q));
    } else {
      q := p;
      ExpectedRefused(c, mem, msgs, recvs, r, left, psn, p);
      RecvIdle(c.env, r, left[0]);
    }
  }

  // ----- the other events

  lemma {:induction false} LeftOverMore(mtu: pos, msgs: seq<Msg>, m: Msg, i: nat, n: nat, psn: int)
    requires Delivered(m.w) && i <= |msgs| && (i < |msgs| ==> Delivered(msgs[i].w) && n <= |msgs[i].data|)
    requires i == |msgs| ==> n == 0
    ensures var left := LeftOver(mtu, msgs, i, n, psn);
      LeftOver(mtu, msgs + [m], i, n, psn) == left + Packets(m.w, m.data, mtu, psn + |left|)
  {
    if i == |msgs| {
      LeftOverNew(mtu, msgs, m, psn);
      assert LeftOver(mtu, msgs, i, n, psn) == [];
    } else {
      assert (msgs + [m])[i] == msgs[i];
      LaterMore(mtu, msgs, m, i, Rest(msgs[i], n, mtu, psn), psn);
    }
  }

  lemma {:induction false} LeftOverNew(mtu: pos, msgs: seq<Msg>, m: Msg, psn: int)
    requires Delivered(m.w)
    ensures LeftOver(mtu, msgs + [m], |msgs|, 0, psn) == Packets(m.w, m.data, mtu, psn)
  {
    LeftOverNext(mtu, msgs + [m], |msgs|, psn);
    assert (msgs + [m])[|msgs|..] == [m];
    StreamOfOne(Cutter(mtu), m, psn);
  }

  lemma {:induction false} LaterMore(mtu: pos, msgs: seq<Msg>, m: Msg, i: nat, rest: seq<Pkt>, psn: int)
    requires i < |msgs|
    ensures var left := WithLater(mtu, msgs, i, rest, psn);
      WithLater(mtu, msgs + [m], i, rest, psn) == left + Packets(m.w, m.data, mtu, psn + |left|)
  {
    var n, t := psn + |rest|, Stream(Cutter(mtu), msgs[i + 1..], psn + |rest|);
    assert (msgs + [m])[i + 1..] == msgs[i + 1..] + [m];
    StreamConcat(Cutter(mtu), msgs[i + 1..], [m], n);
    StreamOfOne(Cutter(mtu), m, n + |t|);
    Glue(rest, t, Packets(m.w, m.data, mtu, n + |t|), rest + t);
  }

  lemma {:induction false} PostData(c: Config, mem: Mem, msgs: seq<Msg>, recvs: seq<RecvWr>, p: Place, m: Msg)
    requires p.i <= |msgs| && (p.i == |msgs| ==> p.n == 0)
    ensures DataAt(c, mem, msgs + [m], recvs, p) == DataAt(c, mem, msgs, recvs, p)
  {
    SettledWithMore(c.env, mem, msgs, [m], recvs, p.i);
    if p.i == |msgs| {
      PartialZero(c.env, Settled(c.env, mem, msgs, recvs, p.i), m);
    }
  }

  lemma {:induction false} PostMoves(c: Config, mem: Mem, msgs: seq<Msg>, recvs: seq<RecvWr>, d: Data, left: seq<Pkt>,
          psn: int, p: Place, m: Msg, pkts: seq<Pkt>)
    requires At(c, mem, msgs, recvs, d, left, psn, p)
    requires LeftOver(c.mtu, msgs + [m], p.i, p.n, psn) == left + pkts
    ensures At(c, mem, msgs + [m], recvs, d, left + pkts, psn, p)
  {
    PostData(c, mem, msgs, recvs, p, m);
  }

  lemma {:induction false} RecvMoves(c: Config, mem: Mem, msgs: seq<Msg>, recvs: seq<RecvWr>, d: Data, left: seq<Pkt>,
          psn: int, p: Place, wr: RecvWr)
    requires At(c, mem, msgs, recvs, d, left, psn, p)
    ensures At(c, mem, msgs, recvs + [wr], d.(rq := d.rq + [wr]), left, psn, p)
  {
    SettledWithRecv(c.env, mem, msgs, recvs, wr, p.i);
    if p.i < |msgs| {
      PartialWithRecv(c.env, Settled(c.env, mem, msgs, recvs, p.i), msgs[p.i], p.n, wr);
    }
  }

  // ----- runs

  /** The requests and the receive requests of the runs considered, with local and failed
      requests anywhere between them.  A packet with an immediate that the receiver is
      waiting for finds a receive request: only then is one consumed. */
  predicate Suits(c: Config, s: Net, e: Event) {
    match e
    case PostSend(w, data) =>
      !Skippable(w) ==>
        && Arrivable(c.env, Msg(w, data))
        && (|s.msgs| < |s.recvs| ==> Fits(c.env, Msg(w, data), s.recvs[|s.msgs|]))
    case PostReceive(wr) => |s.recvs| < |s.msgs| ==> Fits(c.env, s.msgs[|s.recvs|], wr)
    case DeliverPacket(k) =>
      k < |s.req.wire| && Judge(s.rsp.rqPsn, s.req.wire[k].psn) == Expected && WithImm(s.req.wire[k].opcode) ==>
        s.rsp.data.rq != []
    case DeliverReply(_) => true
  }

  /** left is everything that was built and not taken yet; psn is the number of its first
      packet. */
  predicate AtPlace(c: Config, mem: Mem, s: Net, left: seq<Pkt>, psn: int, p: Place) {
    && psn == c.base + |s.taken| && c.mtu <= c.env.pageSize
    && AllFit(c.env, s.msgs, s.recvs) && At(c, mem, s.msgs, s.recvs, s.rsp.data, left, psn, p)
  }

  lemma {:induction false} AfterMoves(c: Config, mem: Mem, s: Net, r: Rsp, took: bool, pkt: Pkt, left: seq<Pkt>,
          psn: int, q: Place)
    requires c.mtu <= c.env.pageSize
    requires AllFit(c.env, s.msgs, s.recvs)
    requires At(c, mem, s.msgs, s.recvs, r.data, left, psn, q)
    requires psn == c.base + |s.taken| + if took then 1 else 0
    ensures AtPlace(c, mem, AfterPacket(s, r, took, pkt), left, psn, q)
  {
    assert |AfterPacket(s, r, took, pkt).taken| == |s.taken| + if took then 1 else 0;
  }

  /** The receiver's side of a packet's arrival. */
  lemma {:induction false} PacketReaction(c: Config, mem: Mem, msgs: seq<Msg>, recvs: seq<RecvWr>, r: Rsp,
          left: seq<Pkt>, psn: int, pkt: Pkt, p: Place)
    returns (left': seq<Pkt>, psn': int, q: Place)
    requires c.mtu <= c.env.pageSize
    requires AllFit(c.env, msgs, recvs) && At(c, mem, msgs, recvs, r.data, left, psn, p)
    requires Judge(r.rqPsn, pkt.psn) == Expected ==> left != [] && pkt == left[0]
    requires Judge(r.rqPsn, pkt.psn) == Expected && WithImm(pkt.opcode) ==> r.data.rq != []
    ensures At(c, mem, msgs, recvs, RecvRc(c.env, r, pkt).data, left', psn', q)
    ensures psn' == psn + if Takes(c.env, r, pkt) then 1 else 0
    ensures (if Takes(c.env, r, pkt) then [pkt] else []) + left' == left
  {
    left', psn', q := left, psn, p;
    if Judge(r.rqPsn, pkt.psn) == Expected {
      q := ExpectedMoves(c, mem, msgs, recvs, r, left, psn, p);
      if Takes(c.env, r, pkt) {
        left', psn' := left[1..], psn + 1;
        assert [pkt] + left' == left;
      }
    } else {
      assert !Takes(c.env, r, pkt) && RecvRc(c.env, r, pkt).data == r.data by { RecvIdle(c.env, r, pkt); }
    }
  }

  lemma {:induction false} NextOfRest<T>(b: seq<T>, taken: seq<T>, left: seq<T>)
    requires b == taken + left && |taken| < |b|
    ensures left != [] && left[0] == b[|taken|] && b == (taken + [left[0]]) + left[1..]
  {
  }

  lemma {:induction false} ExpectedIsLeft(c: Config, s: Net, b: seq<Pkt>, left: seq<Pkt>, k: nat)
    requires Consistent(c, s, b) && Shape(b, c.base) && b == s.taken + left && Enabled(c, s, DeliverPacket(k))
    ensures Judge(s.rsp.rqPsn, s.req.wire[k].psn) == Expected ==> left != [] && s.req.wire[k] == left[0]
  {
    ArrivesInOrder(c, s, b, k);
    if |s.taken| < |b| {
      NextOfRest(b, s.taken, left);
    }
  }

  lemma {:induction false} PacketMoves(c: Config, mem: Mem, s: Net, left: seq<Pkt>, psn: int, pkt: Pkt, p: Place)
    returns (left': seq<Pkt>, psn': int, q: Place)
    requires AtPlace(c, mem, s, left, psn, p)
    requires Judge(s.rsp.rqPsn, pkt.psn) == Expected ==> left != [] && pkt == left[0]
    requires Judge(s.rsp.rqPsn, pkt.psn) == Expected && WithImm(pkt.opcode) ==> s.rsp.data.rq != []
    ensures AtPlace(c, mem, ApplyPacket(c, s, pkt), left', psn', q)
    ensures ApplyPacket(c, s, pkt).taken + left' == s.taken + left
  {
    var r, took := RecvRc(c.env, s.rsp, pkt), Takes(c.env, s.rsp, pkt);
    left', psn', q := PacketReaction(c, mem, s.msgs, s.recvs, s.rsp, left, psn, pkt, p);
    AfterMoves(c, mem, s, r, took, pkt, left', psn', q);
    Assoc(s.taken, if took then [pkt] else [], left');
  }

  lemma {:induction false} PostPackets(c: Config, s: Net, left: seq<Pkt>, psn: int, w: SendWr, data: seq<byte>)
    requires Inv(c, s) && AllBuilt(c, s) == s.taken + left && psn == c.base + |s.taken|
    ensures Packets(w, data, c.mtu, s.req.reqPsn) == Packets(w, data, c.mtu, psn + |left|)
  {
    NextNumber(c.base, s.req, AllBuilt(c, s), s.retired);
    PacketsMod(w, data, c.mtu, psn + |left|, s.req.reqPsn);
  }

  lemma {:induction false} MoreLeft(c: Config, s: Net, left: seq<Pkt>, psn: int, w: SendWr, data: seq<byte>, p: Place)
    requires InMessage(s.msgs, s.recvs, p) && left == LeftOver(c.mtu, s.msgs, p.i, p.n, psn)
    requires AllFit(c.env, s.msgs, s.recvs) && Delivered(w)
    ensures LeftOver(c.mtu, s.msgs + [Msg(w, data)], p.i, p.n, psn) == left + Packets(w, data, c.mtu, psn + |left|)
  {
    assert p.i < |s.msgs| ==> Delivered(s.msgs[p.i].w);
    LeftOverMore(c.mtu, s.msgs, Msg(w, data), p.i, p.n, psn);
  }

  lemma {:induction false} FitMore(env: Env, msgs: seq<Msg>, recvs: seq<RecvWr>, m: Msg)
    requires AllFit(env, msgs, recvs) && Arrivable(env, m) && (|msgs| < |recvs| ==> Fits(env, m, recvs[|msgs|]))
    ensures AllFit(env, msgs + [m], recvs)
  {
  }

  lemma {:induction false} FitMoreRecv(env: Env, msgs: seq<Msg>, recvs: seq<RecvWr>, wr: RecvWr)
    requires AllFit(env, msgs, recvs) && (|recvs| < |msgs| ==> Fits(env, msgs[|recvs|], wr))
    ensures AllFit(env, msgs, recvs + [wr])
  {
  }

  lemma {:induction false} AfterPostMoves(c: Config, mem: Mem, s: Net, r: Req, left: seq<Pkt>, psn: int, w: SendWr,
          data: seq<byte>, pkts: seq<Pkt>, p: Place)
    requires AtPlace(c, mem, s, left, psn, p) && Suits(c, s, PostSend(w, data)) && !Skippable(w)
    requires LeftOver(c.mtu, s.msgs + [Msg(w, data)], p.i, p.n, psn) == left + pkts
    ensures AtPlace(c, mem, AfterPost(s, r, w, data), left + pkts, psn, p)
  {
    var m, t := Msg(w, data), AfterPost(s, r, w, data);
    assert t == Net(r, s.rsp, s.msgs + [m], s.retired, s.taken, t.sent, s.upTo, s.recvs);
    FitMore(c.env, s.msgs, s.recvs, m);
    PostMoves(c, mem, s.msgs, s.recvs, s.rsp.data, left, psn, p, m, pkts);
  }

  lemma {:induction false} PostEvent(c: Config, mem: Mem, s: Net, left: seq<Pkt>, psn: int, w: SendWr, data: seq<byte>,
          p: Place)
    returns (left': seq<Pkt>)
    requires Inv(c, s) && AllBuilt(c, s) == s.taken + left && AtPlace(c, mem, s, left, psn, p)
    requires Enabled(c, s, PostSend(w, data)) && Suits(c, s, PostSend(w, data))
    ensures var t := ApplyPost(c, s, w, data);
      AtPlace(c, mem, t, left', psn, p) && AllBuilt(c, t) == t.taken + left'
  {
    var pkts := Packets(w, data, c.mtu, s.req.reqPsn);
    var r := Post(s.req, w, pkts);
    left' := left + pkts;
    BuiltAfterPost(c, s, r, w, data, pkts);
    Assoc(s.taken, left, pkts);
    if Skippable(w) {
      SkipMoves(c, mem, s, r, left, psn, w, data, p);
    } else {
      PostPackets(c, s, left, psn, w, data);
      MoreLeft(c, s, left, psn, w, data, p);
      AfterPostMoves(c, mem, s, r, left, psn, w, data, pkts, p);
    }
  }

  /** A local or failed request sends nothing. */
  lemma {:induction false} SkipMoves(c: Config, mem: Mem, s: Net, r: Req, left: seq<Pkt>, psn: int, w: SendWr,
          data: seq<byte>, p: Place)
    requires AtPlace(c, mem, s, left, psn, p) && Skippable(w)
    ensures AtPlace(c, mem, AfterPost(s, r, w, data), left + [], psn, p)
  {
    assert s.msgs + [] == s.msgs && left + [] == left;
    assert AfterPost(s, r, w, data).msgs == s.msgs;
  }

  lemma {:induction false} RecvEvent(c: Config, mem: Mem, s: Net, left: seq<Pkt>, psn: int, wr: RecvWr, p: Place)
    requires AtPlace(c, mem, s, left, psn, p) && Suits(c, s, PostReceive(wr))
    ensures AtPlace(c, mem, s.(rsp := PostRecv(s.rsp, wr), recvs := s.recvs + [wr]), left, psn, p)
  {
    FitMoreRecv(c.env, s.msgs, s.recvs, wr);
    RecvMoves(c, mem, s.msgs, s.recvs, s.rsp.data, left, psn, p, wr);
  }
}
