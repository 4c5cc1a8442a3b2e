/**
 End-to-end integrity of one message: the packets built for a request, fed to
 the receive side in order, put exactly the sender's bytes where they belong.
 */
module Delivery {
  import opened Psn
  import opened Types
  import opened Scatter
  import opened Translate
  import opened Buffers
  import opened Requester
  import opened Segment
  import opened Responder
  import G = Gather
  import P = Pages

  /** A posted request and the bytes it sends. */
  datatype Msg = Msg(w: SendWr, data: seq<byte>)

  /** The kinds of request whose delivery is followed end to end: those that consume a
      receive request. */
  predicate Delivered(w: SendWr) {
    !w.error && (w.op.WrSend? || w.op.WrSendWithImm? || w.op.WrWriteWithImm?)
  }

  predicate Fresh(wr: RecvWr) {
    wr.sges != [] && wr.idx == 0 && wr.off == 0 && wr.byteLen == 0
  }

  function Destination(m: Msg): Sge
    requires |m.data| < WORD
  {
    Sge(m.w.remoteAddr, |m.data|, m.w.rkey)
  }

  /** The remote buffer of a write is usable; it needs no receive request until its last
      packet. */
  predicate RemoteReady(env: Env, m: Msg) {
    && m.w.op.WrWriteWithImm? && !m.w.error && |m.data| < WORD
    && P.PageSizeOk(env.pageSize) && Ready(env.mrs, RemoteUse(env), Destination(m))
  }

  function RemoteTarget(env: Env, m: Msg): (t: seq<nat>)
    requires |m.data| < WORD
    ensures |t| == |m.data|
  {
    Hosts(env.mrs, G.LocRange(m.w.rkey, m.w.remoteAddr, |m.data|))
  }

  /** The receive request is large enough and usable, or the remote buffer is. */
  predicate Fits(env: Env, m: Msg, wr: RecvWr) {
    && Delivered(m.w) && Fresh(wr) && |m.data| < WORD && P.PageSizeOk(env.pageSize)
    && if m.w.op.WrWriteWithImm? then Ready(env.mrs, RemoteUse(env), Destination(m))
       else AllReady(env.mrs, LocalUse(env), wr.sges) && |wr.sges| <= P.MAX_SGE && |m.data| <= SgeLen(wr.sges) < WORD
  }

  /** The host addresses that the message is written to, byte by byte. */
  function Target(env: Env, m: Msg, wr: RecvWr): (t: seq<nat>)
    requires Fits(env, m, wr)
    ensures |t| == |m.data|
  {
    if m.w.op.WrWriteWithImm? then RemoteTarget(env, m)
    else Hosts(env.mrs, G.Locs(wr.sges))[..|m.data|]
  }

  function RecvWcOf(m: Msg, wr: RecvWr): Wc {
    match m.w.op
    case WrWriteWithImm => Wc(wr.wrId, WcRecvRdmaWithImm, WcImm(m.w.imm), |m.data|)
    case WrSendWithImm => Wc(wr.wrId, WcRecv, WcImm(m.w.imm), |m.data|)
    case _ => Wc(wr.wrId, WcRecv, WcPlain, |m.data|)
  }

  /** No message is in progress, and the first receive request suits this one. */
  predicate CanArrive(env: Env, d: Data, m: Msg) {
    d.cur == Idle && d.rq != [] && Fits(env, m, d.rq[0])
  }

  /** The message can begin to arrive. */
  predicate CanBegin(env: Env, d: Data, m: Msg) {
    d.cur == Idle && if m.w.op.WrWriteWithImm? then RemoteReady(env, m) else CanArrive(env, d, m)
  }

  /** d with the whole message received into the first receive request. */
  function Done(env: Env, d: Data, m: Msg): Data {
    if !CanArrive(env, d, m) then d
    else
      var wr := d.rq[0];
      Data(Idle, d.rq[1..], Write(d.mem, Target(env, m, wr), m.data), d.cq + [RecvWcOf(m, wr)])
  }

  // ----- SEND

  lemma {:induction false} WholeList(sges: seq<Sge>)
    ensures sges[0..] == sges && G.LocsFrom(sges, 0, 0) == G.Locs(sges)
  {
  }

  /** The cursor after n bytes of a list, and the len bytes after it. */
  lemma {:induction false} CursorAfter(sges: seq<Sge>, n: nat, len: nat)
    requires sges != [] && n + len <= |G.LocsFrom(sges, 0, 0)| && (n == 0 || len > 0)
    ensures var a, b := G.Advance(sges, n, 0, 0), G.Advance(sges, n + len, 0, 0);
      && AtByte(sges, a.idx, a.off) && a.idx < |sges|
      && len <= |G.LocsFrom(sges, a.idx, a.off)| <= |G.LocsFrom(sges, 0, 0)|
      && var c := G.Advance(sges, len, a.idx, a.off);
      && c.idx == b.idx && c.off == b.off
      && G.Locs(c.sges) == G.LocsFrom(sges, 0, 0)[n..n + len]
  {
    var a, all := G.Advance(sges, n, 0, 0), G.LocsFrom(sges, 0, 0);
    G.AdvanceTakesPrefix(sges, n, 0, 0);
    PiecesAreParts(sges, n, 0, 0);
    G.AdvanceTwice(sges, n, len, 0, 0);
    G.AdvanceTakesPrefix(sges, len, a.idx, a.off);
    assert all[n..][..len] == all[n..n + len];
    EndIsEmpty(sges, a.idx, a.off);
  }

  lemma {:induction false} EndIsEmpty(sges: seq<Sge>, idx: nat, off: nat)
    requires G.CursorOk(sges, idx, off)
    ensures idx == |sges| ==> |G.LocsFrom(sges, idx, off)| == 0
  {
  }

  /** Buffers of a list that the receiver can use, as many as the device allows. */
  predicate ReadyToFill(env: Env, sges: seq<Sge>) {
    P.PageSizeOk(env.pageSize) && AllReady(env.mrs, LocalUse(env), sges) && |sges| <= P.MAX_SGE && SgeLen(sges) < WORD
  }

  lemma {:induction false} CursorMaps(env: Env, sges: seq<Sge>, n: nat, len: nat)
    requires ReadyToFill(env, sges)
    requires sges != [] && n + len <= |G.LocsFrom(sges, 0, 0)| && (n == 0 || len > 0) && len <= env.pageSize
    ensures var a := G.Advance(sges, n, 0, 0);
      && len <= |G.LocsFrom(sges, a.idx, a.off)|
      && MapCheck(env, G.Advance(sges, len, a.idx, a.off).sges, LocalUse(env)) == Good
  {
    CursorAfter(sges, n, len);
    var a := G.Advance(sges, n, 0, 0);
    var pieces := G.Advance(sges, len, a.idx, a.off).sges;
    PiecesReady(env.mrs, LocalUse(env), sges, len, a.idx, a.off);
    ReadyIsGood(env, pieces, LocalUse(env));
  }

  lemma {:induction false} WriteMore(mem: Mem, t: seq<nat>, data: seq<byte>, n: nat, len: nat)
    requires |t| == |data| && n + len <= |data|
    ensures Write(Write(mem, t[..n], data[..n]), t[n..n + len], data[n..n + len])
         == Write(mem, t[..n + len], data[..n + len])
  {
    WriteConcat(mem, t[..n], data[..n], t[n..n + len], data[n..n + len]);
    assert t[..n] + t[n..n + len] == t[..n + len] && data[..n] + data[n..n + len] == data[..n + len];
  }

  lemma {:induction false} HostSlice(env: Env, locs: seq<G.Loc>, n: nat, len: nat, total: nat)
    requires n + len <= total <= |locs|
    ensures Hosts(env.mrs, locs[n..n + len]) == Hosts(env.mrs, locs)[..total][n..n + len]
  {
  }

  /** The receive request after n bytes. */
  function Filling(wr: RecvWr, n: nat): RecvWr
    requires n <= |G.LocsFrom(wr.sges, 0, 0)|
  {
    var a := G.Advance(wr.sges, n, 0, 0);
    wr.(idx := a.idx, off := a.off, byteLen := n)
  }

  /** The request that a packet at position n of a message for the addresses t goes to,
      and the data that goes with it. */
  function AfterPop(d: Data, t: seq<nat>, data: seq<byte>, n: nat): (RecvWr, Data)
    requires d.rq != [] && n <= |G.LocsFrom(d.rq[0].sges, 0, 0)| && n <= |data| == |t|
  {
    var f := Filling(d.rq[0], n);
    (f, Data(InSend(f), d.rq[1..], Write(d.mem, t[..n], data[..n]), d.cq))
  }

  /** A fresh receive request with room for the message, whose first bytes lie at t. */
  predicate Room(env: Env, wr: RecvWr, t: seq<nat>) {
    && Fresh(wr) && ReadyToFill(env, wr.sges)
    && |t| <= |G.LocsFrom(wr.sges, 0, 0)|
    && t == Hosts(env.mrs, G.LocsFrom(wr.sges, 0, 0))[..|t|]
  }

  lemma {:induction false} RoomLength(env: Env, wr: RecvWr, t: seq<nat>)
    requires Room(env, wr, t)
    ensures |G.LocsFrom(wr.sges, 0, 0)| < WORD
  {
    WholeList(wr.sges);
  }

  /** The packet has been stored: the receive request completes or stays in progress. */
  function Filled(d: Data, wr: RecvWr, mem: Mem, imm: Option<uint32>, complete: bool): Outcome {
    Took(if complete
         then d.(mem := mem, cur := Idle, cq := d.cq + [Wc(wr.wrId, WcRecv, RecvFlags(imm), wr.byteLen)])
         else d.(mem := mem, cur := InSend(wr)))
  }

  /** The payload goes to the buffers c, which are good, and the cursor of wr past them. */
  predicate FillsTo(env: Env, wr: RecvWr, d1: Data, payload: seq<byte>, imm: Option<uint32>, complete: bool, c: G.Cut,
          out: Outcome)
  {
    && d1.cur.InSend?
    && G.LengthFits(wr.sges, wr.idx, wr.off) && |payload| <= |G.LocsFrom(wr.sges, wr.idx, wr.off)|
    && c == G.Advance(wr.sges, |payload|, wr.idx, wr.off) && |G.Locs(c.sges)| == |payload|
    && MapCheck(env, c.sges, LocalUse(env)) == Good
    && out == Filled(d1, wr.(idx := c.idx, off := c.off, byteLen := wr.byteLen + |payload|),
                     Write(d1.mem, Hosts(env.mrs, G.Locs(c.sges)), payload), imm, complete)
  }

  lemma {:induction false} FillOne(env: Env, d: Data, wr: RecvWr, d1: Data, payload: seq<byte>, imm: Option<uint32>,
          inProcess: bool, complete: bool, c: G.Cut, out: Outcome)
    requires PopRecvWr(d, inProcess) == TheWr(wr, d1) && FillsTo(env, wr, d1, payload, imm, complete, c, out)
    ensures RecvPayload(env, d, payload, imm, inProcess, complete) == out
  {
    FillIn(env, wr, d1, payload, imm, complete, c, out);
  }

  lemma {:induction false} FillIn(env: Env, wr: RecvWr, d1: Data, payload: seq<byte>, imm: Option<uint32>,
          complete: bool, c: G.Cut, out: Outcome)
    requires FillsTo(env, wr, d1, payload, imm, complete, c, out)
    ensures FillWr(env, wr, d1, payload, imm, complete) == out
  {
    FillGood(env, wr, d1, payload, imm, complete, c);
  }

  lemma {:induction false} FillingStep(wr: RecvWr, n: nat, len: nat)
    requires wr.sges != [] && n + len <= |G.LocsFrom(wr.sges, 0, 0)| < WORD && (n == 0 || len > 0)
    ensures var f := Filling(wr, n);
      && G.LengthFits(wr.sges, f.idx, f.off) && len <= |G.LocsFrom(wr.sges, f.idx, f.off)|
      && var c := G.Advance(wr.sges, len, f.idx, f.off);
      && f.(idx := c.idx, off := c.off, byteLen := n + len) == Filling(wr, n + len)
      && G.Locs(c.sges) == G.LocsFrom(wr.sges, 0, 0)[n..n + len]
  {
    CursorAfter(wr.sges, n, len);
  }

  /** What storing the bytes at position n of a message does to the memory. */
  lemma {:induction false} StoreMore(env: Env, wr: RecvWr, mem: Mem, t: seq<nat>, data: seq<byte>, n: nat, len: nat,
          c: G.Cut)
    requires |t| == |data| && n + len <= |data| && |t| <= |G.LocsFrom(wr.sges, 0, 0)|
    requires wr.sges != [] && t == Hosts(env.mrs, G.LocsFrom(wr.sges, 0, 0))[..|t|]
    requires G.Locs(c.sges) == G.LocsFrom(wr.sges, 0, 0)[n..n + len]
    ensures |G.Locs(c.sges)| == len
    ensures Write(Write(mem, t[..n], data[..n]), Hosts(env.mrs, G.Locs(c.sges)), data[n..n + len])
         == Write(mem, t[..n + len], data[..n + len])
  {
    HostSlice(env, G.LocsFrom(wr.sges, 0, 0), n, len, |data|);
    WriteMore(mem, t, data, n, len);
  }

  /** d with the first n bytes of the message received. */
  function Partial(env: Env, d: Data, m: Msg, n: nat): Data {
    if n == 0 || n > |m.data| || !CanBegin(env, d, m) then d
    else if m.w.op.WrWriteWithImm? then
      var t := RemoteTarget(env, m);
      d.(cur := InWrite(m.w.remoteAddr, m.w.rkey, |m.data|, n), mem := Write(d.mem, t[..n], m.data[..n]))
    else
      WholeList(d.rq[0].sges);
      AfterPop(d, Target(env, m, d.rq[0]), m.data, n).1
  }

  /** The packet that carries len bytes from position n on. */
  function Piece(m: Msg, n: nat, len: nat, psn: int): Pkt
    requires (IsSend(m.w.op) || IsWrite(m.w.op)) && n + len <= |m.data|
  {
    Fragment(m.w, m.data[n..n + len], |m.data|, psn, n == 0, n + len == |m.data|)
  }

  lemma {:induction false} PopPartial(env: Env, d: Data, m: Msg, n: nat)
    requires CanArrive(env, d, m)
    requires n <= |m.data| && !m.w.op.WrWriteWithImm?
    ensures Room(env, d.rq[0], Target(env, m, d.rq[0]))
    ensures var (f, d1) := AfterPop(d, Target(env, m, d.rq[0]), m.data, n);
      PopRecvWr(Partial(env, d, m, n), n > 0) == TheWr(f, d1)
  {
    WholeList(d.rq[0].sges);
    assert Write(d.mem, [], []) == d.mem;
  }

  /** Taking the next packet of a SEND. */
  lemma {:induction false} TakeSend(env: Env, d: Data, m: Msg, n: nat, len: nat, psn: int)
    requires CanArrive(env, d, m)
    requires n + len <= |m.data| && (len > 0 || |m.data| == 0) && len <= env.pageSize && !m.w.op.WrWriteWithImm?
    ensures Receive(env, Partial(env, d, m, n), Piece(m, n, len, psn))
         == Took(if n + len == |m.data| then Done(env, d, m) else Partial(env, d, m, n + len))
  {
    var last, t, p := n + len == |m.data|, Target(env, m, d.rq[0]), Partial(env, d, m, n);
    var imm := if last then ImmOf(Piece(m, n, len, psn).eth) else None;
    PopPartial(env, d, m, n);
    SendDispatch(env, p, m, n, len, psn);
    FilledState(env, d, m, n, len, imm);
    StorePayload(env, p, d, t, m.data, n, len, imm, last,
                 Took(if last then Done(env, d, m) else Partial(env, d, m, n + len)));
  }

  lemma {:induction false} StoreFacts(env: Env, d: Data, t: seq<nat>, data: seq<byte>, n: nat, len: nat,
          imm: Option<uint32>, complete: bool)
    returns (c: G.Cut)
    requires d.rq != [] && Room(env, d.rq[0], t) && |t| == |data|
    requires n + len <= |data| && (n == 0 || len > 0) && len <= env.pageSize
    ensures var (f, d1) := AfterPop(d, t, data, n);
      FillsTo(env, f, d1, data[n..n + len], imm, complete, c,
              Filled(d1, Filling(d.rq[0], n + len), Write(d.mem, t[..n + len], data[..n + len]), imm, complete))
  {
    var wr := d.rq[0];
    assert |G.LocsFrom(wr.sges, 0, 0)| < WORD by { RoomLength(env, wr, t); }
    FillingStep(wr, n, len);
    c := G.Advance(wr.sges, len, Filling(wr, n).idx, Filling(wr, n).off);
    assert MapCheck(env, c.sges, LocalUse(env)) == Good by { CursorMaps(env, wr.sges, n, len); }
    StoreMore(env, wr, d.mem, t, data, n, len, c);
    FillsToIs(env, Filling(wr, n), AfterPop(d, t, data, n).1, data[n..n + len], imm, complete, c, Filling(wr, n + len),
              Write(d.mem, t[..n + len], data[..n + len]));
  }

  lemma {:induction false} FillsToIs(env: Env, wr: RecvWr, d1: Data, payload: seq<byte>, imm: Option<uint32>,
          complete: bool, c: G.Cut, wr1: RecvWr, mem1: Mem)
    requires d1.cur.InSend? && MapCheck(env, c.sges, LocalUse(env)) == Good
    requires G.LengthFits(wr.sges, wr.idx, wr.off) && |payload| <= |G.LocsFrom(wr.sges, wr.idx, wr.off)|
    requires c == G.Advance(wr.sges, |payload|, wr.idx, wr.off) && |G.Locs(c.sges)| == |payload|
    requires wr1 == wr.(idx := c.idx, off := c.off, byteLen := wr.byteLen + |payload|)
    requires mem1 == Write(d1.mem, Hosts(env.mrs, G.Locs(c.sges)), payload)
    ensures FillsTo(env, wr, d1, payload, imm, complete, c, Filled(d1, wr1, mem1, imm, complete))
  {
  }

  lemma {:induction false} StorePayload(env: Env, p: Data, d: Data, t: seq<nat>, data: seq<byte>, n: nat, len: nat,
          imm: Option<uint32>, complete: bool, out: Outcome)
    requires d.rq != [] && Room(env, d.rq[0], t) && |t| == |data|
    requires n + len <= |data| && (n == 0 || len > 0) && len <= env.pageSize
    requires var (f, d1) := AfterPop(d, t, data, n);
      && PopRecvWr(p, n > 0) == TheWr(f, d1)
      && out == Filled(d1, Filling(d.rq[0], n + len), Write(d.mem, t[..n + len], data[..n + len]), imm, complete)
    ensures RecvPayload(env, p, data[n..n + len], imm, n > 0, complete) == out
  {
    var (f, d1) := AfterPop(d, t, data, n);
    var c := StoreFacts(env, d, t, data, n, len, imm, complete);
    FillOne(env, p, f, d1, data[n..n + len], imm, n > 0, complete, c, out);
  }

  lemma {:induction false} FilledState(env: Env, d: Data, m: Msg, n: nat, len: nat, imm: Option<uint32>)
    requires CanArrive(env, d, m) && !m.w.op.WrWriteWithImm?
    requires n + len <= |m.data| && (len > 0 || |m.data| == 0)
    requires n + len == |m.data| ==> imm == if m.w.op.WrSendWithImm? then Some(m.w.imm) else None
    ensures |m.data| <= |G.LocsFrom(d.rq[0].sges, 0, 0)|
    ensures var t, last := Target(env, m, d.rq[0]), n + len == |m.data|;
      Filled(AfterPop(d, t, m.data, n).1, Filling(d.rq[0], n + len), Write(d.mem, t[..n + len], m.data[..n + len]),
          imm, last)
      == Took(if last then Done(env, d, m) else Partial(env, d, m, n + len))
  {
    WholeList(d.rq[0].sges);
    if n + len == |m.data| {
      assert Target(env, m, d.rq[0])[..n + len] == Target(env, m, d.rq[0]) && m.data[..n + len] == m.data;
    }
  }

  lemma {:induction false} SendDispatch(env: Env, d: Data, m: Msg, n: nat, len: nat, psn: int)
    requires Delivered(m.w) && n + len <= |m.data| && !m.w.op.WrWriteWithImm?
    ensures var p, last := Piece(m, n, len, psn), n + len == |m.data|;
      Receive(env, d, p) == RecvPayload(env, d, m.data[n..n + len], if last then ImmOf(p.eth) else None, n > 0, last)
  {
    SendFragment(env, d, m.w, m.data[n..n + len], |m.data|, psn, n == 0, n + len == |m.data|);
  }

  lemma {:induction false} SendFragment(env: Env, d: Data, w: SendWr, payload: seq<byte>, total: nat, psn: int,
          first: bool, last: bool)
    requires Delivered(w) && !w.op.WrWriteWithImm?
    ensures var p := Fragment(w, payload, total, psn, first, last);
      Receive(env, d, p) == RecvPayload(env, d, payload, if last then ImmOf(p.eth) else None, !first, last)
  {
    match w.op
    case WrSend =>
    case WrSendWithImm =>
    case _ =>
  }

  // ----- RDMA WRITE with immediate

  /** Part of a remote buffer that is ready: it maps, and to the part of the hosts. */
  lemma {:induction false} PieceOfBuffer(env: Env, e: Sge, n: nat, len: nat)
    requires P.PageSizeOk(env.pageSize) && Ready(env.mrs, RemoteUse(env), e)
    requires n + len <= e.length && (len > 0 || e.length == 0) && len <= env.pageSize
    ensures var sge := Sge(e.addr + n, len, e.key);
      && MapCheck(env, [sge], RemoteUse(env)) == Good
      && Hosts(env.mrs, G.LocRange(e.key, e.addr + n, len))
          == Hosts(env.mrs, G.LocRange(e.key, e.addr, e.length))[n..n + len]
  {
    var sge := Sge(e.addr + n, len, e.key);
    PartReady(env.mrs, RemoteUse(env), sge, e);
    ReadyIsGood(env, [sge], RemoteUse(env));
  }

  lemma {:induction false} WriteDispatch(env: Env, d: Data, m: Msg, n: nat, len: nat, psn: int)
    requires Delivered(m.w) && n + len <= |m.data| && m.w.op.WrWriteWithImm?
    ensures Receive(env, d, Piece(m, n, len, psn))
         == WritePayload(env, d, m.data[n..n + len],
                         if n == 0 then Some((m.w.remoteAddr, m.w.rkey, |m.data|)) else None,
                         if n + len == |m.data| then Some(m.w.imm) else None, n > 0)
  {
  }

  /** The bytes of a packet have been stored at t: the write goes on, or completes with
      an immediate. */
  function Stored(d: Data, next: Progress, t: seq<nat>, bytes: seq<byte>, imm: Option<uint32>): Outcome
    requires next.InWrite? && |t| == |bytes|
  {
    WriteDone(d.(cur := next, mem := Write(d.mem, t, bytes)), imm)
  }

  lemma {:induction false} WriteGood(env: Env, sge: Sge, d: Data, cur: Progress, payload: seq<byte>,
          imm: Option<uint32>)
    requires cur.InWrite? && cur.written + |payload| < WORD && sge.length == |payload|
    ensures WriteTo(env, Good, sge, d, cur, payload, imm)
         == Stored(d, Wrote(cur, cur.written + |payload|), Hosts(env.mrs, G.LocRange(sge.key, sge.addr, sge.length)),
                   payload, imm)
  {
    assert payload[..|payload|] == payload && (cur.written + |payload|) % WORD == cur.written + |payload|;
  }

  lemma {:induction false} StoreOne(env: Env, d: Data, cur: Progress, payload: seq<byte>, imm: Option<uint32>,
          out: Outcome)
    requires cur.InWrite? && cur.written + |payload| < WORD
    requires MapCheck(env, [Sge(cur.iova + cur.written, |payload|, cur.rkey)], RemoteUse(env)) == Good
    requires out == Stored(d, Wrote(cur, cur.written + |payload|),
                           Hosts(env.mrs, G.LocRange(cur.rkey, cur.iova + cur.written, |payload|)), payload, imm)
    ensures StoreAt(env, d, cur, payload, imm) == out
  {
    var sge := Sge(cur.iova + cur.written, |payload|, cur.rkey);
    assert NextSge(cur, |payload|) == sge;
    WriteGood(env, sge, d, cur, payload, imm);
  }

  lemma {:induction false} StoredState(env: Env, d: Data, m: Msg, n: nat, len: nat)
    requires CanBegin(env, d, m) && m.w.op.WrWriteWithImm?
    requires n + len <= |m.data| && (len > 0 || |m.data| == 0) && (n + len == |m.data| ==> CanArrive(env, d, m))
    ensures var t, last := RemoteTarget(env, m), n + len == |m.data|;
      Stored(Partial(env, d, m, n), InWrite(m.w.remoteAddr, m.w.rkey, |m.data|, n + len), t[n..n + len],
             m.data[n..n + len], if last then Some(m.w.imm) else None)
      == Took(Next(env, d, m, n + len))
  {
    var t := RemoteTarget(env, m);
    WriteMore(d.mem, t, m.data, n, len);
    assert n == 0 ==> Write(d.mem, t[..0], m.data[..0]) == d.mem;
    assert t[..|t|] == t && m.data[..|m.data|] == m.data;
  }

  /** Taking the next packet of an RDMA WRITE with immediate. */
  lemma {:induction false} TakeWrite(env: Env, d: Data, m: Msg, n: nat, len: nat, psn: int)
    requires CanBegin(env, d, m) && m.w.op.WrWriteWithImm?
    requires n + len <= |m.data| && (len > 0 || |m.data| == 0) && len <= env.pageSize
    requires n + len == |m.data| ==> CanArrive(env, d, m)
    ensures Receive(env, Partial(env, d, m, n), Piece(m, n, len, psn)) == Took(Next(env, d, m, n + len))
  {
    var p, payload := Partial(env, d, m, n), m.data[n..n + len];
    var cur := InWrite(m.w.remoteAddr, m.w.rkey, |m.data|, n);
    var reth := if n == 0 then Some((m.w.remoteAddr, m.w.rkey, |m.data|)) else None;
    var imm := if n + len == |m.data| then Some(m.w.imm) else None;
    WriteDispatch(env, p, m, n, len, psn);
    assert StoreAt(env, p, cur, payload, imm) == Took(Next(env, d, m, n + len)) by {
      WriteStores(env, d, m, cur, n, len);
    }
    assert n > 0 ==> p.cur == cur;
  }

  lemma {:induction false} WriteStores(env: Env, d: Data, m: Msg, cur: Progress, n: nat, len: nat)
    requires CanBegin(env, d, m) && m.w.op.WrWriteWithImm?
    requires n + len <= |m.data| && (len > 0 || |m.data| == 0) && len <= env.pageSize
    requires n + len == |m.data| ==> CanArrive(env, d, m)
    requires cur == InWrite(m.w.remoteAddr, m.w.rkey, |m.data|, n)
    ensures var imm := if n + len == |m.data| then Some(m.w.imm) else None;
      StoreAt(env, Partial(env, d, m, n), cur, m.data[n..n + len], imm) == Took(Next(env, d, m, n + len))
  {
    var imm := if n + len == |m.data| then Some(m.w.imm) else None;
    PieceOfBuffer(env, Destination(m), n, len);
    StoredState(env, d, m, n, len);
    StoreOne(env, Partial(env, d, m, n), cur, m.data[n..n + len], imm, Took(Next(env, d, m, n + len)));
  }

  /** Taking the next packet of a message, whatever its kind: n bytes have been received
      and the packet carries the next len. */
  lemma {:induction false} TakeNext(env: Env, d: Data, m: Msg, n: nat, len: nat, psn: int)
    requires Delivered(m.w) && CanBegin(env, d, m)
    requires n + len <= |m.data| && (len > 0 || |m.data| == 0) && len <= env.pageSize
    requires n + len == |m.data| ==> CanArrive(env, d, m)
    ensures Receive(env, Partial(env, d, m, n), Piece(m, n, len, psn)) == Took(Next(env, d, m, n + len))
  {
    if m.w.op.WrWriteWithImm? {
      TakeWrite(env, d, m, n, len, psn);
    } else {
      TakeSend(env, d, m, n, len, psn);
    }
  }

  // ----- a whole message

  /** The packets of a message from position n on. */
  function Rest(m: Msg, n: nat, mtu: nat, psn: int): seq<Pkt>
    requires (IsSend(m.w.op) || IsWrite(m.w.op)) && mtu > 0 && n <= |m.data|
  {
    Fragments(m.w, m.data[n..], |m.data|, mtu, psn, n == 0)
  }

  /** The first of them, and the ones after it. */
  lemma {:induction false} RestSplits(m: Msg, n: nat, mtu: nat, psn: int)
    requires (IsSend(m.w.op) || IsWrite(m.w.op)) && mtu > 0 && n <= |m.data|
    ensures var len := Min(|m.data| - n, mtu);
      Rest(m, n, mtu, psn) ==
        [Piece(m, n, len, psn)] + if n + len == |m.data| then [] else Rest(m, n + len, mtu, psn + 1)
  {
    var len := Min(|m.data| - n, mtu);
    if n + len == |m.data| {
      assert m.data[n..n + len] == m.data[n..];
    } else {
      assert m.data[n..][..mtu] == m.data[n..n + len] && m.data[n..][mtu..] == m.data[n + len..];
    }
  }

  /** The packets fed to the receive side one after the other; none may be refused. */
  function Feed(env: Env, d: Data, pkts: seq<Pkt>): Option<Data>
    decreases |pkts|
  {
    if pkts == [] then Some(d)
    else match Receive(env, d, pkts[0])
      case Took(d') => Feed(env, d', pkts[1..])
      case _ => None
  }

  /** states are the data before, between and after the packets of a run of step. */
  predicate IsChain(step: (Data, Pkt, Data) -> bool, states: seq<Data>, pkts: seq<Pkt>)
    decreases |pkts|
  {
    && |states| == |pkts| + 1
    && (pkts != [] ==> step(states[0], pkts[0], states[1]) && IsChain(step, states[1..], pkts[1..]))
  }

  function Next(env: Env, d: Data, m: Msg, n: nat): Data {
    if n == |m.data| then Done(env, d, m) else Partial(env, d, m, n)
  }

  /** step allows what taking the next packet of this message does; of the last one if it
      can arrive as a whole. */
  ghost predicate Follows(step: (Data, Pkt, Data) -> bool, env: Env, d: Data, m: Msg, whole: bool) {
    && Delivered(m.w)
    && forall n: nat, len: nat, psn: int ::
         && n + len <= |m.data| && (len > 0 || |m.data| == 0) && len <= env.pageSize
         && (n + len == |m.data| ==> whole) ==>
         step(Partial(env, d, m, n), Piece(m, n, len, psn), Next(env, d, m, n + len))
  }

  lemma {:induction false} FollowsAt(step: (Data, Pkt, Data) -> bool, env: Env, d: Data, m: Msg, n: nat, len: nat,
          psn: int, whole: bool)
    requires Follows(step, env, d, m, whole)
    requires n + len <= |m.data| && (len > 0 || |m.data| == 0) && len <= env.pageSize && (n + len == |m.data| ==> whole)
    ensures step(Partial(env, d, m, n), Piece(m, n, len, psn), Next(env, d, m, n + len))
  {
  }

  /** at gives the data after any number of bytes but none. */
  ghost predicate MovesOn(step: (Data, Pkt, Data) -> bool, at: nat -> Data, m: Msg, mtu: nat) {
    && (IsSend(m.w.op) || IsWrite(m.w.op))
    && forall k: nat, len: nat, psn: int :: 0 < k && k + len <= |m.data| && 0 < len <= mtu ==>
         step(at(k), Piece(m, k, len, psn), at(k + len))
  }

  /** What the packets of a message do one by one, from position n on; before are the data
      there. */
  lemma {:induction false} RestChain(step: (Data, Pkt, Data) -> bool, before: Data, at: nat -> Data, m: Msg, n: nat,
          mtu: nat, psn: int)
    returns (states: seq<Data>)
    requires MovesOn(step, at, m, mtu) && mtu > 0 && (n < |m.data| || n == 0 == |m.data|)
    requires var len := Min(|m.data| - n, mtu); step(before, Piece(m, n, len, psn), at(n + len))
    ensures IsChain(step, states, Rest(m, n, mtu, psn))
    ensures states[0] == before && states[|states| - 1] == at(|m.data|)
    decreases |m.data| - n
  {
    var len := Min(|m.data| - n, mtu);
    RestSplits(m, n, mtu, psn);
    var tail, rest := [at(|m.data|)], [];
    if n + len < |m.data| {
      assert step(at(n + len), Piece(m, n + len, Min(|m.data| - n - len, mtu), psn + 1),
                  at(n + len + Min(|m.data| - n - len, mtu)));
      tail := RestChain(step, at(n + len), at, m, n + len, mtu, psn + 1);
      rest := Rest(m, n + len, mtu, psn + 1);
    }
    states := [before] + tail;
    ChainCons(step, before, Piece(m, n, len, psn), tail, rest);
  }

  lemma {:induction false} ChainCons(step: (Data, Pkt, Data) -> bool, a: Data, pkt: Pkt, tail: seq<Data>,
          rest: seq<Pkt>)
    requires IsChain(step, tail, rest) && step(a, pkt, tail[0])
    ensures IsChain(step, [a] + tail, [pkt] + rest)
    ensures ([a] + tail)[|[a] + tail| - 1] == tail[|tail| - 1]
  {
    assert ([a] + tail)[1..] == tail && ([pkt] + rest)[1..] == rest;
  }

  /** What step allows is what the receive side does. */
  ghost predicate Sound(env: Env, step: (Data, Pkt, Data) -> bool) {
    forall d, pkt, d' :: step(d, pkt, d') ==> Receive(env, d, pkt) == Took(d')
  }

  lemma {:induction false} FeedChain(env: Env, step: (Data, Pkt, Data) -> bool, states: seq<Data>, pkts: seq<Pkt>)
    requires Sound(env, step) && IsChain(step, states, pkts)
    ensures Feed(env, states[0], pkts) == Some(states[|pkts|])
    decreases |pkts|
  {
    if pkts != [] {
      FeedChain(env, step, states[1..], pkts[1..]);
    }
  }

  /** The receive side takes a packet. */
  function StepOf(env: Env): (Data, Pkt, Data) -> bool {
    (d: Data, pkt: Pkt, d': Data) => Receive(env, d, pkt) == Took(d')
  }

  lemma {:induction false} StepNext(env: Env, d: Data, m: Msg, n: nat, len: nat, psn: int)
    requires Delivered(m.w) && CanBegin(env, d, m)
    requires n + len <= |m.data| && (len > 0 || |m.data| == 0) && len <= env.pageSize
    requires n + len == |m.data| ==> CanArrive(env, d, m)
    ensures StepOf(env)(Partial(env, d, m, n), Piece(m, n, len, psn), Next(env, d, m, n + len))
  {
    TakeNext(env, d, m, n, len, psn);
  }

  lemma {:induction false} MessageFollows(env: Env, d: Data, m: Msg, whole: bool)
    requires Delivered(m.w) && CanBegin(env, d, m) && (whole ==> CanArrive(env, d, m))
    ensures Follows(StepOf(env), env, d, m, whole)
  {
    forall n: nat, len: nat, psn: int
      | n + len <= |m.data| && (len > 0 || |m.data| == 0) && len <= env.pageSize && (n + len == |m.data| ==> whole)
      ensures StepOf(env)(Partial(env, d, m, n), Piece(m, n, len, psn), Next(env, d, m, n + len))
    {
      StepNext(env, d, m, n, len, psn);
    }
  }

  function AfterBytes(env: Env, d: Data, m: Msg): nat -> Data {
    (n: nat) => Next(env, d, m, n)
  }

  lemma {:induction false} FollowsMoves(step: (Data, Pkt, Data) -> bool, env: Env, d: Data, m: Msg, mtu: nat)
    requires Follows(step, env, d, m, true) && mtu <= env.pageSize
    ensures MovesOn(step, AfterBytes(env, d, m), m, mtu)
  {
    var at := AfterBytes(env, d, m);
    forall k: nat, len: nat, psn: int | 0 < k && k + len <= |m.data| && 0 < len <= mtu
      ensures step(at(k), Piece(m, k, len, psn), at(k + len))
    {
      FollowsAt(step, env, d, m, k, len, psn, true);
    }
  }

  /** The data before, between and after the packets of a message. */
  lemma {:induction false} MessageStates(step: (Data, Pkt, Data) -> bool, env: Env, d: Data, m: Msg, mtu: nat, psn: int)
    returns (states: seq<Data>)
    requires Follows(step, env, d, m, true) && 0 < mtu <= env.pageSize
    ensures IsChain(step, states, Rest(m, 0, mtu, psn))
    ensures states[0] == d && states[|states| - 1] == Done(env, d, m)
  {
    FollowsMoves(step, env, d, m, mtu);
    FirstStep(step, env, d, m, mtu, psn);
    states := RestChain(step, d, AfterBytes(env, d, m), m, 0, mtu, psn);
  }

  lemma {:induction false} FirstStep(step: (Data, Pkt, Data) -> bool, env: Env, d: Data, m: Msg, mtu: nat, psn: int)
    requires Follows(step, env, d, m, true) && 0 < mtu <= env.pageSize
    ensures var len := Min(|m.data|, mtu); step(d, Piece(m, 0, len, psn), AfterBytes(env, d, m)(len))
  {
    FollowsAt(step, env, d, m, 0, Min(|m.data|, mtu), psn, true);
  }

  /** The packets of a message fed in order lead where the steps say. */
  lemma {:induction false} FedInOrder(env: Env, before: Data, at: nat -> Data, m: Msg, mtu: nat, psn: int)
    requires MovesOn(StepOf(env), at, m, mtu) && mtu > 0
    requires var len := Min(|m.data|, mtu); StepOf(env)(before, Piece(m, 0, len, psn), at(len))
    ensures Feed(env, before, Rest(m, 0, mtu, psn)) == Some(at(|m.data|))
  {
    var step := StepOf(env);
    var states := RestChain(step, before, at, m, 0, mtu, psn);
    assert Sound(env, step);
    ChainFeeds(env, step, states, Rest(m, 0, mtu, psn));
  }

  lemma {:induction false} ChainFeeds(env: Env, step: (Data, Pkt, Data) -> bool, states: seq<Data>, pkts: seq<Pkt>)
    requires Sound(env, step) && IsChain(step, states, pkts)
    ensures |states| > 0 && Feed(env, states[0], pkts) == Some(states[|states| - 1])
  {
    FeedChain(env, step, states, pkts);
  }

  lemma {:induction false} WholeIsPackets(m: Msg, mtu: nat, psn: int)
    requires (IsSend(m.w.op) || IsWrite(m.w.op)) && !m.w.error && mtu > 0
    ensures Rest(m, 0, mtu, psn) == Packets(m.w, m.data, mtu, psn)
  {
    assert m.data[0..] == m.data;
  }

  /** End-to-end integrity: the packets built for a message, fed in order, write the
      sender's bytes to the target addresses, consume one receive request, and raise one
      completion, with the length of the message. */
  lemma {:induction false} MessageArrives(env: Env, d: Data, m: Msg, mtu: nat, psn: int)
    requires CanArrive(env, d, m) && 0 < mtu <= env.pageSize
    ensures Feed(env, d, Packets(m.w, m.data, mtu, psn))
         == Some(Data(Idle, d.rq[1..], Write(d.mem, Target(env, m, d.rq[0]), m.data), d.cq + [RecvWcOf(m, d.rq[0])]))
  {
    MessageFollows(env, d, m, true);
    FollowsMoves(StepOf(env), env, d, m, mtu);
    FirstStep(StepOf(env), env, d, m, mtu, psn);
    FedInOrder(env, d, AfterBytes(env, d, m), m, mtu, psn);
    WholeIsPackets(m, mtu, psn);
  }
}
