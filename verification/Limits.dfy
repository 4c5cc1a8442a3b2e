/**
 Where the receiver does not do what a sender may ask for: plain RDMA WRITE and the
 requests that invalidate a key.
 */
module Limits {
  import opened Psn
  import opened Types
  import opened Scatter
  import opened Translate
  import opened Buffers
  import opened Requester
  import opened Segment
  import opened Responder
  import opened Delivery
  import G = Gather
  import P = Pages

  lemma {:induction false} FeedEndsUnserved(env: Env, d: Data, pkts: seq<Pkt>)
    requires pkts != [] && (pkts[|pkts| - 1].opcode.SendLastInv? || pkts[|pkts| - 1].opcode.SendOnlyInv?)
    ensures Feed(env, d, pkts) == None
    decreases |pkts|
  {
    if |pkts| > 1 {
      match Receive(env, d, pkts[0])
      case Took(next) =>
        assert pkts[1..][|pkts| - 2] == pkts[|pkts| - 1];
        FeedEndsUnserved(env, next, pkts[1..]);
      case _ =>
    }
  }

  /** A SEND that invalidates is never received as a whole, whatever its length and
      whatever the receiver has ready. */
  lemma {:induction false} InvalidateNeverArrives(env: Env, d: Data, m: Msg, mtu: nat, psn: int)
    requires !m.w.error && m.w.op.WrSendWithInv? && mtu > 0
    ensures Feed(env, d, Packets(m.w, m.data, mtu, psn)) == None
  {
    var pkts := Packets(m.w, m.data, mtu, psn);
    FragmentAt(m.w, m.data, |m.data|, mtu, psn, true, |pkts| - 1);
    FeedEndsUnserved(env, d, pkts);
  }

  predicate StartsWrite(pkt: Pkt) {
    match pkt.opcode
    case WriteFirst | WriteOnly => pkt.eth.Reth?
    case WriteOnlyImm => pkt.eth.RethImmdt?
    case _ => false
  }

  /** The first packet of a write meets a NAK exactly when the one before left a count of
      written bytes. */
  lemma {:induction false} NewWriteRefused(env: Env, d: Data, pkt: Pkt)
    requires StartsWrite(pkt)
    ensures Receive(env, d, pkt) == Refused(d, true) <==> WriteOpen(d)
  {
  }

  // ----- plain RDMA WRITE

  /** A plain WRITE whose remote buffer is ready. */
  predicate PlainWrite(env: Env, m: Msg) {
    && m.w.op.WrWrite? && !m.w.error && |m.data| < WORD
    && P.PageSizeOk(env.pageSize) && Ready(env.mrs, RemoteUse(env), Destination(m))
  }

  /** d after the first n bytes of the message. */
  function Written(env: Env, d: Data, m: Msg, n: nat): Data
    requires n <= |m.data| < WORD
  {
    d.(cur := InWrite(m.w.remoteAddr, m.w.rkey, |m.data|, n),
       mem := Write(d.mem, RemoteTarget(env, m)[..n], m.data[..n]))
  }

  lemma {:induction false} PlainDispatch(env: Env, d: Data, m: Msg, payload: seq<byte>, psn: int, first: bool,
          last: bool)
    requires m.w.op.WrWrite?
    ensures Receive(env, d, Fragment(m.w, payload, |m.data|, psn, first, last))
         == WritePayload(env, d, payload, if first then Some((m.w.remoteAddr, m.w.rkey, |m.data|)) else None,
                         None, !first)
  {
  }

  /** The bytes before the write, or after some of it. */
  predicate Reached(env: Env, b: Data, d: Data, m: Msg, n: nat) {
    n <= |m.data| < WORD && b == if n == 0 then d else Written(env, d, m, n)
  }

  lemma {:induction false} PlainStored(env: Env, b: Data, d: Data, m: Msg, n: nat, len: nat)
    requires Reached(env, b, d, m, n) && n + len <= |m.data|
    ensures Stored(b, InWrite(m.w.remoteAddr, m.w.rkey, |m.data|, n + len),
                   RemoteTarget(env, m)[n..n + len], m.data[n..n + len], None)
         == Took(Written(env, d, m, n + len))
  {
    var t := RemoteTarget(env, m);
    WriteMore(d.mem, t, m.data, n, len);
    assert Write(d.mem, t[..0], m.data[..0]) == d.mem;
  }

  lemma {:induction false} PlainStart(env: Env, b: Data, d: Data, m: Msg, n: nat, len: nat, psn: int, last: bool)
    requires m.w.op.WrWrite? && !WriteOpen(d) && Reached(env, b, d, m, n) && n + len <= |m.data|
    ensures Receive(env, b, Fragment(m.w, m.data[n..n + len], |m.data|, psn, n == 0, last))
         == StoreAt(env, b, InWrite(m.w.remoteAddr, m.w.rkey, |m.data|, n), m.data[n..n + len], None)
  {
    PlainDispatch(env, b, m, m.data[n..n + len], psn, n == 0, last);
  }

  /** The packet that carries len bytes from position n on; b is the data before it. */
  lemma {:induction false} PlainStep(env: Env, b: Data, d: Data, m: Msg, n: nat, len: nat, psn: int)
    requires PlainWrite(env, m) && !WriteOpen(d) && Reached(env, b, d, m, n)
    requires n + len <= |m.data| && (len > 0 || |m.data| == 0) && len <= env.pageSize
    ensures Receive(env, b, Piece(m, n, len, psn)) == Took(Written(env, d, m, n + len))
  {
    PlainStart(env, b, d, m, n, len, psn, n + len == |m.data|);
    PlainStores(env, b, d, m, InWrite(m.w.remoteAddr, m.w.rkey, |m.data|, n), n, len);
  }

  lemma {:induction false} PlainStores(env: Env, b: Data, d: Data, m: Msg, cur: Progress, n: nat, len: nat)
    requires PlainWrite(env, m) && Reached(env, b, d, m, n)
    requires n + len <= |m.data| && (len > 0 || |m.data| == 0) && len <= env.pageSize
    requires cur == InWrite(m.w.remoteAddr, m.w.rkey, |m.data|, n)
    ensures StoreAt(env, b, cur, m.data[n..n + len], None) == Took(Written(env, d, m, n + len))
  {
    PieceOfBuffer(env, Destination(m), n, len);
    PlainStored(env, b, d, m, n, len);
    StoreOne(env, b, cur, m.data[n..n + len], None, Took(Written(env, d, m, n + len)));
  }

  function AfterPlain(env: Env, d: Data, m: Msg): nat -> Data {
    (n: nat) => if n <= |m.data| < WORD then Written(env, d, m, n) else d
  }

  lemma {:induction false} PlainStepIs(env: Env, b: Data, d: Data, m: Msg, n: nat, len: nat, psn: int)
    requires PlainWrite(env, m) && !WriteOpen(d) && Reached(env, b, d, m, n)
    requires n + len <= |m.data| && (len > 0 || |m.data| == 0) && len <= env.pageSize
    ensures StepOf(env)(b, Piece(m, n, len, psn), AfterPlain(env, d, m)(n + len))
  {
    PlainStep(env, b, d, m, n, len, psn);
    assert AfterPlain(env, d, m)(n + len) == Written(env, d, m, n + len);
  }

  lemma {:induction false} PlainMoves(env: Env, d: Data, m: Msg, mtu: nat)
    requires PlainWrite(env, m) && !WriteOpen(d) && mtu <= env.pageSize
    ensures MovesOn(StepOf(env), AfterPlain(env, d, m), m, mtu)
  {
    var at := AfterPlain(env, d, m);
    forall k: nat, len: nat, psn: int | 0 < k && k + len <= |m.data| && 0 < len <= mtu
      ensures StepOf(env)(at(k), Piece(m, k, len, psn), at(k + len))
    {
      PlainStepIs(env, at(k), d, m, k, len, psn);
    }
  }

  lemma {:induction false} PlainFed(env: Env, d: Data, m: Msg, mtu: nat, psn: int)
    requires PlainWrite(env, m) && !WriteOpen(d) && 0 < mtu <= env.pageSize
    ensures Feed(env, d, Packets(m.w, m.data, mtu, psn)) == Some(Written(env, d, m, |m.data|))
  {
    PlainMoves(env, d, m, mtu);
    PlainStepIs(env, d, d, m, 0, Min(|m.data|, mtu), psn);
    FedInOrder(env, d, AfterPlain(env, d, m), m, mtu, psn);
    WholeIsPackets(m, mtu, psn);
  }

  lemma {:induction false} WholeIsWritten(env: Env, d: Data, m: Msg)
    requires |m.data| < WORD
    ensures Written(env, d, m, |m.data|)
         == d.(cur := InWrite(m.w.remoteAddr, m.w.rkey, |m.data|, |m.data|),
               mem := Write(d.mem, RemoteTarget(env, m), m.data))
  {
    var t := RemoteTarget(env, m);
    assert m.data[..|m.data|] == m.data && t[..|m.data|] == t;
  }

  /** A whole plain WRITE: its bytes arrive, no receive request is consumed, no completion
      is raised; and the cursor stays open. */
  lemma {:induction false} PlainWriteArrives(env: Env, d: Data, m: Msg, mtu: nat, psn: int)
    requires PlainWrite(env, m) && !WriteOpen(d) && 0 < mtu <= env.pageSize
    ensures Feed(env, d, Packets(m.w, m.data, mtu, psn))
         == Some(d.(cur := InWrite(m.w.remoteAddr, m.w.rkey, |m.data|, |m.data|),
                    mem := Write(d.mem, RemoteTarget(env, m), m.data)))
  {
    PlainFed(env, d, m, mtu, psn);
    WholeIsWritten(env, d, m);
  }

  /** What follows a plain WRITE, which leaves t.  The next write is refused with a NAK
      exactly if the message carried any bytes. */
  lemma {:induction false} WriteAfterPlainWrite(env: Env, d: Data, m: Msg, mtu: nat, psn: int, t: Data, next: Pkt)
    requires PlainWrite(env, m) && !WriteOpen(d) && 0 < mtu <= env.pageSize && StartsWrite(next)
    requires Feed(env, d, Packets(m.w, m.data, mtu, psn)) == Some(t)
    ensures Receive(env, t, next) == Refused(t, true) <==> |m.data| != 0
  {
    assert WriteOpen(t) <==> |m.data| != 0 by { PlainWriteArrives(env, d, m, mtu, psn); }
    NewWriteRefused(env, t, next);
  }

  predicate ContinuesWrite(op: Opcode) { op.WriteMiddle? || op.WriteLast? || op.WriteLastImm? }

  /** And for good: whatever arrives, unless it claims to continue the write, leaves the
      count as it is, and no write is taken. */
  lemma {:induction false} OpenStaysOpen(env: Env, r: Rsp, pkt: Pkt)
    requires WriteOpen(r.data) && !ContinuesWrite(pkt.opcode)
    ensures WriteOpen(RecvRc(env, r, pkt).data)
    ensures OfWrite(pkt.opcode) ==> RecvRc(env, r, pkt).rqPsn == r.rqPsn && RecvRc(env, r, pkt).data == r.data
  {
    if OfWrite(pkt.opcode) {
      assert Receive(env, r.data, pkt).Refused? && Receive(env, r.data, pkt).data == r.data;
    } else {
      SendKeepsOpen(env, r.data, pkt);
    }
  }

  lemma {:induction false} StoreKeepsOpen(env: Env, wr: RecvWr, d: Data, payload: seq<byte>, imm: Option<uint32>,
          complete: bool)
    requires G.CursorOk(wr.sges, wr.idx, wr.off) && |payload| <= |G.LocsFrom(wr.sges, wr.idx, wr.off)|
    requires WriteOpen(d)
    ensures var out := StoreIn(env, wr, d, payload, imm, complete);
      out.Took? || out.Refused? ==> WriteOpen(out.data)
  {
  }

  lemma {:induction false} PayloadKeepsOpen(env: Env, d: Data, payload: seq<byte>, imm: Option<uint32>, inProcess: bool,
          complete: bool)
    requires WriteOpen(d)
    ensures var out := RecvPayload(env, d, payload, imm, inProcess, complete);
      out.Took? || out.Refused? ==> WriteOpen(out.data)
  {
    var popped := PopRecvWr(d, inProcess);
    if popped.TheWr? {
      var wr := popped.wr;
      if G.LengthFits(wr.sges, wr.idx, wr.off) && |payload| <= |G.LocsFrom(wr.sges, wr.idx, wr.off)| {
        StoreKeepsOpen(env, wr, popped.data, payload, imm, complete);
      }
    }
  }

  lemma {:induction false} SendKeepsOpen(env: Env, d: Data, pkt: Pkt)
    requires WriteOpen(d) && !OfWrite(pkt.opcode)
    ensures var out := Receive(env, d, pkt); out.Took? || out.Refused? ==> WriteOpen(out.data)
  {
    var imm := ImmOf(pkt.eth);
    match pkt.opcode
    case SendFirst => PayloadKeepsOpen(env, d, pkt.payload, None, false, false);
    case SendMiddle => PayloadKeepsOpen(env, d, pkt.payload, None, true, false);
    case SendLast => PayloadKeepsOpen(env, d, pkt.payload, None, true, true);
    case SendOnly => PayloadKeepsOpen(env, d, pkt.payload, None, false, true);
    case SendLastImm => PayloadKeepsOpen(env, d, pkt.payload, imm, true, true);
    case SendOnlyImm => PayloadKeepsOpen(env, d, pkt.payload, imm, false, true);
    case _ =>
  }

  /** Two outcomes are the same but for the union. */
  predicate Alike(x: Outcome, y: Outcome) {
    match x
    case Took(d) => y.Took? && y.data.(cur := d.cur) == d
    case Refused(d, nak) => y.Refused? && y.nak == nak && y.data.(cur := d.cur) == d
    case Aborted => y.Aborted?
    case Overrun => y.Overrun?
  }

  lemma {:induction false} StoreAlike(env: Env, wr: RecvWr, x: Data, y: Data, payload: seq<byte>, imm: Option<uint32>,
          complete: bool)
    requires G.CursorOk(wr.sges, wr.idx, wr.off) && |payload| <= |G.LocsFrom(wr.sges, wr.idx, wr.off)|
    requires y.(cur := x.cur) == x
    ensures Alike(StoreIn(env, wr, x, payload, imm, complete), StoreIn(env, wr, y, payload, imm, complete))
  {
  }

  /** The next SEND does what it does to a receiver that is idle, exactly if the address was
      zero, which reads as no request; otherwise it is refused, and a packet that claims to
      continue one follows the address as a pointer. */
  lemma {:induction false} SendAfterPlainWrite(env: Env, t: Data, next: Pkt)
    requires t.cur.InWrite? && BeginsSend(next)
    ensures t.cur.iova != 0 ==> Receive(env, t, next) == Refused(t, false)
    ensures t.cur.iova == 0 ==> Alike(Receive(env, t, next), Receive(env, t.(cur := Idle), next))
  {
    var payload, whole := next.payload, !next.opcode.SendFirst?;
    var imm := if next.opcode.SendOnlyImm? then ImmOf(next.eth) else None;
    BeginDispatch(env, t, next);
    BeginDispatch(env, t.(cur := Idle), next);
    if t.cur.iova == 0 && t.rq != [] {
      var wr := t.rq[0];
      if G.LengthFits(wr.sges, wr.idx, wr.off) && |payload| <= |G.LocsFrom(wr.sges, wr.idx, wr.off)| {
        StoreAlike(env, wr, PopRecvWr(t, false).data, PopRecvWr(t.(cur := Idle), false).data, payload, imm, whole);
      }
    }
  }

  /** A write with an immediate, of one packet, that finds no receive request: the bytes are
      stored and counted before that is noticed.  Once a request is posted the same packet
      is taken if it carries no bytes, and otherwise answered by a NAK and not taken. */
  lemma {:induction false} RefusedImmediateCannotBeRetried(env: Env, r: Rsp, pkt: Pkt, wr: RecvWr)
    requires Judge(r.rqPsn, pkt.psn) == Expected && pkt.opcode.WriteOnlyImm? && pkt.eth.RethImmdt?
    requires !WriteOpen(r.data) && r.data.rq == [] && |pkt.payload| < WORD
    requires MapCheck(env, [Sge(pkt.eth.va, |pkt.payload|, pkt.eth.rkey)], RemoteUse(env)) == Good
    ensures RecvRc(env, r, pkt).rqPsn == r.rqPsn && RecvRc(env, r, pkt).replies == r.replies
    ensures var r1 := PostRecv(RecvRc(env, r, pkt), wr); var r2 := RecvRc(env, r1, pkt);
      if |pkt.payload| == 0 then r2.rqPsn == Inc(r.rqPsn) && r2.data.rq == []
      else r2 == r1.(replies := r1.replies + [Reply(true, Wrap(r.rqPsn))])
  {
    assert r.replies + [] == r.replies;
    var cur := InWrite(pkt.eth.va, pkt.eth.rkey, pkt.eth.dmalen, 0);
    assert NextSge(cur, |pkt.payload|) == Sge(pkt.eth.va, |pkt.payload|, pkt.eth.rkey);
  }
}
