/**
 The send side of a reliable connection: the queue of work requests, the
 packets that wait and the packets that are out, and what posting, an ACK and
 a NAK do to them.

 The functions say what each step does to the queues as a whole.  Class
 SendSide, in SendSide.dfy, walks the two packet lists the way the code does,
 comparing 24-bit numbers packet by packet, and is proved to compute them.
 */
module Requester {
  import opened Psn
  import opened Types

  const MAX_OUTGOING := 8

  /** queue is the list of outgoing packets followed by the list of pending ones, and
      out the length of the first.  wire and cq record what was handed to the network
      and to the completion queue. */
  datatype Req = Req(
    sq: seq<SendWr>,
    queue: seq<Pkt>,
    out: nat,
    sqPsn: uint32,
    reqPsn: uint32,
    wire: seq<Pkt>,
    cq: seq<Wc>)

  // ----- work requests

  predicate IsLocal(w: SendWr) {
    w.op.WrLocalInv? || w.op.WrRegMr? || w.op.WrBindMw?
  }

  predicate IsSend(op: WrOp) { op.WrSend? || op.WrSendWithImm? || op.WrSendWithInv? }

  predicate IsWrite(op: WrOp) { op.WrWrite? || op.WrWriteWithImm? }

  /** The operations for which no packet is built. */
  predicate Silent(w: SendWr) { !IsSend(w.op) && !IsWrite(w.op) }

  /** Requests that leave the head of the send queue without a packet. */
  predicate Skippable(w: SendWr) {
    IsLocal(w) || w.error
  }

  function StripHead(sq: seq<SendWr>): (r: seq<SendWr>)
    ensures |r| <= |sq|
  {
    if sq != [] && Skippable(sq[0]) then StripHead(sq[1..]) else sq
  }

  /** The requests of a queue that are answered by packets. */
  function Real(sq: seq<SendWr>): seq<SendWr> {
    if sq == [] then []
    else if Skippable(sq[0]) then Real(sq[1..])
    else [sq[0]] + Real(sq[1..])
  }

  /** The queue without its first m requests that are answered by packets, and without
      the others before and right after them. */
  function Drain(sq: seq<SendWr>, m: nat): seq<SendWr>
    decreases m
  {
    var t := StripHead(sq);
    if m == 0 || t == [] then t else Drain(t[1..], m - 1)
  }

  function Ptrs(sq: seq<SendWr>): seq<nat> {
    if sq == [] then [] else [sq[0].ptr] + Ptrs(sq[1..])
  }

  /** The requests named by the packets that finish one. */
  function Owners(q: seq<Pkt>): seq<nat> {
    if q == [] then []
    else if q[0].owner.Some? then [q[0].owner.value] + Owners(q[1..])
    else Owners(q[1..])
  }

  /** The table of completion codes. */
  function SendWc(w: SendWr): Wc {
    var (op, flags) :=
      match w.op
      case WrSend => (WcSend, WcPlain)
      case WrSendWithImm => (WcSend, WcWithImm)
      case WrSendWithInv => (WcSend, WcWithInvalidate)
      case WrWrite => (WcRdmaWrite, WcPlain)
      case WrWriteWithImm => (WcRdmaWrite, WcWithImm)
      case WrRead => (WcRdmaRead, WcPlain)
      case WrCmpAndSwp => (WcCompSwap, WcPlain)
      case WrFetchAndAdd => (WcFetchAdd, WcPlain)
      case WrAtomicWrite => (WcAtomicWrite, WcPlain)
      case WrFlush => (WcFlush, WcPlain)
      case WrLocalInv => (WcLocalInv, WcPlain)
      case WrRegMr => (WcRegMr, WcPlain)
      case WrBindMw => (WcBindMw, WcPlain);
    Wc(w.wrId, op, flags, SgeLen(w.sges))
  }

  /** sigAll is the queue-pair flag that signals every request. */
  function Completions(sigAll: bool, ws: seq<SendWr>): seq<Wc> {
    if ws == [] then []
    else (if sigAll || ws[0].signaled then [SendWc(ws[0])] else []) + Completions(sigAll, ws[1..])
  }

  // ----- the state invariant

  /** A queue of whole messages, numbered consecutively from n on.  Every packet that
      finishes a request asks for an acknowledgement, and so does every packet whose
      number is a multiple of eight; the last one finishes a request. */
  predicate Shape(q: seq<Pkt>, n: int) {
    q != [] ==>
      && q[0].psn == Wrap(n)
      && q[0].ack == (q[0].owner.Some? || q[0].psn % MAX_OUTGOING == 0)
      && (|q| == 1 ==> q[0].owner.Some?)
      && Shape(q[1..], n + 1)
  }

  predicate Numbers(s: Req) {
    && s.sqPsn == Wrap(s.sqPsn)
    && Shape(s.queue, s.sqPsn)
    && s.reqPsn == Wrap(s.sqPsn + |s.queue|)
    && |s.queue| < HALF_SPACE
  }

  predicate Agrees(s: Req) {
    && Ptrs(Real(s.sq)) == Owners(s.queue)
    && (s.sq != [] ==> !Skippable(s.sq[0]))
  }

  /** The window is as full as it can be: up to nine packets are out. */
  predicate Windowed(s: Req) {
    s.out == Min(|s.queue|, MAX_OUTGOING + 1)
  }

  /** Holds between any two handlers. */
  predicate ReqInv(s: Req) {
    Numbers(s) && Agrees(s) && Windowed(s)
  }

  /** What the code asserts of the last packet that is out whenever it refills the window:
      its number lies between the two counters, as plain numbers. */
  predicate PlainOrder(s: Req)
    requires s.out <= |s.queue|
  {
    s.out > 0 ==> s.sqPsn <= s.queue[s.out - 1].psn <= s.reqPsn
  }

  // ----- what the steps do

  /** Pending packets go out until the window is full. */
  function Slide(s: Req): Req
    requires s.out <= |s.queue|
  {
    var n := Min(|s.queue|, MAX_OUTGOING + 1);
    if n <= s.out then s else s.(out := n, wire := s.wire + s.queue[s.out..n])
  }

  /** The first k outgoing packets are acknowledged; the requests they finish, the
      first ones that have packets, complete. */
  function Retire(sigAll: bool, s: Req, k: nat): Req
    requires k <= s.out <= |s.queue|
  {
    var m := |Owners(s.queue[..k])|;
    s.(queue := s.queue[k..], out := s.out - k, sqPsn := Wrap(s.sqPsn + k),
       sq := Drain(s.sq, m), cq := s.cq + Completions(sigAll, Real(s.sq)[..Min(m, |Real(s.sq)|)]))
  }

  /** How many outgoing packets an acknowledgement numbered psn retires: none unless
      psn lies in [sq_psn, req.psn] modulo 2^24. */
  function Acked(s: Req, psn: psn24): (k: nat)
    ensures k <= s.out
  {
    var d := (psn - s.sqPsn) % PSN_SPACE;
    if d > |s.queue| then 0 else Min(d + 1, s.out)
  }

  function Ack(sigAll: bool, s: Req, psn: psn24): Req
    requires s.out <= |s.queue|
  {
    Retire(sigAll, s, Acked(s, psn))
  }

  /** A reply numbered psn has been handled but for the refill: a NAK acknowledges what is
      before it. */
  function Heard(sigAll: bool, s: Req, nak: bool, psn: psn24): Req
    requires s.out <= |s.queue|
  {
    Ack(sigAll, s, if nak then Wrap(psn - 1) else psn)
  }

  function AckAndRefill(sigAll: bool, s: Req, psn: psn24): Req
    requires s.out <= |s.queue|
  {
    Slide(Ack(sigAll, s, psn))
  }

  function Resend(s: Req): Req
    requires s.out <= |s.queue|
  {
    s.(wire := s.wire + s.queue[..s.out])
  }

  /** Everything before psn is retired, the rest of the window goes out again. */
  function Nak(sigAll: bool, s: Req, psn: psn24): Req
    requires s.out <= |s.queue|
  {
    Slide(Resend(Ack(sigAll, s, Wrap(psn - 1))))
  }

  /** A request and the packets built for it join the two queues. */
  function Enqueue(s: Req, w: SendWr, pkts: seq<Pkt>): Req {
    s.(sq := s.sq + [w], queue := s.queue + pkts, reqPsn := Wrap(s.reqPsn + |pkts|))
  }

  function Post(s: Req, w: SendWr, pkts: seq<Pkt>): Req
    requires s.out <= |s.queue|
  {
    var t := Slide(Enqueue(s, w, pkts));
    t.(sq := StripHead(t.sq))
  }

  // ----- packets in the queue

  lemma {:induction false} ShapeAt(q: seq<Pkt>, n: int, i: nat)
    requires Shape(q, n) && i < |q|
    ensures q[i].psn == Wrap(n + i)
    ensures q[i].ack == (q[i].owner.Some? || q[i].psn % MAX_OUTGOING == 0)
    ensures i == |q| - 1 ==> q[i].owner.Some?
  {
    if i > 0 {
      ShapeAt(q[1..], n + 1, i - 1);
    }
  }

  lemma {:induction false} ShapeMod(q: seq<Pkt>, n: int, m: int)
    requires Shape(q, n) && Wrap(n) == Wrap(m)
    ensures Shape(q, m)
  {
    if q != [] {
      WrapAdd(n, 1);
      WrapAdd(m, 1);
      ShapeMod(q[1..], n + 1, m + 1);
    }
  }

  lemma {:induction false} ShapeDrop(q: seq<Pkt>, n: int, k: nat)
    requires Shape(q, n) && k <= |q|
    ensures Shape(q[k..], n + k)
  {
    if k == 0 {
      assert q[0..] == q;
    } else {
      ShapeDrop(q[1..], n + 1, k - 1);
      assert q[1..][k - 1..] == q[k..];
    }
  }

  lemma {:induction false} ShapeConcat(q: seq<Pkt>, n: int, p: seq<Pkt>)
    requires Shape(q, n) && Shape(p, n + |q|)
    ensures Shape(q + p, n)
  {
    if q == [] {
      assert q + p == p;
    } else {
      assert (q + p)[0] == q[0] && (q + p)[1..] == q[1..] + p;
      ShapeConcat(q[1..], n + 1, p);
    }
  }

  lemma {:induction false} OwnersConcat(a: seq<Pkt>, b: seq<Pkt>)
    ensures Owners(a + b) == Owners(a) + Owners(b)
  {
    if a == [] {
      assert a + b == b;
    } else {
      assert (a + b)[0] == a[0] && (a + b)[1..] == a[1..] + b;
      OwnersConcat(a[1..], b);
    }
  }

  lemma {:induction false} OwnersSplit(q: seq<Pkt>, k: nat)
    requires k <= |q|
    ensures Owners(q) == Owners(q[..k]) + Owners(q[k..])
  {
    assert q == q[..k] + q[k..];
    OwnersConcat(q[..k], q[k..]);
  }

  /** The test that ends a refill: it is met by the ninth packet of the window. */
  lemma {:induction false} LimitTest(sqPsn: psn24, i: nat)
    requires i <= MAX_OUTGOING
    ensures Compare(sqPsn + MAX_OUTGOING, Wrap(sqPsn + i)) == 256 * (MAX_OUTGOING - i)
  {
    CompareIsSigned(sqPsn + MAX_OUTGOING, Wrap(sqPsn + i));
    assert (sqPsn + MAX_OUTGOING - Wrap(sqPsn + i)) % PSN_SPACE == MAX_OUTGOING - i;
  }

  /** The assertion on the last packet that is out holds exactly as long as none is or the
      counters have not wrapped apart. */
  lemma {:induction false} OrderUntilWrap(s: Req)
    requires Numbers(s) && s.out <= |s.queue|
    ensures PlainOrder(s) <==> s.out == 0 || s.sqPsn <= s.reqPsn
  {
    if s.out > 0 {
      ShapeAt(s.queue, s.sqPsn, s.out - 1);
      BetweenWrapped(s.sqPsn, |s.queue|, s.out - 1);
    }
  }

  lemma {:induction false} BetweenWrapped(n: nat, len: nat, i: nat)
    requires i < len < HALF_SPACE
    ensures Wrap(n) <= Wrap(n + i) <= Wrap(n + len) <==> Wrap(n) <= Wrap(n + len)
  {
  }

  // ----- requests in the queue

  lemma {:induction false} StripHeadReal(sq: seq<SendWr>)
    ensures Real(StripHead(sq)) == Real(sq)
    ensures StripHead(sq) != [] ==> !Skippable(StripHead(sq)[0])
  {
    if sq != [] && Skippable(sq[0]) {
      StripHeadReal(sq[1..]);
    }
  }

  lemma {:induction false} DrainReal(sq: seq<SendWr>, m: nat)
    requires m <= |Real(sq)|
    ensures Real(Drain(sq, m)) == Real(sq)[m..]
    ensures Drain(sq, m) != [] ==> !Skippable(Drain(sq, m)[0])
    decreases m
  {
    StripHeadReal(sq);
    var t := StripHead(sq);
    if m > 0 && t != [] {
      DrainReal(t[1..], m - 1);
      assert Real(sq)[1..] == Real(t[1..]);
      assert Real(sq)[1..][m - 1..] == Real(sq)[m..];
    }
  }

  lemma {:induction false} RealSnoc(sq: seq<SendWr>, w: SendWr)
    ensures Real(sq + [w]) == Real(sq) + if Skippable(w) then [] else [w]
  {
    if sq == [] {
      assert sq + [w] == [w] && [w][1..] == [];
    } else {
      assert (sq + [w])[0] == sq[0] && (sq + [w])[1..] == sq[1..] + [w];
      RealSnoc(sq[1..], w);
    }
  }

  lemma {:induction false} PtrsDrop(sq: seq<SendWr>, m: nat)
    requires m <= |sq|
    ensures |Ptrs(sq)| == |sq|
    ensures Ptrs(sq[m..]) == Ptrs(sq)[m..]
    ensures Ptrs(sq[..m]) == Ptrs(sq)[..m]
  {
    if sq != [] {
      PtrsDrop(sq[1..], if m == 0 then 0 else m - 1);
      if m == 0 {
        assert sq[0..] == sq;
      } else {
        assert sq[1..][m - 1..] == sq[m..] && sq[..m][1..] == sq[1..][..m - 1];
        assert sq[..m][0] == sq[0];
      }
    }
  }

  lemma {:induction false} PtrsSnoc(sq: seq<SendWr>, w: SendWr)
    ensures Ptrs(sq + [w]) == Ptrs(sq) + [w.ptr]
  {
    if sq == [] {
      assert sq + [w] == [w] && [w][1..] == [];
    } else {
      assert (sq + [w])[0] == sq[0] && (sq + [w])[1..] == sq[1..] + [w];
      PtrsSnoc(sq[1..], w);
    }
  }

  lemma {:induction false} RealConcat(a: seq<SendWr>, z: seq<SendWr>)
    ensures Real(a + z) == Real(a) + Real(z)
  {
    if a == [] {
      assert a + z == z;
    } else {
      assert (a + z)[0] == a[0] && (a + z)[1..] == a[1..] + z;
      RealConcat(a[1..], z);
    }
  }

  lemma {:induction false} StripAt(sq: seq<SendWr>) returns (k: nat)
    ensures k <= |sq| && StripHead(sq) == sq[k..] && Real(sq[..k]) == []
    ensures k < |sq| ==> !Skippable(sq[k])
  {
    k := 0;
    if sq != [] && Skippable(sq[0]) {
      k := StripAt(sq[1..]);
      assert sq[1..][k..] == sq[k + 1..] && sq[..k + 1][1..] == sq[1..][..k] && sq[..k + 1][0] == sq[0];
      k := k + 1;
    }
  }

  /** Draining m requests takes off the front of the queue just those and the others before
      and right after them, and leaves everything else where it is. */
  lemma {:induction false} DrainAt(sq: seq<SendWr>, m: nat) returns (k: nat)
    requires m <= |Real(sq)|
    ensures k <= |sq| && Drain(sq, m) == sq[k..] && |Real(sq[..k])| == m
    ensures k < |sq| ==> !Skippable(sq[k])
    decreases m
  {
    var a := StripAt(sq);
    k := a;
    StripHeadReal(sq);
    if m > 0 {
      var t := sq[a..];
      assert t != [] && Real(t) == [t[0]] + Real(t[1..]);
      var b := DrainAt(t[1..], m - 1);
      k := a + 1 + b;
      assert t[1..][b..] == sq[k..];
      assert sq[..k] == sq[..a] + ([t[0]] + t[1..][..b]);
      RealConcat(sq[..a], [t[0]] + t[1..][..b]);
      assert ([t[0]] + t[1..][..b])[1..] == t[1..][..b];
    }
  }

  /** Posting, field by field: the request goes to the end of the queue, from whose head then
      what is done by itself is taken; its packets to the end of theirs, and as many packets
      go out as the window holds. */
  lemma {:induction false} PostAt(s: Req, w: SendWr, pkts: seq<Pkt>) returns (k: nat)
    requires s.out <= |s.queue| && s.out <= MAX_OUTGOING + 1
    ensures k <= |s.sq| + 1 && Real((s.sq + [w])[..k]) == []
    ensures var t := Post(s, w, pkts);
      && t.sq == (s.sq + [w])[k..] && (t.sq != [] ==> !Skippable(t.sq[0]))
      && t.queue == s.queue + pkts && t.out == Min(|t.queue|, MAX_OUTGOING + 1)
      && t.wire == s.wire + t.queue[s.out..t.out]
      && t.sqPsn == s.sqPsn && t.reqPsn == Wrap(s.reqPsn + |pkts|) && t.cq == s.cq
  {
    k := StripAt(s.sq + [w]);
    assert s.wire + [] == s.wire;
  }

  // ----- every step keeps the invariant

  /** The requests that complete with the first k packets are the ones those packets
      name, in posting order; the others are the ones the remaining packets name. */
  lemma {:induction false} RetireAgrees(sigAll: bool, s: Req, k: nat)
    requires k <= s.out <= |s.queue| && Agrees(s)
    ensures var r, m, ws := Retire(sigAll, s, k), |Owners(s.queue[..k])|, Real(s.sq);
      && m <= |ws|
      && Ptrs(ws[..m]) == Owners(s.queue[..k])
      && Real(r.sq) == ws[m..]
      && r.cq == s.cq + Completions(sigAll, ws[..m])
      && Agrees(r)
  {
    var m, ws := |Owners(s.queue[..k])|, Real(s.sq);
    OwnersSplit(s.queue, k);
    PtrsDrop(ws, 0);
    PtrsDrop(ws, m);
    DrainReal(s.sq, m);
  }

  lemma {:induction false} RetireNumbers(sigAll: bool, s: Req, k: nat)
    requires k <= s.out <= |s.queue| && Numbers(s)
    ensures Numbers(Retire(sigAll, s, k))
  {
    var n := s.sqPsn + k;
    WrapAdd(n, 0);
    WrapAdd(n, |s.queue| - k);
    ShapeDrop(s.queue, s.sqPsn, k);
    ShapeMod(s.queue[k..], n, Wrap(n));
  }

  lemma {:induction false} AckKeeps(sigAll: bool, s: Req, psn: psn24)
    requires ReqInv(s)
    ensures ReqInv(AckAndRefill(sigAll, s, psn))
  {
    RetireAgrees(sigAll, s, Acked(s, psn));
    RetireNumbers(sigAll, s, Acked(s, psn));
  }

  lemma {:induction false} NakKeeps(sigAll: bool, s: Req, psn: psn24)
    requires ReqInv(s)
    ensures ReqInv(Nak(sigAll, s, psn))
  {
    RetireAgrees(sigAll, s, Acked(s, Wrap(psn - 1)));
    RetireNumbers(sigAll, s, Acked(s, Wrap(psn - 1)));
  }

  lemma {:induction false} AckedBefore(s: Req, k: nat)
    requires k <= s.out <= |s.queue| < HALF_SPACE && s.sqPsn == Wrap(s.sqPsn)
    ensures Acked(s, Wrap(Wrap(s.sqPsn + k) - 1)) == k
  {
    var n := s.sqPsn + k;
    assert Wrap(Wrap(n) - 1) == Wrap(n - 1) by { WrapAdd(n, -1); }
    assert (Wrap(n - 1) - s.sqPsn) % PSN_SPACE == (k - 1) % PSN_SPACE by { WrapDifference(n - 1, s.sqPsn); }
  }

  /** Go-back-N: a NAK for the k-th outgoing packet, or for the one after the last,
      retires exactly the packets before it, and with them the requests they finish;
      the whole new window goes on the wire in order, the rest of the old one first. */
  lemma {:induction false} NakGoesBack(sigAll: bool, s: Req, k: nat)
    requires ReqInv(s) && k <= s.out
    ensures var r, m, ws := Nak(sigAll, s, Wrap(s.sqPsn + k)), |Owners(s.queue[..k])|, Real(s.sq);
      && r.sqPsn == Wrap(s.sqPsn + k)
      && r.queue == s.queue[k..] && r.out == Min(|r.queue|, MAX_OUTGOING + 1)
      && r.wire == s.wire + r.queue[..r.out]
      && m <= |ws| && Ptrs(ws[..m]) == Owners(s.queue[..k])
      && r.cq == s.cq + Completions(sigAll, ws[..m])
      && Real(r.sq) == ws[m..]
  {
    assert Nak(sigAll, s, Wrap(s.sqPsn + k)) == Slide(Resend(Retire(sigAll, s, k))) by { AckedBefore(s, k); }
    RetireAgrees(sigAll, s, k);
    ResendWire(Retire(sigAll, s, k));
  }

  lemma {:induction false} ResendWire(s: Req)
    requires s.out <= |s.queue| && s.out <= MAX_OUTGOING + 1
    ensures var r := Slide(Resend(s));
      && r.queue == s.queue && r.out == Min(|s.queue|, MAX_OUTGOING + 1)
      && r.wire == s.wire + s.queue[..r.out]
  {
    var n := Min(|s.queue|, MAX_OUTGOING + 1);
    assert (s.wire + s.queue[..s.out]) + s.queue[s.out..n] == s.wire + s.queue[..n];
  }

  // ----- posting

  /** What the packets built for a request must look like for the queues to stay in step. */
  predicate Built(w: SendWr, pkts: seq<Pkt>, psn: int) {
    && Shape(pkts, psn)
    && Owners(pkts) == (if Skippable(w) then [] else [w.ptr])
  }

  lemma {:induction false} EnqueueNumbers(s: Req, w: SendWr, pkts: seq<Pkt>)
    requires Numbers(s) && Shape(pkts, s.reqPsn)
    requires |s.queue| + |pkts| < HALF_SPACE
    ensures Numbers(Enqueue(s, w, pkts))
  {
    ShapeMod(pkts, s.reqPsn, s.sqPsn + |s.queue|);
    ShapeConcat(s.queue, s.sqPsn, pkts);
    WrapAdd(s.sqPsn + |s.queue|, |pkts|);
  }

  lemma {:induction false} EnqueueReal(s: Req, w: SendWr, pkts: seq<Pkt>)
    ensures Owners(s.queue + pkts) == Owners(s.queue) + Owners(pkts)
    ensures Real(s.sq + [w]) == Real(s.sq) + if Skippable(w) then [] else [w]
    ensures Ptrs(Real(s.sq + [w])) == Ptrs(Real(s.sq)) + if Skippable(w) then [] else [w.ptr]
    ensures Real(Post(s, w, pkts).sq) == Real(s.sq + [w])
    ensures Post(s, w, pkts).sq != [] ==> !Skippable(Post(s, w, pkts).sq[0])
    requires s.out <= |s.queue|
  {
    OwnersConcat(s.queue, pkts);
    RealSnoc(s.sq, w);
    PtrsSnoc(Real(s.sq), w);
    StripHeadReal(s.sq + [w]);
    if Skippable(w) {
      assert Real(s.sq) + [] == Real(s.sq);
    }
  }

  lemma {:induction false} PostKeeps(s: Req, w: SendWr, pkts: seq<Pkt>)
    requires ReqInv(s) && Built(w, pkts, s.reqPsn)
    requires |s.queue| + |pkts| < HALF_SPACE
    ensures ReqInv(Post(s, w, pkts))
    ensures Real(Post(s, w, pkts).sq) == Real(s.sq) + if Skippable(w) then [] else [w]
  {
    EnqueueNumbers(s, w, pkts);
    assert Agrees(Post(s, w, pkts)) && Real(Post(s, w, pkts).sq) == Real(s.sq) + (if Skippable(w) then [] else [w]) by {
      EnqueueReal(s, w, pkts);
    }
  }

  /** A request that builds no packet although it is neither local nor failed (a read,
      an atomic) leaves the queues out of step, and only such a request does. */
  lemma {:induction false} SilentPostBreaksAgreement(s: Req, w: SendWr, pkts: seq<Pkt>)
    requires Agrees(s) && s.out <= |s.queue|
    requires Owners(pkts) == (if Skippable(w) || Silent(w) then [] else [w.ptr])
    ensures Agrees(Post(s, w, pkts)) <==> Skippable(w) || !Silent(w)
  {
    EnqueueReal(s, w, pkts);
  }

  /** rd, a request without packets, waits behind the requests a, and the requests b behind
      it; the queued packets finish those of a and then those of b. */
  predicate Behind(s: Req, rd: SendWr, a: seq<SendWr>, b: seq<SendWr>) {
    Real(s.sq) == a + [rd] + b && Owners(s.queue) == Ptrs(a) + Ptrs(b)
  }

  lemma {:induction false} BehindDisagrees(s: Req, rd: SendWr, a: seq<SendWr>, b: seq<SendWr>)
    requires Behind(s, rd, a, b)
    ensures !Agrees(s)
  {
    PtrsDrop(a, 0);
    PtrsDrop(b, 0);
    PtrsDrop(Real(s.sq), 0);
  }

  /** Posting a read or an atomic puts it there. */
  lemma {:induction false} SilentPostIsBehind(s: Req, rd: SendWr)
    requires Agrees(s) && s.out <= |s.queue| && Silent(rd) && !Skippable(rd)
    ensures Behind(Post(s, rd, []), rd, Real(s.sq), [])
  {
    EnqueueReal(s, rd, []);
  }

  /** Requests posted later queue up behind it. */
  lemma {:induction false} BehindPost(s: Req, rd: SendWr, a: seq<SendWr>, b: seq<SendWr>, w: SendWr, pkts: seq<Pkt>)
    requires Behind(s, rd, a, b) && s.out <= |s.queue|
    requires Owners(pkts) == if Skippable(w) then [] else [w.ptr]
    ensures Behind(Post(s, w, pkts), rd, a, b + if Skippable(w) then [] else [w])
  {
    EnqueueReal(s, w, pkts);
    Appended(a, rd, b, w);
    if Skippable(w) {
      assert b + [] == b && Real(s.sq) + [] == Real(s.sq) && Owners(s.queue) + [] == Owners(s.queue);
    }
  }

  lemma {:induction false} Appended(a: seq<SendWr>, rd: SendWr, b: seq<SendWr>, w: SendWr)
    ensures (a + [rd] + b) + [w] == a + [rd] + (b + [w])
    ensures (Ptrs(a) + Ptrs(b)) + [w.ptr] == Ptrs(a) + Ptrs(b + [w])
  {
    PtrsSnoc(b, w);
  }

  lemma {:induction false} CutBefore<T>(a: seq<T>, x: T, b: seq<T>, m: nat)
    requires m <= |a|
    ensures (a + [x] + b)[..m] == a[..m] && (a + [x] + b)[m..] == a[m..] + [x] + b
  {
  }

  lemma {:induction false} CutBehind<T>(a: seq<T>, x: T, b: seq<T>, j: nat)
    requires 0 < j <= |b|
    ensures (a + [x] + b)[..|a| + j] == a + ([x] + b)[..j]
    ensures (a + [x] + b)[|a| + j..] == [] + [b[j - 1]] + b[j..]
  {
    assert a + [x] + b == a + ([x] + b);
    assert ([x] + b)[j..] == b[j - 1..] == [b[j - 1]] + b[j..];
  }

  lemma {:induction false} BehindCount(s: Req, rd: SendWr, a: seq<SendWr>, b: seq<SendWr>, k: nat)
    requires Behind(s, rd, a, b) && k <= |s.queue|
    ensures |Ptrs(a)| == |a| && |Ptrs(b)| == |b| && |Owners(s.queue[..k])| <= |a| + |b|
    ensures Owners(s.queue[k..]) == (Ptrs(a) + Ptrs(b))[|Owners(s.queue[..k])|..]
  {
    OwnersSplit(s.queue, k);
    PtrsDrop(a, 0);
    PtrsDrop(b, 0);
  }

  /** What acknowledged packets do then.  The requests a complete as they should. */
  lemma {:induction false} BehindRetire(sigAll: bool, s: Req, rd: SendWr, a: seq<SendWr>, b: seq<SendWr>, k: nat)
    requires Behind(s, rd, a, b) && k <= s.out <= |s.queue| && |Owners(s.queue[..k])| <= |a|
    ensures var r, m := Retire(sigAll, s, k), |Owners(s.queue[..k])|;
      r.cq == s.cq + Completions(sigAll, a[..m]) && Behind(r, rd, a[m..], b)
  {
    var m := |Owners(s.queue[..k])|;
    BehindCount(s, rd, a, b, k);
    CutBefore(a, rd, b, m);
    DrainReal(s.sq, m);
    PtrsDrop(a, m);
  }

  /** But the packet that finishes the first request of b completes rd, for which nothing
      was sent, and from then on each packet completes the request before the one that it
      names. */
  lemma {:induction false} BehindRetireMore(sigAll: bool, s: Req, rd: SendWr, a: seq<SendWr>, b: seq<SendWr>, k: nat)
    requires Behind(s, rd, a, b) && k <= s.out <= |s.queue| && |Owners(s.queue[..k])| > |a|
    ensures var r, j := Retire(sigAll, s, k), |Owners(s.queue[..k])| - |a|;
      && j <= |b|
      && r.cq == s.cq + Completions(sigAll, a + ([rd] + b)[..j])
      && Behind(r, b[j - 1], [], b[j..])
  {
    var j := |Owners(s.queue[..k])| - |a|;
    BehindCount(s, rd, a, b, k);
    CutBehind(a, rd, b, j);
    DrainReal(s.sq, |a| + j);
    PtrsDrop(b, j);
    assert (Ptrs(a) + Ptrs(b))[|a| + j..] == Ptrs(b)[j..];
  }
}
