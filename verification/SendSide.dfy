/**
 The send side as the code runs it: two packet lists, 24-bit counters, and
 loops that look at one packet at a time.
 */
module SendSide {
  import opened Psn
  import opened Types
  import opened Scatter
  import opened Translate
  import opened Requester
  import opened Segment
  import opened Buffers
  import G = Gather
  import P = Pages

  const EBUSY := 16

  /** The bytes of a list of guest buffers. */
  function Message(mem: Mem, mrs: MrTable, sges: seq<Sge>): (r: seq<byte>)
    ensures |r| == SgeLen(sges)
  {
    Read(mem, Hosts(mrs, G.Locs(sges)))
  }

  // ----- what the comparisons decide

  lemma {:induction false} LimitAt(q: seq<Pkt>, sqPsn: psn24, n: nat)
    requires Shape(q, sqPsn) && n < |q| && n <= MAX_OUTGOING
    ensures Compare(sqPsn + MAX_OUTGOING, q[n].psn) == 256 * (MAX_OUTGOING - n)
  {
    ShapeAt(q, sqPsn, n);
    LimitTest(sqPsn, n);
  }

  /** The two tests that discard an acknowledgement keep exactly those whose number
      lies in [sq_psn, req.psn]. */
  lemma {:induction false} AcceptTest(sqPsn: psn24, n: nat, psn: psn24)
    requires n < HALF_SPACE
    ensures Compare(sqPsn, psn) > 0 || Compare(Wrap(sqPsn + n), psn) < 0 <==> (psn - sqPsn) % PSN_SPACE > n
  {
    var d := (psn - sqPsn) % PSN_SPACE;
    assert psn == Wrap(sqPsn + d) && sqPsn == Wrap(sqPsn + 0);
    CompareAt(sqPsn, 0, d);
    CompareAt(sqPsn, n, d);
    OutsideRange(n, d);
  }

  lemma {:induction false} OutsideRange(n: nat, d: int)
    requires n < HALF_SPACE && 0 <= d < PSN_SPACE
    ensures Signed24(0 - d) > 0 || Signed24(n - d) < 0 <==> d > n
  {
    SignedSmall(0 - d);
    SignedSmall(n - d);
  }

  lemma {:induction false} CompareAt(sqPsn: psn24, i: int, j: int)
    ensures Compare(Wrap(sqPsn + i), Wrap(sqPsn + j)) == 256 * Signed24(i - j)
  {
    CompareIsSigned(Wrap(sqPsn + i), Wrap(sqPsn + j));
    WrapDifference(sqPsn + i, sqPsn + j);
  }

  lemma {:induction false} SignedSmall(x: int)
    requires -PSN_SPACE < x < PSN_SPACE
    ensures Signed24(x) == if x < -HALF_SPACE then x + PSN_SPACE else if x < HALF_SPACE then x else x - PSN_SPACE
  {
  }

  /** The test that ends the walk over the outgoing packets. */
  lemma {:induction false} WalkTest(sqPsn: psn24, k: nat, psn: psn24)
    requires k < HALF_SPACE && (psn - sqPsn) % PSN_SPACE < HALF_SPACE
    ensures Compare(Wrap(sqPsn + k), psn) > 0 <==> k > (psn - sqPsn) % PSN_SPACE
  {
    var d := (psn - sqPsn) % PSN_SPACE;
    assert psn == Wrap(sqPsn + d);
    CompareAt(sqPsn, k, d);
    SignedSmall(k - d);
  }

  // ----- retiring packets one at a time

  lemma {:induction false} DrainStep(sq: seq<SendWr>, m: nat, j: nat)
    ensures Drain(Drain(sq, m), j) == Drain(sq, m + j)
    decreases m
  {
    StripHeadAgain(sq);
    var t := StripHead(sq);
    if m > 0 && t != [] {
      DrainStep(t[1..], m - 1, j);
    }
  }

  lemma {:induction false} StripHeadAgain(sq: seq<SendWr>)
    ensures StripHead(StripHead(sq)) == StripHead(sq)
  {
    if sq != [] && Skippable(sq[0]) {
      StripHeadAgain(sq[1..]);
    }
  }

  lemma {:induction false} CompletionsSnoc(sigAll: bool, ws: seq<SendWr>, m: nat)
    requires m < |ws|
    ensures Completions(sigAll, ws[..m + 1]) == Completions(sigAll, ws[..m]) + Completions(sigAll, [ws[m]])
  {
    if m == 0 {
      assert ws[..1] == [ws[0]];
    } else {
      CompletionsSnoc(sigAll, ws[1..], m - 1);
      assert ws[..m + 1][1..] == ws[1..][..m] && ws[..m][1..] == ws[1..][..m - 1];
    }
  }

  lemma {:induction false} OwnersSnoc(q: seq<Pkt>, k: nat)
    requires k < |q|
    ensures Owners(q[..k + 1]) == Owners(q[..k]) + if q[k].owner.Some? then [q[k].owner.value] else []
  {
    assert q[..k + 1] == q[..k] + [q[k]];
    OwnersConcat(q[..k], [q[k]]);
    assert [q[k]][1..] == [];
  }

  /** The state after the first outgoing packet is retired. */
  function RetireOne(sigAll: bool, p: Req): Req
    requires 0 < p.out <= |p.queue|
  {
    var r := p.(queue := p.queue[1..], out := p.out - 1, sqPsn := Inc(p.sqPsn));
    if p.queue[0].owner.None? || Real(p.sq) == [] then r.(sq := Drain(p.sq, 0))
    else r.(sq := Drain(p.sq, 1), cq := p.cq + Completions(sigAll, [Real(p.sq)[0]]))
  }

  /** The request popped for the first packet is the one that the packet names. */
  predicate NamesHead(p: Req)
    requires p.queue != []
  {
    p.queue[0].owner.Some? ==> Real(p.sq) != [] && Real(p.sq)[0].ptr == p.queue[0].owner.value
  }

  /** A read or an atomic at the head of the queue is popped for the first packet that
      finishes a request: the packet does not name it, the assertion fails, and without
      assertions the request is reported as done. */
  lemma {:induction false} SilentHeadIsPopped(sigAll: bool, s: Req, rd: SendWr, b: seq<SendWr>)
    requires Behind(s, rd, [], b) && 0 < s.out <= |s.queue| && s.queue[0].owner.Some?
    ensures b != [] && s.queue[0].owner.value == b[0].ptr
    ensures NamesHead(s) <==> rd.ptr == b[0].ptr
    ensures var r := RetireOne(sigAll, s);
      r.cq == s.cq + Completions(sigAll, [rd]) && Behind(r, b[0], [], b[1..])
  {
    RetireOneIs(sigAll, s);
    BehindRetireMore(sigAll, s, rd, [], b, 1);
    assert [] + ([rd] + b)[..1] == [rd];
    FirstOwner(s, b);
  }

  lemma {:induction false} FirstOwner(s: Req, b: seq<SendWr>)
    requires Owners(s.queue) == Ptrs([]) + Ptrs(b) && s.queue != [] && s.queue[0].owner.Some?
    ensures b != [] && s.queue[0].owner.value == b[0].ptr
  {
    assert Ptrs([]) + Ptrs(b) == Ptrs(b);
    assert Owners(s.queue)[0] == s.queue[0].owner.value;
    if b != [] {
      assert Ptrs(b)[0] == b[0].ptr;
    }
  }

  lemma {:induction false} RetireOneIs(sigAll: bool, s: Req)
    requires 0 < s.out <= |s.queue| && s.queue[0].owner.Some? && Real(s.sq) != []
    ensures var r, t := RetireOne(sigAll, s), Retire(sigAll, s, 1);
      |Owners(s.queue[..1])| == 1 && r.sq == t.sq && r.queue == t.queue && r.cq == t.cq
  {
    assert s.queue[..1] == [s.queue[0]] && [s.queue[0]][1..] == [];
    assert Real(s.sq)[..1] == [Real(s.sq)[0]];
  }

  /** Retiring k + 1 packets is retiring k and then one more, which finishes the request
      it names. */
  lemma {:induction false} RetireStep(sigAll: bool, s: Req, k: nat)
    requires k < s.out <= |s.queue| && Agrees(s)
    ensures var p, pkt := Retire(sigAll, s, k), s.queue[k];
      && p.queue[0] == pkt
      && Retire(sigAll, s, k + 1) == RetireOne(sigAll, p)
      && (pkt.owner.Some? ==> Real(p.sq) != [] && Real(p.sq)[0].ptr == pkt.owner.value)
  {
    RetireStepQueue(sigAll, s, k);
    RetireStepRequests(sigAll, s, k);
  }

  lemma {:induction false} RetireStepRequests(sigAll: bool, s: Req, k: nat)
    requires k < s.out <= |s.queue| && Agrees(s)
    ensures var p, r, pkt := Retire(sigAll, s, k), Retire(sigAll, s, k + 1), s.queue[k];
      if pkt.owner.None? then
        r.sq == Drain(p.sq, 0) && r.cq == p.cq
      else
        && Real(p.sq) != [] && Real(p.sq)[0].ptr == pkt.owner.value
        && r.sq == Drain(p.sq, 1) && r.cq == p.cq + Completions(sigAll, [Real(p.sq)[0]])
  {
    var ws, m := Real(s.sq), |Owners(s.queue[..k])|;
    var j := if s.queue[k].owner.Some? then 1 else 0;
    assert |Owners(s.queue[..k + 1])| == m + j by { OwnersSnoc(s.queue, k); }
    DrainStep(s.sq, m, j);
    RetireCq(sigAll, s, k);
    RetireCq(sigAll, s, k + 1);
    if j == 1 {
      NextFinished(sigAll, s, k);
      assert Real(Retire(sigAll, s, k).sq)[0] == ws[m];
      CompletionsSnoc(sigAll, ws, m);
      Assoc(s.cq, Completions(sigAll, ws[..m]), Completions(sigAll, [ws[m]]));
    }
  }

  lemma {:induction false} NextFinished(sigAll: bool, s: Req, k: nat)
    requires k < s.out <= |s.queue| && Agrees(s) && s.queue[k].owner.Some?
    ensures var ws, m := Real(s.sq), |Owners(s.queue[..k])|;
      m < |ws| && ws[m].ptr == s.queue[k].owner.value
  {
    var ws, m := Real(s.sq), |Owners(s.queue[..k])|;
    RetireAgrees(sigAll, s, k + 1);
    OwnersSnoc(s.queue, k);
    PtrsAt(ws[..m + 1], m);
  }

  lemma {:induction false} RetireCq(sigAll: bool, s: Req, k: nat)
    requires k <= s.out <= |s.queue| && Agrees(s)
    ensures var r, m, ws := Retire(sigAll, s, k), |Owners(s.queue[..k])|, Real(s.sq);
      m <= |ws| && Real(r.sq) == ws[m..] && r.cq == s.cq + Completions(sigAll, ws[..m]) && r.sq == Drain(s.sq, m)
  {
    RetireAgrees(sigAll, s, k);
  }

  lemma {:induction false} RetireStepQueue(sigAll: bool, s: Req, k: nat)
    requires k < s.out <= |s.queue|
    ensures var p, r := Retire(sigAll, s, k), Retire(sigAll, s, k + 1);
      && p.queue[0] == s.queue[k]
      && r.queue == p.queue[1..] && r.out == p.out - 1 && r.sqPsn == Inc(p.sqPsn)
      && r.reqPsn == p.reqPsn && r.wire == p.wire
  {
    WrapAdd(s.sqPsn + k, 1);
    IncWraps(s.sqPsn + k);
  }

  lemma {:induction false} RetireNothing(sigAll: bool, s: Req)
    requires ReqInv(s)
    ensures Retire(sigAll, s, 0) == s
  {
    assert s.queue[..0] == [] && s.queue[0..] == s.queue && Real(s.sq)[..0] == [];
  }

  lemma {:induction false} WalkAt(s: Req, k: nat, psn: psn24)
    requires Numbers(s) && k < |s.queue| && (psn - s.sqPsn) % PSN_SPACE <= |s.queue|
    ensures Compare(s.queue[k].psn, psn) > 0 <==> k > (psn - s.sqPsn) % PSN_SPACE
  {
    ShapeAt(s.queue, s.sqPsn, k);
    WalkTest(s.sqPsn, k, psn);
  }

  /** One round of the walk: it ends where the acknowledged packets do. */
  lemma {:induction false} WalkStep(sigAll: bool, s: Req, psn: psn24, k: nat)
    requires ReqInv(s) && k < s.out && k <= Acked(s, psn) && (psn - s.sqPsn) % PSN_SPACE <= |s.queue|
    ensures Compare(s.queue[k].psn, psn) > 0 <==> k == Acked(s, psn)
    ensures var p := Retire(sigAll, s, k);
      p.queue != [] && NamesHead(p) && 0 < p.out <= |p.queue| && Retire(sigAll, s, k + 1) == RetireOne(sigAll, p)
  {
    assert Compare(s.queue[k].psn, psn) > 0 <==> k > (psn - s.sqPsn) % PSN_SPACE by { WalkAt(s, k, psn); }
    RetireStep(sigAll, s, k);
  }

  lemma {:induction false} PtrsAt(ws: seq<SendWr>, m: nat)
    requires m < |ws|
    ensures |Ptrs(ws)| == |ws| && Ptrs(ws)[m] == ws[m].ptr
  {
    PtrsDrop(ws, m);
    assert Ptrs(ws[m..])[0] == ws[m].ptr;
  }

  // ----- sources of packets

  /** The largest path MTU. */
  const MAX_MTU := 4096

  /** What building packets takes for granted of a request: no more entries than the
      device allows, and reserved slots that are enough for the vectors of its buffers. */
  predicate Sendable(mrs: MrTable, u: Use, w: SendWr) {
    AllCountable(mrs, u, w.sges) && |w.sges| <= P.MAX_SGE
  }

  /** The assertion after mapping: it fails too when the mapping does, whose error code is
      compared with the page count. */
  predicate PieceHolds(mrs: MrTable, u: Use, sges: seq<Sge>) {
    AllAdmitted(mrs, u.pd, sges, u.local, u.access) && OneKind(mrs, sges) && Counted(mrs, u, sges)
  }

  /** It holds for every packet of the left bytes from the cursor on. */
  predicate PiecesHold(mrs: MrTable, u: Use, sges: seq<Sge>, left: nat, mtu: nat, idx: nat, off: nat)
    requires G.CursorOk(sges, idx, off) && left == |G.LocsFrom(sges, idx, off)| && mtu > 0
    decreases left
  {
    if left <= mtu then PieceHolds(mrs, u, G.Advance(sges, left, idx, off).sges)
    else
      var cut := G.Advance(sges, mtu, idx, off);
      G.AdvanceTakesPrefix(sges, mtu, idx, off);
      PieceHolds(mrs, u, cut.sges) && PiecesHold(mrs, u, sges, left - mtu, mtu, cut.idx, cut.off)
  }

  /** No assertion fails while the packets of a request are built. */
  predicate RequestHolds(mrs: MrTable, u: Use, w: SendWr, mtu: nat)
    requires mtu > 0
  {
    && G.LengthFits(w.sges, 0, 0)
    && var total := |G.LocsFrom(w.sges, 0, 0)|;
    if total <= mtu then PieceHolds(mrs, u, w.sges) else PiecesHold(mrs, u, w.sges, total, mtu, 0, 0)
  }

  /** The assertion after mapping holds exactly if every entry is admitted, the regions are of
      one kind, and the vector has an entry for every page that the code counts. */
  lemma {:induction false} PieceHoldsExactly(mrs: MrTable, u: Use, sges: seq<Sge>)
    ensures PieceHolds(mrs, u, sges) <==>
      && (forall i :: 0 <= i < |sges| ==> Admitted(mrs, u.pd, sges[i], u.local, u.access))
      && (forall i, j :: 0 <= i < |sges| && 0 <= j < |sges| && Lookup(mrs, sges[i].key).Some?
                         && Lookup(mrs, sges[j].key).Some? ==>
            Lookup(mrs, sges[i].key).value.frmr == Lookup(mrs, sges[j].key).value.frmr)
      && u.pageSize > 0 && P.SgePages(sges, u.pageSize) == VectorSize(mrs, sges)
  {
  }

  /** The sizes of the packets of a message. */
  function Sizes(left: nat, mtu: nat): (s: seq<nat>)
    requires mtu > 0
    ensures G.Sum(s) == left
    decreases left
  {
    if left <= mtu then
      assert [left][1..] == [];
      [left]
    else
      assert ([mtu] + Sizes(left - mtu, mtu))[1..] == Sizes(left - mtu, mtu);
      [mtu] + Sizes(left - mtu, mtu)
  }

  predicate AllHold(mrs: MrTable, u: Use, pieces: seq<seq<Sge>>) {
    forall i :: 0 <= i < |pieces| ==> PieceHolds(mrs, u, pieces[i])
  }

  lemma {:induction false} AllHoldCons(mrs: MrTable, u: Use, piece: seq<Sge>, rest: seq<seq<Sge>>)
    ensures AllHold(mrs, u, [piece] + rest) <==> PieceHolds(mrs, u, piece) && AllHold(mrs, u, rest)
  {
    var all := [piece] + rest;
    assert all[0] == piece && forall i :: 0 <= i < |rest| ==> all[i + 1] == rest[i];
  }

  lemma {:induction false} PiecesCons(sges: seq<Sge>, left: nat, mtu: nat, idx: nat, off: nat)
    requires G.CursorOk(sges, idx, off) && left == |G.LocsFrom(sges, idx, off)| && 0 < mtu < left
    ensures var cut := G.Advance(sges, mtu, idx, off);
      && |G.LocsFrom(sges, cut.idx, cut.off)| == left - mtu
      && G.Pieces(sges, Sizes(left, mtu), idx, off)
         == [cut.sges] + G.Pieces(sges, Sizes(left - mtu, mtu), cut.idx, cut.off)
  {
    G.AdvanceTakesPrefix(sges, mtu, idx, off);
    assert Sizes(left, mtu)[1..] == Sizes(left - mtu, mtu) && Sizes(left, mtu)[0] == mtu;
  }

  lemma {:induction false} PiecesOfOne(sges: seq<Sge>, left: nat, mtu: nat, idx: nat, off: nat)
    requires G.CursorOk(sges, idx, off) && left == |G.LocsFrom(sges, idx, off)| && left <= mtu && mtu > 0
    ensures G.Pieces(sges, Sizes(left, mtu), idx, off) == [G.Advance(sges, left, idx, off).sges]
  {
    G.AdvanceTakesPrefix(sges, left, idx, off);
    assert Sizes(left, mtu)[1..] == [];
  }

  /** No assertion fails exactly if none does for any of the pieces that the list is cut into
      for the packets. */
  lemma {:induction false} PiecesHoldExactly(mrs: MrTable, u: Use, sges: seq<Sge>, left: nat, mtu: nat, idx: nat,
          off: nat)
    requires G.CursorOk(sges, idx, off) && left == |G.LocsFrom(sges, idx, off)| && mtu > 0
    ensures PiecesHold(mrs, u, sges, left, mtu, idx, off)
       <==> AllHold(mrs, u, G.Pieces(sges, Sizes(left, mtu), idx, off))
    decreases left
  {
    if left <= mtu {
      var piece := G.Advance(sges, left, idx, off).sges;
      PiecesOfOne(sges, left, mtu, idx, off);
      AllHoldCons(mrs, u, piece, []);
      assert [piece] + [] == [piece];
    } else {
      var cut := G.Advance(sges, mtu, idx, off);
      PiecesCons(sges, left, mtu, idx, off);
      PiecesHoldExactly(mrs, u, sges, left - mtu, mtu, cut.idx, cut.off);
      AllHoldCons(mrs, u, cut.sges, G.Pieces(sges, Sizes(left - mtu, mtu), cut.idx, cut.off));
      PeelHolds(mrs, u, sges, left, mtu, idx, off);
    }
  }

  lemma {:induction false} ReadyPieceHolds(mrs: MrTable, u: Use, sges: seq<Sge>)
    requires P.PageSizeOk(u.pageSize) && AllReady(mrs, u, sges) && |sges| <= P.MAX_SGE && SgeLen(sges) < WORD
    ensures PieceHolds(mrs, u, sges)
  {
    ReadyList(mrs, u, sges);
    ReadyCounted(mrs, u, sges);
  }

  /** Buffers that are ready, as many and as long as a request may have. */
  predicate ReadyToSend(mrs: MrTable, u: Use, sges: seq<Sge>) {
    P.PageSizeOk(u.pageSize) && AllReady(mrs, u, sges) && |sges| <= P.MAX_SGE && SgeLen(sges) < WORD
  }

  lemma {:induction false} ReadyPiece(mrs: MrTable, u: Use, sges: seq<Sge>, bytes: nat, idx: nat, off: nat)
    requires ReadyToSend(mrs, u, sges) && AtByte(sges, idx, off) && bytes <= |G.LocsFrom(sges, idx, off)| < WORD
    ensures var cut := G.Advance(sges, bytes, idx, off);
      && PieceHolds(mrs, u, cut.sges) && AtByte(sges, cut.idx, cut.off)
      && |G.LocsFrom(sges, cut.idx, cut.off)| == |G.LocsFrom(sges, idx, off)| - bytes
  {
    PiecesReady(mrs, u, sges, bytes, idx, off);
    ReadyPieceHolds(mrs, u, G.Advance(sges, bytes, idx, off).sges);
    PiecesAreParts(sges, bytes, idx, off);
    G.AdvanceTakesPrefix(sges, bytes, idx, off);
  }

  lemma {:induction false} ReadyPiecesHold(mrs: MrTable, u: Use, sges: seq<Sge>, left: nat, mtu: nat, idx: nat,
          off: nat)
    requires ReadyToSend(mrs, u, sges)
    requires AtByte(sges, idx, off) && left == |G.LocsFrom(sges, idx, off)| < WORD && mtu > 0
    ensures PiecesHold(mrs, u, sges, left, mtu, idx, off)
    decreases left
  {
    if left <= mtu {
      ReadyPiece(mrs, u, sges, left, idx, off);
    } else {
      ReadyPiece(mrs, u, sges, mtu, idx, off);
      var cut := G.Advance(sges, mtu, idx, off);
      ReadyPiecesHold(mrs, u, sges, left - mtu, mtu, cut.idx, cut.off);
    }
  }

  /** None fails for buffers that are ready. */
  lemma {:induction false} ReadyRequestHolds(mrs: MrTable, u: Use, w: SendWr, mtu: nat)
    requires P.PageSizeOk(u.pageSize) && AllReady(mrs, u, w.sges) && mtu > 0
    requires 0 < |w.sges| <= P.MAX_SGE && SgeLen(w.sges) < WORD
    ensures RequestHolds(mrs, u, w, mtu)
  {
    var sges := w.sges;
    assert sges[0..] == sges && G.LocsFrom(sges, 0, 0) == G.Locs(sges);
    if |G.Locs(sges)| <= mtu {
      ReadyPieceHolds(mrs, u, sges);
    } else {
      ReadyPiecesHold(mrs, u, sges, |G.Locs(sges)|, mtu, 0, 0);
    }
  }

  /** The bytes from the cursor on. */
  function Left(mem: Mem, mrs: MrTable, sges: seq<Sge>, idx: nat, off: nat): seq<byte>
    requires G.CursorOk(sges, idx, off)
  {
    Read(mem, Hosts(mrs, G.LocsFrom(sges, idx, off)))
  }

  lemma {:induction false} LeftSplits(mem: Mem, mrs: MrTable, sges: seq<Sge>, bytes: nat, idx: nat, off: nat)
    requires G.CursorOk(sges, idx, off) && bytes <= |G.LocsFrom(sges, idx, off)|
    ensures var r, data := G.Advance(sges, bytes, idx, off), Left(mem, mrs, sges, idx, off);
      && |data| == |G.LocsFrom(sges, idx, off)|
      && Message(mem, mrs, r.sges) == data[..bytes]
      && Left(mem, mrs, sges, r.idx, r.off) == data[bytes..]
  {
    G.AdvanceTakesPrefix(sges, bytes, idx, off);
  }

  /** Maps the buffers of one packet; its payload is what the vector covers.  The slots
      are counted by 16 bits, and an error of the mapping is compared with the page count
      like a number of entries.  None stands for the failed assertion. */
  method BuildPayload(mem: Mem, mrs: MrTable, u: Use, sges: seq<Sge>) returns (payload: Option<seq<byte>>)
    requires P.PageSizeOk(u.pageSize) && AllCountable(mrs, u, sges) && FewPages(sges)
    ensures payload == if PieceHolds(mrs, u, sges) then Some(Message(mem, mrs, sges)) else None
  {
    var pages := P.CountPages(sges, u.pageSize);
    var slots := pages % P.SLOT_SPACE;
    var iovs := new Iovec[slots];
    CountableFacts(mrs, u, sges);
    var mapped, overrun := MapSge(mrs, u.pd, sges, iovs, u.local, u.access);
    ComparedWith(mrs, u, sges, mapped);
    if pages != mapped % WORD {
      return None;
    }
    MapTranslates(mrs, u.pd, sges, u.local, u.access);
    return Some(Read(mem, Addrs(iovs[..mapped])));
  }

  /** The comparison of the page count with what the mapping returns. */
  lemma {:induction false} ComparedWith(mrs: MrTable, u: Use, sges: seq<Sge>, mapped: int)
    requires P.PageSizeOk(u.pageSize) && AllCountable(mrs, u, sges) && FewPages(sges) && WellPlaced(mrs, sges)
    requires mapped >= 0 <==> AllAdmitted(mrs, u.pd, sges, u.local, u.access) && OneKind(mrs, sges)
    requires if mapped < 0 then mapped == -EACCES
             else mapped == |MapAll(mrs, u.pd, sges, u.local, u.access)| < P.SLOT_SPACE
    ensures P.SgePages(sges, u.pageSize) == mapped % WORD <==> PieceHolds(mrs, u, sges)
  {
    if mapped < 0 {
      CountIsNoError(mrs, u, sges);
    } else {
      MapSize(mrs, u.pd, sges, u.local, u.access);
    }
  }

  lemma {:induction false} CountableFacts(mrs: MrTable, u: Use, sges: seq<Sge>)
    requires P.PageSizeOk(u.pageSize) && AllCountable(mrs, u, sges) && FewPages(sges)
    ensures WellPlaced(mrs, sges)
    ensures Needed(mrs, u.pd, sges, u.local, u.access) <= VectorSize(mrs, sges)
         <= P.SgePages(sges, u.pageSize) % P.SLOT_SPACE
  {
    forall i | 0 <= i < |sges| ensures Backed(mrs, sges[i]) {
      assert Countable(mrs, u, sges[i]);
    }
    BackedList(mrs, sges);
    NeededAtMost(mrs, u.pd, sges, u.local, u.access);
    VectorRoom(mrs, u, sges);
  }

  lemma {:induction false} PieceFacts(mem: Mem, mrs: MrTable, u: Use, sges: seq<Sge>, bytes: nat, idx: nat, off: nat)
    requires AllCountable(mrs, u, sges) && |sges| <= P.MAX_SGE
    requires AtByte(sges, idx, off) && bytes <= |G.LocsFrom(sges, idx, off)|
    ensures var r, data := G.Advance(sges, bytes, idx, off), Left(mem, mrs, sges, idx, off);
      && AllCountable(mrs, u, r.sges) && SgeLen(r.sges) == bytes && |r.sges| <= P.MAX_SGE
      && AtByte(sges, r.idx, r.off)
      && Message(mem, mrs, r.sges) == data[..bytes]
      && Left(mem, mrs, sges, r.idx, r.off) == data[bytes..]
  {
    PiecesReady(mrs, u, sges, bytes, idx, off);
    PiecesAreParts(sges, bytes, idx, off);
    LeftSplits(mem, mrs, sges, bytes, idx, off);
  }

  /** The next bytes of a request become a packet, and the cursor moves past them; or the
      assertion fails. */
  method BuildFragment(w: SendWr, mem: Mem, mrs: MrTable, u: Use, total: nat, bytes: nat, idx0: nat, off0: nat,
          psn: psn24, first: bool, last: bool)
    returns (r: Option<Pkt>, idx: nat, off: nat)
    requires IsSend(w.op) || IsWrite(w.op)
    requires P.PageSizeOk(u.pageSize) && AllCountable(mrs, u, w.sges) && |w.sges| <= P.MAX_SGE
    requires idx0 < |w.sges| && AtByte(w.sges, idx0, off0)
    requires bytes <= |G.LocsFrom(w.sges, idx0, off0)| && bytes <= MAX_MTU
    ensures AtByte(w.sges, idx, off)
    ensures var cut, data := G.Advance(w.sges, bytes, idx0, off0), Left(mem, mrs, w.sges, idx0, off0);
      && idx == cut.idx && off == cut.off && bytes <= |data|
      && r == (if PieceHolds(mrs, u, cut.sges) then Some(Fragment(w, data[..bytes], total, psn, first, last)) else None)
      && Left(mem, mrs, w.sges, idx, off) == data[bytes..]
  {
    PieceFacts(mem, mrs, u, w.sges, bytes, idx0, off0);
    ghost var cut := G.Advance(w.sges, bytes, idx0, off0);
    var dst := new Sge[P.MAX_SGE];
    var n;
    n, idx, off := G.SgeAdvance(w.sges, bytes, idx0, off0, dst);
    assert dst[..n] == cut.sges && idx == cut.idx && off == cut.off;
    var payload := BuildPayload(mem, mrs, u, dst[..n]);
    if payload == None {
      return None, idx, off;
    }
    r := Some(Fragment(w, payload.value, total, psn, first, last));
  }

  lemma {:induction false} MoreToCome(sges: seq<Sge>, idx: nat, off: nat)
    requires G.CursorOk(sges, idx, off) && |G.LocsFrom(sges, idx, off)| > 0
    ensures idx < |sges|
  {
  }

  lemma {:induction false} Peel(w: SendWr, data: seq<byte>, total: nat, mtu: nat, psn: psn24, first: bool)
    requires 0 < mtu < |data| && (IsSend(w.op) || IsWrite(w.op))
    ensures Fragments(w, data, total, mtu, psn, first)
         == [Fragment(w, data[..mtu], total, psn, first, false)]
            + Fragments(w, data[mtu..], total, mtu, Inc(psn), false)
  {
    IncWraps(psn);
    WrapAdd(psn, 1);
    FragmentsMod(w, data[mtu..], total, mtu, psn + 1, Inc(psn), false);
  }

  /** A full packet is taken off the front of what is left. */
  lemma {:induction false} PeelHolds(mrs: MrTable, u: Use, sges: seq<Sge>, left: nat, mtu: nat, idx: nat, off: nat)
    requires G.CursorOk(sges, idx, off) && 0 < mtu < left == |G.LocsFrom(sges, idx, off)|
    ensures var cut := G.Advance(sges, mtu, idx, off);
      && |G.LocsFrom(sges, cut.idx, cut.off)| == left - mtu
      && (PiecesHold(mrs, u, sges, left, mtu, idx, off) <==>
            PieceHolds(mrs, u, cut.sges) && PiecesHold(mrs, u, sges, left - mtu, mtu, cut.idx, cut.off))
  {
    G.AdvanceTakesPrefix(sges, mtu, idx, off);
  }

  /** One full packet more: what is left to build, and on what it depends. */
  lemma {:induction false} FullStep(w: SendWr, mem: Mem, mrs: MrTable, u: Use, total: nat, mtu: nat, idx: nat, off: nat,
          psn: psn24, first: bool, pkts: seq<Pkt>, all: seq<Pkt>)
    requires (IsSend(w.op) || IsWrite(w.op)) && AtByte(w.sges, idx, off)
    requires 0 < mtu < |G.LocsFrom(w.sges, idx, off)|
    requires all == pkts + Fragments(w, Left(mem, mrs, w.sges, idx, off), total, mtu, psn, first)
    ensures var data, cut := Left(mem, mrs, w.sges, idx, off), G.Advance(w.sges, mtu, idx, off);
      && mtu < |data|
      && all == (pkts + [Fragment(w, data[..mtu], total, psn, first, false)])
                + Fragments(w, Left(mem, mrs, w.sges, cut.idx, cut.off), total, mtu, Inc(psn), false)
  {
    var data := Left(mem, mrs, w.sges, idx, off);
    LeftSplits(mem, mrs, w.sges, mtu, idx, off);
    Peel(w, data, total, mtu, psn, first);
    Assoc(pkts, [Fragment(w, data[..mtu], total, psn, first, false)],
          Fragments(w, data[mtu..], total, mtu, Inc(psn), false));
  }

  /** all is what is being built, and ok whether it can be; the packets built so far and
      those of the left bytes from the cursor on are all of it. */
  ghost predicate Building(w: SendWr, mem: Mem, mrs: MrTable, u: Use, total: nat, mtu: nat, left: nat, idx: nat,
          off: nat, psn: psn24, first: bool, pkts: seq<Pkt>, ok: bool, all: seq<Pkt>)
  {
    && (IsSend(w.op) || IsWrite(w.op)) && mtu > 0
    && AtByte(w.sges, idx, off) && 0 < left == |G.LocsFrom(w.sges, idx, off)| < WORD
    && ok == PiecesHold(mrs, u, w.sges, left, mtu, idx, off)
    && all == pkts + Fragments(w, Left(mem, mrs, w.sges, idx, off), total, mtu, psn, first)
  }

  method BuildFull(w: SendWr, mem: Mem, mrs: MrTable, u: Use, total: nat, mtu: nat, left: nat, idx0: nat, off0: nat,
          psn: psn24, first: bool, pkts0: seq<Pkt>, ghost ok: bool, ghost all: seq<Pkt>)
    returns (r: Option<seq<Pkt>>, idx: nat, off: nat)
    requires P.PageSizeOk(u.pageSize) && Sendable(mrs, u, w) && left > mtu && mtu <= MAX_MTU
    requires Building(w, mem, mrs, u, total, mtu, left, idx0, off0, psn, first, pkts0, ok, all)
    ensures if r == None then !ok
            else Building(w, mem, mrs, u, total, mtu, left - mtu, idx, off, Inc(psn), false, r.value, ok, all)
  {
    MoreToCome(w.sges, idx0, off0);
    FullStep(w, mem, mrs, u, total, mtu, idx0, off0, psn, first, pkts0, all);
    PeelHolds(mrs, u, w.sges, left, mtu, idx0, off0);
    var pkt;
    pkt, idx, off := BuildFragment(w, mem, mrs, u, total, mtu, idx0, off0, psn, first, false);
    r := if pkt == None then None else Some(pkts0 + [pkt.value]);
  }

  method BuildLast(w: SendWr, mem: Mem, mrs: MrTable, u: Use, total: nat, mtu: nat, left: nat, idx0: nat, off0: nat,
          psn: psn24, pkts: seq<Pkt>, ghost ok: bool, ghost all: seq<Pkt>)
    returns (r: Option<seq<Pkt>>)
    requires P.PageSizeOk(u.pageSize) && Sendable(mrs, u, w) && left <= mtu <= MAX_MTU
    requires Building(w, mem, mrs, u, total, mtu, left, idx0, off0, psn, false, pkts, ok, all)
    ensures r == if ok then Some(all) else None
  {
    MoreToCome(w.sges, idx0, off0);
    ghost var data := Left(mem, mrs, w.sges, idx0, off0);
    assert |data| == left && data[..left] == data;
    var pkt, idx, off := BuildFragment(w, mem, mrs, u, total, left, idx0, off0, psn, false, true);
    r := if pkt == None then None else Some(pkts + [pkt.value]);
  }

  /** MIDDLE packets while more than one packet is left, then LAST. */
  method BuildRest(w: SendWr, mem: Mem, mrs: MrTable, u: Use, total: nat, mtu: nat, left0: nat, idx0: nat, off0: nat,
          psn0: psn24, pkts0: seq<Pkt>, ghost ok: bool, ghost all: seq<Pkt>)
    returns (r: Option<seq<Pkt>>)
    requires P.PageSizeOk(u.pageSize) && Sendable(mrs, u, w) && mtu <= MAX_MTU
    requires Building(w, mem, mrs, u, total, mtu, left0, idx0, off0, psn0, false, pkts0, ok, all)
    ensures r == if ok then Some(all) else None
  {
    var pkts: seq<Pkt>, psn: psn24, left: nat, idx: nat, off: nat := pkts0, psn0, left0, idx0, off0;
    while left > mtu
      invariant Building(w, mem, mrs, u, total, mtu, left, idx, off, psn, false, pkts, ok, all)
    {
      r, idx, off := BuildFull(w, mem, mrs, u, total, mtu, left, idx, off, psn, false, pkts, ok, all);
      if r == None {
        return;
      }
      pkts, psn, left := r.value, Inc(psn), left - mtu;
    }
    r := BuildLast(w, mem, mrs, u, total, mtu, left, idx, off, psn, pkts, ok, all);
  }

  /** A message longer than one packet. */
  method BuildMulti(w: SendWr, mem: Mem, mrs: MrTable, u: Use, total: nat, mtu: nat, psn: psn24)
    returns (r: Option<seq<Pkt>>)
    requires IsSend(w.op) || IsWrite(w.op)
    requires P.PageSizeOk(u.pageSize) && Sendable(mrs, u, w) && w.sges != []
    requires total == |G.LocsFrom(w.sges, 0, 0)| && 0 < mtu < total < WORD && mtu <= MAX_MTU
    ensures r == if PiecesHold(mrs, u, w.sges, total, mtu, 0, 0)
                 then Some(Fragments(w, Message(mem, mrs, w.sges), total, mtu, psn, true)) else None
  {
    ghost var ok := PiecesHold(mrs, u, w.sges, total, mtu, 0, 0);
    ghost var all := Fragments(w, Message(mem, mrs, w.sges), total, mtu, psn, true);
    assert w.sges[0..] == w.sges && G.LocsFrom(w.sges, 0, 0) == G.Locs(w.sges) && all == [] + all;
    var idx, off;
    r, idx, off := BuildFull(w, mem, mrs, u, total, mtu, total, 0, 0, psn, true, [], ok, all);
    if r.Some? {
      r := BuildRest(w, mem, mrs, u, total, mtu, total - mtu, idx, off, Inc(psn), r.value, ok, all);
    }
  }

  /** The packets of one request; None stands for a failed assertion. */
  method BuildPkts(w: SendWr, mem: Mem, mrs: MrTable, u: Use, mtu: nat, psn: psn24) returns (r: Option<seq<Pkt>>)
    requires !w.error && (!Silent(w) ==> Sendable(mrs, u, w))
    requires P.PageSizeOk(u.pageSize) && 0 < mtu <= MAX_MTU
    ensures r == if Silent(w) || RequestHolds(mrs, u, w, mtu)
                 then Some(Packets(w, Message(mem, mrs, w.sges), mtu, psn)) else None
  {
    if Silent(w) {
      return Some([]);
    }
    var total := G.SgeLength(w.sges, 0, 0);
    if total == None {
      return None;
    }
    assert w.sges[0..] == w.sges && G.LocsFrom(w.sges, 0, 0) == G.Locs(w.sges);
    if total.value <= mtu {
      var payload := BuildPayload(mem, mrs, u, w.sges);
      if payload == None {
        return None;
      }
      r := Some([Fragment(w, payload.value, total.value, psn, true, true)]);
    } else {
      r := BuildMulti(w, mem, mrs, u, total.value, mtu, psn);
    }
  }

  /** One queue pair's send side.  wire and cq record the calls of the network and
      completion callbacks. */
  class Sender {
    const sigAll: bool
    const mtu: nat
    const use: Use
    var sq: seq<SendWr>
    var pending: seq<Pkt>
    var outgoing: seq<Pkt>
    var sqPsn: uint32
    var reqPsn: uint32
    var wire: seq<Pkt>
    var cq: seq<Wc>

    ghost function State(): Req
      reads this
    {
      Req(sq, outgoing + pending, |outgoing|, sqPsn, reqPsn, wire, cq)
    }

    ghost predicate Valid()
      reads this
    {
      0 < mtu <= MAX_MTU && P.PageSizeOk(use.pageSize) && ReqInv(State())
    }

    constructor (sigAll: bool, mtu: nat, use: Use, psn: psn24)
      requires 0 < mtu <= MAX_MTU && P.PageSizeOk(use.pageSize)
      ensures Valid() && State() == Req([], [], 0, psn, psn, [], [])
      ensures this.sigAll == sigAll && this.mtu == mtu && this.use == use
    {
      this.sigAll, this.mtu, this.use := sigAll, mtu, use;
      sq, pending, outgoing, sqPsn, reqPsn, wire, cq := [], [], [], psn, psn, [], [];
    }

    /** The numbers can be set only while no packet is queued.  They are stored as they
        are; the rest of the code expects 24 bits. */
    method ModifySqPsn(psn: uint32) returns (ret: int)
      requires Valid()
      modifies this`sqPsn, this`reqPsn
      ensures Valid() <==> ret != 0 || psn < PSN_SPACE
      ensures ret == 0 <==> old(State()).queue == []
      ensures State() == if ret == 0 then old(State()).(sqPsn := psn, reqPsn := psn) else old(State())
      ensures ret == 0 || ret == -EBUSY
    {
      if pending != [] || outgoing != [] {
        return -EBUSY;
      }
      sqPsn, reqPsn := psn, psn;
      return 0;
    }

    /** The first pending packet goes out. */
    method SendOne()
      requires pending != []
      modifies this`pending, this`outgoing, this`wire
      ensures outgoing == old(outgoing) + [old(pending)[0]] && pending == old(pending)[1..]
      ensures outgoing + pending == old(outgoing + pending)
      ensures wire == old(wire) + [old(pending)[0]]
    {
      var pkt := pending[0];
      pending := pending[1..];
      outgoing := outgoing + [pkt];
      wire := wire + [pkt];
    }

    /** Looks at the last outgoing packet.  asserted tells whether the comparison of plain
        numbers holds that the code asserts of it; full, whether the window is. */
    method LookAtLast() returns (asserted: bool, full: bool)
      requires sqPsn < PSN_SPACE && Numbers(State()) && |outgoing| <= MAX_OUTGOING + 1
      ensures full <==> |outgoing| == MAX_OUTGOING + 1
      ensures asserted <==> PlainOrder(State())
    {
      if outgoing == [] {
        return true, false;
      }
      var last := outgoing[|outgoing| - 1].psn;
      LimitAt(State().queue, sqPsn, |outgoing| - 1);
      var diff := Compare(sqPsn + MAX_OUTGOING, last);
      assert diff >= 0;
      return sqPsn <= last <= reqPsn, diff == 0;
    }

    method XmitPkts() returns (asserted: bool)
      requires sqPsn < PSN_SPACE && Numbers(State()) && |outgoing| <= MAX_OUTGOING + 1
      modifies this`pending, this`outgoing, this`wire
      ensures State() == Slide(old(State()))
      ensures asserted <==> PlainOrder(old(State()))
    {
      var full;
      asserted, full := LookAtLast();
      if !full {
        SendPending();
      }
    }

    /** Packets go out until the window is full or none is left. */
    method SendPending()
      requires sqPsn < PSN_SPACE && Numbers(State()) && |outgoing| <= MAX_OUTGOING
      modifies this`pending, this`outgoing, this`wire
      ensures State() == Slide(old(State()))
    {
      ghost var s0 := State();
      ghost var sent := [];
      while pending != []
        invariant State() == s0.(out := |outgoing|, wire := s0.wire + sent)
        invariant |outgoing| <= MAX_OUTGOING && outgoing == old(outgoing) + sent
        decreases |pending|
      {
        var pkt := pending[0];
        assert pkt == s0.queue[|outgoing|];
        LimitAt(s0.queue, sqPsn, |outgoing|);
        SendOne();
        sent := sent + [pkt];
        if Compare(sqPsn + MAX_OUTGOING, pkt.psn) == 0 {
          break;
        }
      }
      assert outgoing == s0.queue[..|outgoing|] && sent == s0.queue[s0.out..|outgoing|];
    }

    method CompleteHead()
      modifies this`sq
      ensures sq == StripHead(old(sq))
    {
      while sq != [] && Skippable(sq[0])
        invariant StripHead(sq) == StripHead(old(sq))
        decreases |sq|
      {
        sq := sq[1..];
      }
    }

    /** An acknowledged packet.  asserted tells whether the request popped is the one that
        the packet names, as the code asserts. */
    method CompleteSendWr(pkt: Pkt) returns (asserted: bool)
      requires pkt.owner.Some? ==> Real(sq) != []
      modifies this`sq, this`sqPsn, this`cq
      ensures sqPsn == Inc(old(sqPsn))
      ensures pkt.owner.None? ==> sq == Drain(old(sq), 0) && cq == old(cq)
      ensures pkt.owner.Some? ==>
        sq == Drain(old(sq), 1) && cq == old(cq) + Completions(sigAll, [Real(old(sq))[0]])
      ensures asserted <==> pkt.owner.Some? ==> Real(old(sq))[0].ptr == pkt.owner.value
    {
      StripHeadReal(sq);
      CompleteHead();
      sqPsn := Inc(sqPsn);
      if pkt.owner.None? {
        return true;
      }
      var w := sq[0];
      sq := sq[1..];
      asserted := w.ptr == pkt.owner.value;
      if sigAll || w.signaled {
        cq := cq + [SendWc(w)];
      }
      CompleteHead();
    }

    /** The first outgoing packet is taken off its list and completed. */
    method RetireHead() returns (asserted: bool)
      requires outgoing != [] && (outgoing[0].owner.Some? ==> Real(sq) != [])
      modifies this`sq, this`outgoing, this`sqPsn, this`cq
      ensures State() == RetireOne(sigAll, old(State()))
      ensures asserted <==> NamesHead(old(State()))
    {
      var pkt := outgoing[0];
      assert (outgoing + pending)[1..] == outgoing[1..] + pending;
      outgoing := outgoing[1..];
      asserted := CompleteSendWr(pkt);
    }

    method HandleAck(psn: psn24)
      requires Valid()
      modifies this`sq, this`outgoing, this`sqPsn, this`cq
      ensures State() == Ack(sigAll, old(State()), psn)
    {
      ghost var s0 := State();
      ghost var k: nat := 0;
      AcceptTest(sqPsn, |s0.queue|, psn);
      assert State() == Retire(sigAll, s0, 0) by { RetireNothing(sigAll, s0); }
      if Compare(sqPsn, psn) > 0 {
        return;
      }
      if Compare(reqPsn, psn) < 0 {
        return;
      }
      while outgoing != []
        invariant k <= Acked(s0, psn) && State() == Retire(sigAll, s0, k)
        decreases |outgoing|
      {
        assert outgoing[0] == State().queue[0] == s0.queue[k];
        WalkStep(sigAll, s0, psn, k);
        if Compare(outgoing[0].psn, psn) > 0 {
          break;
        }
        var asserted := RetireHead();
        assert asserted;
        k := k + 1;
      }
    }

    method ResendAll()
      modifies this`wire
      ensures State() == Resend(old(State()))
    {
      for i := 0 to |outgoing|
        invariant wire == old(wire) + outgoing[..i]
      {
        wire := wire + [outgoing[i]];
      }
      assert outgoing == State().queue[..|outgoing|] == outgoing[..|outgoing|];
    }

    method HandleNak(psn: psn24) returns (asserted: bool)
      requires Valid()
      modifies this`sq, this`pending, this`outgoing, this`sqPsn, this`wire, this`cq
      ensures State() == Nak(sigAll, old(State()), psn)
      ensures asserted <==> PlainOrder(Heard(sigAll, old(State()), true, psn))
    {
      ghost var heard := Heard(sigAll, State(), true, psn);
      assert Numbers(heard) by { RetireNumbers(sigAll, State(), Acked(State(), Wrap(psn - 1))); }
      HandleAck(Wrap(psn - 1));
      assert State() == heard;
      ResendAll();
      assert PlainOrder(State()) <==> PlainOrder(heard);
      asserted := XmitPkts();
    }

    /** An acknowledgement from the peer: an ACK, or a NAK of whatever code. */
    method HandleAcknowledge(nak: bool, psn: psn24) returns (asserted: bool)
      requires Valid()
      modifies this`sq, this`pending, this`outgoing, this`sqPsn, this`wire, this`cq
      ensures Valid()
      ensures State() == if nak then Nak(sigAll, old(State()), psn) else AckAndRefill(sigAll, old(State()), psn)
      ensures asserted <==> PlainOrder(Heard(sigAll, old(State()), nak, psn))
    {
      NakKeeps(sigAll, State(), psn);
      AckKeeps(sigAll, State(), psn);
      if nak {
        asserted := HandleNak(psn);
      } else {
        RetireNumbers(sigAll, State(), Acked(State(), psn));
        HandleAck(psn);
        asserted := XmitPkts();
      }
    }

    /** Building the packets of a request stops at an assertion. */
    predicate Stops(w: SendWr, mrs: MrTable)
      requires mtu > 0
    {
      !w.error && !Silent(w) && !RequestHolds(mrs, use, w, mtu)
    }

    /** The request joins the send queue, its packets the pending ones. */
    method EnqueueWr(w: SendWr, mem: Mem, mrs: MrTable) returns (aborted: bool)
      requires Valid() && (!w.error && !Silent(w) ==> Sendable(mrs, use, w))
      modifies this`sq, this`pending, this`reqPsn
      ensures aborted <==> Stops(w, mrs)
      ensures !aborted ==> State() == Enqueue(old(State()), w, Packets(w, Message(mem, mrs, w.sges), mtu, old(reqPsn)))
    {
      sq := sq + [w];
      if w.error {
        assert outgoing + pending == State().queue + [];
        return false;
      }
      var pkts := BuildPkts(w, mem, mrs, use, mtu, reqPsn);
      if pkts == None {
        return true;
      }
      assert (outgoing + pending) + pkts.value == outgoing + (pending + pkts.value);
      pending := pending + pkts.value;
      reqPsn := Wrap(reqPsn + |pkts.value|);
      return false;
    }

    /** Posts a request.  mem and mrs are the memory its buffers lie in and its regions.
        A build without assertions goes on behind a wrap as if nothing were. */
    method RequestRc(w: SendWr, mem: Mem, mrs: MrTable) returns (aborted: bool)
      requires Valid()
      requires !w.error && !Silent(w) ==> Sendable(mrs, use, w)
      requires |State().queue| + |Packets(w, Message(mem, mrs, w.sges), mtu, reqPsn)| < HALF_SPACE
      modifies this`sq, this`pending, this`outgoing, this`reqPsn, this`wire
      ensures var pkts := Packets(w, Message(mem, mrs, w.sges), mtu, old(reqPsn));
        && (aborted <==> Stops(w, mrs) || !PlainOrder(Enqueue(old(State()), w, pkts)))
        && (!Stops(w, mrs) ==> State() == Post(old(State()), w, pkts))
      ensures !Stops(w, mrs) && (Skippable(w) || !Silent(w)) ==> Valid()
    {
      PostFacts(State(), w, Message(mem, mrs, w.sges), mtu);
      aborted := EnqueueWr(w, mem, mrs);
      if aborted {
        return;
      }
      assert Numbers(State());
      var asserted := XmitPkts();
      CompleteHead();
      aborted := !asserted;
    }
  }

  lemma {:induction false} PostFacts(s: Req, w: SendWr, data: seq<byte>, mtu: nat)
    requires mtu > 0 && ReqInv(s)
    requires |s.queue| + |Packets(w, data, mtu, s.reqPsn)| < HALF_SPACE
    ensures var pkts := Packets(w, data, mtu, s.reqPsn);
      && Numbers(Enqueue(s, w, pkts))
      && (Skippable(w) || !Silent(w) ==> ReqInv(Post(s, w, pkts)))
  {
    PacketsShape(w, data, mtu, s.reqPsn);
    EnqueueNumbers(s, w, Packets(w, data, mtu, s.reqPsn));
    if Skippable(w) || !Silent(w) {
      PacketsBuilt(w, data, mtu, s.reqPsn);
      PostKeeps(s, w, Packets(w, data, mtu, s.reqPsn));
    }
  }
}
