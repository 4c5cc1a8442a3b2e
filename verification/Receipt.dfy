/**
 When an expected packet is taken, and what it leaves behind: read off the state and the
 packet alone.
 */
module Receipt {
  import opened Psn
  import opened Types
  import opened Scatter
  import opened Translate
  import opened Buffers
  import opened Responder
  import G = Gather
  import P = Pages

  const SENDS := {SendFirst, SendMiddle, SendLast, SendLastImm, SendOnly, SendOnlyImm}
  const WRITES := {WriteFirst, WriteMiddle, WriteLast, WriteLastImm, WriteOnly, WriteOnlyImm}

  predicate HasImm(pkt: Pkt) { pkt.eth.Immdt? || pkt.eth.RethImmdt? }

  predicate HasReth(pkt: Pkt) { pkt.eth.Reth? || pkt.eth.RethImmdt? }

  /** All is well with a mapping exactly if the array of 128 entries is long enough for it,
      every entry is admitted, the regions are of one kind, and the vector has an entry for
      every page that the code counts. */
  lemma {:induction false} GoodExactly(env: Env, sges: seq<Sge>, u: Use)
    ensures MapCheck(env, sges, u) == Good <==>
      && Needed(env.mrs, u.pd, sges, u.local, u.access) <= 128
      && (forall i :: 0 <= i < |sges| ==> Admitted(env.mrs, u.pd, sges[i], u.local, u.access))
      && (forall i, j :: 0 <= i < |sges| && 0 <= j < |sges| && Lookup(env.mrs, sges[i].key).Some?
                         && Lookup(env.mrs, sges[j].key).Some? ==>
            Lookup(env.mrs, sges[i].key).value.frmr == Lookup(env.mrs, sges[j].key).value.frmr)
      && u.pageSize > 0 && P.SgePages(sges, u.pageSize) == VectorSize(env.mrs, sges)
  {
  }

  // ----- SEND

  predicate ContinuesSend(op: Opcode) { op in {SendMiddle, SendLast, SendLastImm} }

  predicate EndsSend(op: Opcode) { op in {SendLast, SendLastImm, SendOnly, SendOnlyImm} }

  predicate NeedsImm(op: Opcode) { op in {SendLastImm, SendOnlyImm, WriteLastImm, WriteOnlyImm} }

  /** The request that a packet at this place of a message goes to: the one in progress, or
      the next one if nothing is in progress.  The address of a write is read as a request,
      unless it is zero. */
  function RequestFor(d: Data, continues: bool): Option<RecvWr> {
    match d.cur
    case InSend(wr) => if continues then Some(wr) else None
    case InBoth(wr, _, _, _) => if continues then Some(wr) else None
    case InWrite(iova, _, _, _) => if iova == 0 && !continues && d.rq != [] then Some(d.rq[0]) else None
    case Idle => if !continues && d.rq != [] then Some(d.rq[0]) else None
  }

  /** The cursor of a request names an entry and stands in it, and what is left fits 32 bits,
      as the code asserts, and is n bytes or more. */
  predicate HasLeft(wr: RecvWr, n: nat) {
    && wr.idx < |wr.sges| && wr.off <= wr.sges[wr.idx].length
    && n <= |G.LocsFrom(wr.sges, wr.idx, wr.off)| < WORD
  }

  /** What is left of a request is enough for n bytes, and they map. */
  predicate HoldsNext(env: Env, wr: RecvWr, n: nat) {
    && HasLeft(wr, n)
    && MapCheck(env, G.Advance(wr.sges, n, wr.idx, wr.off).sges, LocalUse(env)) == Good
  }

  predicate SendIsTaken(env: Env, d: Data, pkt: Pkt) {
    && (NeedsImm(pkt.opcode) ==> HasImm(pkt))
    && RequestFor(d, ContinuesSend(pkt.opcode)).Some?
    && HoldsNext(env, RequestFor(d, ContinuesSend(pkt.opcode)).value, |pkt.payload|)
  }

  lemma {:induction false} SendDispatch(env: Env, d: Data, pkt: Pkt)
    requires pkt.opcode in SENDS && (NeedsImm(pkt.opcode) ==> HasImm(pkt))
    ensures Receive(env, d, pkt)
         == RecvPayload(env, d, pkt.payload, if NeedsImm(pkt.opcode) then Some(pkt.eth.imm) else None,
                        ContinuesSend(pkt.opcode), EndsSend(pkt.opcode))
  {
  }

  /** What of the cursor of a write lies beside the pointer in the union. */
  function Beneath(cur: Progress): Option<(uint32, nat, nat)> {
    match cur
    case InWrite(_, rkey, dmalen, written) => Some((rkey, dmalen, written))
    case InBoth(_, rkey, dmalen, written) => Some((rkey, dmalen, written))
    case _ => None
  }

  lemma {:induction false} PoppedFor(d: Data, continues: bool)
    ensures var p, wr := PopRecvWr(d, continues), RequestFor(d, continues);
      && (p.TheWr? <==> wr.Some?)
      && (p.TheWr? ==>
            && p.wr == wr.value && p.data.mem == d.mem && p.data.cq == d.cq
            && p.data.rq == (if continues then d.rq else d.rq[1..]) && Beneath(p.data.cur) == Beneath(d.cur)
            && p.data.cur == if continues then d.cur else Pointing(d.cur, wr.value))
  {
  }

  lemma {:induction false} PayloadTaken(env: Env, d: Data, payload: seq<byte>, imm: Option<uint32>, continues: bool,
          ends: bool)
    ensures var wr := RequestFor(d, continues);
      RecvPayload(env, d, payload, imm, continues, ends).Took? <==> wr.Some? && HoldsNext(env, wr.value, |payload|)
  {
    PoppedFor(d, continues);
    var p := PopRecvWr(d, continues);
    if p.TheWr? {
      FillTaken(env, p.wr, p.data, payload, imm, ends);
    }
  }

  lemma {:induction false} FillTaken(env: Env, wr: RecvWr, d: Data, payload: seq<byte>, imm: Option<uint32>, ends: bool)
    ensures FillWr(env, wr, d, payload, imm, ends).Took? <==> HoldsNext(env, wr, |payload|)
  {
    if G.LengthFits(wr.sges, wr.idx, wr.off) && |payload| <= |G.LocsFrom(wr.sges, wr.idx, wr.off)| {
      G.AdvanceTakesPrefix(wr.sges, |payload|, wr.idx, wr.off);
    }
  }

  lemma {:induction false} Concluded(r: Rsp, pkt: Pkt, out: Outcome)
    requires r.rqPsn < PSN_SPACE
    ensures var t := Conclude(r, pkt, out);
      && (t.rqPsn != r.rqPsn <==> out.Took?)
      && (out.Took? ==> t == Rsp(Wrap(r.rqPsn + 1), false, out.data,
                                 r.replies + if pkt.ack then [Reply(false, pkt.psn)] else []))
      && (out.Refused? ==> t == Rsp(r.rqPsn, false, out.data,
                                    r.replies + if out.nak then [Reply(true, r.rqPsn)] else []))
      && (out.Aborted? || out.Overrun? ==> t == r.(inNak := false))
  {
  }

  lemma {:induction false} ExpectedConcludes(env: Env, r: Rsp, pkt: Pkt)
    requires r.rqPsn < PSN_SPACE && pkt.psn == r.rqPsn
    ensures RecvRc(env, r, pkt) == Conclude(r, pkt, Receive(env, r.data, pkt))
  {
  }

  /** An expected SEND packet is taken exactly if the immediate of its opcode is there, a
      request is there for its place, and what is left of that holds the payload. */
  lemma {:induction false} SendTakenExactly(env: Env, r: Rsp, pkt: Pkt)
    requires r.rqPsn < PSN_SPACE && pkt.psn == r.rqPsn && pkt.opcode in SENDS
    ensures RecvRc(env, r, pkt).rqPsn != r.rqPsn <==> SendIsTaken(env, r.data, pkt)
  {
    var out := Receive(env, r.data, pkt);
    assert RecvRc(env, r, pkt) == Conclude(r, pkt, out) by { ExpectedConcludes(env, r, pkt); }
    SendRefuses(env, r.data, pkt, out);
    Concluded(r, pkt, out);
  }

  /** The request after n more bytes: its buffers are as they were, the cursor stands n bytes
      further, and n more are counted. */
  predicate MovedBy(wr: RecvWr, now: RecvWr, n: nat)
    requires G.CursorOk(wr.sges, wr.idx, wr.off) && n <= |G.LocsFrom(wr.sges, wr.idx, wr.off)|
  {
    && now.wrId == wr.wrId && now.sges == wr.sges && now.byteLen == wr.byteLen + n
    && G.CursorOk(now.sges, now.idx, now.off)
    && G.LocsFrom(now.sges, now.idx, now.off) == G.LocsFrom(wr.sges, wr.idx, wr.off)[n..]
  }

  /** After the payload is taken: it lies in the next bytes of the request, which completes
      with all its bytes or stays in progress. */
  predicate SendLeaves(env: Env, d: Data, t: Data, pkt: Pkt, wr: RecvWr)
    requires HasLeft(wr, |pkt.payload|) && (NeedsImm(pkt.opcode) ==> HasImm(pkt))
    requires RequestFor(d, ContinuesSend(pkt.opcode)) == Some(wr)
  {
    var n := |pkt.payload|;
    && t.mem == Write(d.mem, Hosts(env.mrs, G.LocsFrom(wr.sges, wr.idx, wr.off)[..n]), pkt.payload)
    && t.rq == (if ContinuesSend(pkt.opcode) then d.rq else d.rq[1..]) && Beneath(t.cur) == Beneath(d.cur)
    && (EndsSend(pkt.opcode) ==>
          && (t.cur.Idle? || (t.cur.InWrite? && t.cur.iova == 0))
          && t.cq == d.cq + [Wc(wr.wrId, WcRecv, if NeedsImm(pkt.opcode) then WcImm(pkt.eth.imm) else WcPlain,
                                wr.byteLen + n)])
    && (!EndsSend(pkt.opcode) ==> t.cq == d.cq && (t.cur.InSend? || t.cur.InBoth?) && MovedBy(wr, t.cur.wr, n))
  }

  /** What filling a request leaves; hosts are the next bytes of its buffers. */
  predicate FillLeft(d: Data, out: Outcome, wr: RecvWr, hosts: seq<nat>, payload: seq<byte>, imm: Option<uint32>,
          ends: bool)
    requires HasLeft(wr, |payload|) && |hosts| == |payload|
  {
    && out.Took? && out.data.rq == d.rq && Beneath(out.data.cur) == Beneath(d.cur)
    && out.data.mem == Write(d.mem, hosts, payload)
    && (ends ==>
          && (out.data.cur.Idle? || (out.data.cur.InWrite? && out.data.cur.iova == 0))
          && out.data.cq == d.cq + [Wc(wr.wrId, WcRecv, if imm.Some? then WcImm(imm.value) else WcPlain,
                                       wr.byteLen + |payload|)])
    && (!ends ==> out.data.cq == d.cq && (out.data.cur.InSend? || out.data.cur.InBoth?)
                  && MovedBy(wr, out.data.cur.wr, |payload|))
  }

  lemma {:induction false} StoreToLeaves(env: Env, wr: RecvWr, pieces: seq<Sge>, moved: RecvWr, d: Data,
          payload: seq<byte>, imm: Option<uint32>, ends: bool)
    requires HasLeft(wr, |payload|) && (d.cur.InSend? || d.cur.InBoth?) && |G.Locs(pieces)| == |payload|
    requires MovedBy(wr, moved.(byteLen := wr.byteLen + |payload|), |payload|) && moved.byteLen == wr.byteLen
    ensures FillLeft(d, StoreTo(env, Good, pieces, moved, d, payload, imm, ends), wr, Hosts(env.mrs, G.Locs(pieces)),
                     payload, imm, ends)
  {
  }

  lemma {:induction false} FillLeaves(env: Env, wr: RecvWr, d: Data, payload: seq<byte>, imm: Option<uint32>,
          ends: bool)
    requires HoldsNext(env, wr, |payload|) && (d.cur.InSend? || d.cur.InBoth?)
    ensures FillLeft(d, FillWr(env, wr, d, payload, imm, ends), wr,
                     Hosts(env.mrs, G.LocsFrom(wr.sges, wr.idx, wr.off)[..|payload|]), payload, imm, ends)
  {
    var cut := G.Advance(wr.sges, |payload|, wr.idx, wr.off);
    G.AdvanceTakesPrefix(wr.sges, |payload|, wr.idx, wr.off);
    FillGood(env, wr, d, payload, imm, ends, cut);
    StoreToLeaves(env, wr, cut.sges, wr.(idx := cut.idx, off := cut.off), d, payload, imm, ends);
  }

  /** What a SEND packet that is taken does. */
  lemma {:induction false} SendTakenDoes(env: Env, r: Rsp, pkt: Pkt)
    requires r.rqPsn < PSN_SPACE && pkt.psn == r.rqPsn && pkt.opcode in SENDS && SendIsTaken(env, r.data, pkt)
    ensures var wr := RequestFor(r.data, ContinuesSend(pkt.opcode)).value;
      && HasLeft(wr, |pkt.payload|)
      && var t := RecvRc(env, r, pkt);
      && t.rqPsn == Wrap(r.rqPsn + 1) && !t.inNak
      && t.replies == r.replies + (if pkt.ack then [Reply(false, r.rqPsn)] else [])
      && SendLeaves(env, r.data, t.data, pkt, wr)
  {
    var out := Receive(env, r.data, pkt);
    assert RecvRc(env, r, pkt) == Conclude(r, pkt, out) by { ExpectedConcludes(env, r, pkt); }
    TakenLeaves(env, r.data, pkt, out);
    Concluded(r, pkt, out);
  }

  lemma {:induction false} TakenLeaves(env: Env, d: Data, pkt: Pkt, out: Outcome)
    requires pkt.opcode in SENDS && SendIsTaken(env, d, pkt) && out == Receive(env, d, pkt)
    ensures var wr := RequestFor(d, ContinuesSend(pkt.opcode)).value;
      HasLeft(wr, |pkt.payload|) && out.Took? && SendLeaves(env, d, out.data, pkt, wr)
  {
    var continues, imm := ContinuesSend(pkt.opcode), if NeedsImm(pkt.opcode) then Some(pkt.eth.imm) else None;
    var wr := RequestFor(d, continues).value;
    assert out == RecvPayload(env, d, pkt.payload, imm, continues, EndsSend(pkt.opcode)) by {
      SendDispatch(env, d, pkt);
    }
    PoppedFor(d, continues);
    var p := PopRecvWr(d, continues);
    FillLeaves(env, wr, p.data, pkt.payload, imm, EndsSend(pkt.opcode));
    LeftIsSend(env, d, p.data, out, pkt, wr, imm);
  }

  lemma {:induction false} LeftIsSend(env: Env, d: Data, d1: Data, out: Outcome, pkt: Pkt, wr: RecvWr,
          imm: Option<uint32>)
    requires HasLeft(wr, |pkt.payload|) && (NeedsImm(pkt.opcode) ==> HasImm(pkt))
    requires RequestFor(d, ContinuesSend(pkt.opcode)) == Some(wr)
    requires imm == if NeedsImm(pkt.opcode) then Some(pkt.eth.imm) else None
    requires d1.mem == d.mem && d1.cq == d.cq && Beneath(d1.cur) == Beneath(d.cur)
    requires d1.rq == if ContinuesSend(pkt.opcode) then d.rq else d.rq[1..]
    requires FillLeft(d1, out, wr, Hosts(env.mrs, G.LocsFrom(wr.sges, wr.idx, wr.off)[..|pkt.payload|]), pkt.payload,
                      imm, EndsSend(pkt.opcode))
    ensures out.Took? && SendLeaves(env, d, out.data, pkt, wr)
  {
  }

  lemma {:induction false} SendRefuses(env: Env, d: Data, pkt: Pkt, out: Outcome)
    requires pkt.opcode in SENDS && out == Receive(env, d, pkt)
    ensures out.Took? <==> SendIsTaken(env, d, pkt)
    ensures out.Refused? ==> !out.nak && out.data.mem == d.mem && out.data.cq == d.cq
  {
    if NeedsImm(pkt.opcode) ==> HasImm(pkt) {
      var imm := if NeedsImm(pkt.opcode) then Some(pkt.eth.imm) else None;
      SendDispatch(env, d, pkt);
      PayloadTaken(env, d, pkt.payload, imm, ContinuesSend(pkt.opcode), EndsSend(pkt.opcode));
      NotTakenLeaves(env, d, pkt.payload, imm, ContinuesSend(pkt.opcode), EndsSend(pkt.opcode));
    }
  }

  /** A packet that is not taken leaves number, memory, completions and replies. */
  lemma {:induction false} SendNotTaken(env: Env, r: Rsp, pkt: Pkt)
    requires r.rqPsn < PSN_SPACE && pkt.psn == r.rqPsn && pkt.opcode in SENDS && !SendIsTaken(env, r.data, pkt)
    ensures var t := RecvRc(env, r, pkt);
      t.rqPsn == r.rqPsn && t.data.mem == r.data.mem && t.data.cq == r.data.cq && t.replies == r.replies
  {
    var out := Receive(env, r.data, pkt);
    assert RecvRc(env, r, pkt) == Conclude(r, pkt, out) by { ExpectedConcludes(env, r, pkt); }
    SendRefuses(env, r.data, pkt, out);
    Concluded(r, pkt, out);
    assert r.replies + [] == r.replies;
  }

  lemma {:induction false} NotTakenLeaves(env: Env, d: Data, payload: seq<byte>, imm: Option<uint32>, continues: bool,
          ends: bool)
    ensures var out := RecvPayload(env, d, payload, imm, continues, ends);
      out.Refused? ==> !out.nak && out.data.mem == d.mem && out.data.cq == d.cq
  {
    PoppedFor(d, continues);
  }

  /** So does one that is longer than what is left of its request; and one that begins a
      message has taken the request off the queue, so that it is refused again when it comes
      again, whatever is posted. */
  lemma {:induction false} TooLong(env: Env, r: Rsp, pkt: Pkt, wr: RecvWr)
    requires r.rqPsn < PSN_SPACE && pkt.psn == r.rqPsn && pkt.opcode in SENDS
    requires NeedsImm(pkt.opcode) ==> HasImm(pkt)
    requires RequestFor(r.data, ContinuesSend(pkt.opcode)) == Some(wr)
    requires HasLeft(wr, 0) && |pkt.payload| > |G.LocsFrom(wr.sges, wr.idx, wr.off)|
    ensures var t := RecvRc(env, r, pkt);
      && t.rqPsn == r.rqPsn && t.replies == r.replies
      && t.data.mem == r.data.mem && t.data.cq == r.data.cq
      && (t.data.cur.InSend? || t.data.cur.InBoth?) && t.data.cur.wr == wr
      && (!ContinuesSend(pkt.opcode) ==>
            forall more: RecvWr :: RecvRc(env, PostRecv(t, more), pkt) == PostRecv(t, more))
  {
    var continues := ContinuesSend(pkt.opcode);
    assert !HoldsNext(env, wr, |pkt.payload|);
    SendNotTaken(env, r, pkt);
    SendDispatch(env, r.data, pkt);
    PoppedFor(r.data, continues);
    var t := RecvRc(env, r, pkt);
    forall more: RecvWr | !continues
      ensures RecvRc(env, PostRecv(t, more), pkt) == PostRecv(t, more)
    {
      Occupied(env, PostRecv(t, more), pkt);
    }
  }

  lemma {:induction false} Occupied(env: Env, r: Rsp, pkt: Pkt)
    requires r.rqPsn < PSN_SPACE && pkt.psn == r.rqPsn && pkt.opcode in SENDS && !ContinuesSend(pkt.opcode)
    requires NeedsImm(pkt.opcode) ==> HasImm(pkt)
    requires (r.data.cur.InSend? || r.data.cur.InBoth?) && !r.inNak
    ensures RecvRc(env, r, pkt) == r
  {
    assert r.replies + [] == r.replies;
    SendDispatch(env, r.data, pkt);
  }

  // ----- RDMA WRITE

  predicate ContinuesWriting(op: Opcode) { op in {WriteMiddle, WriteLast, WriteLastImm} }

  /** Bytes of an earlier packet are counted. */
  predicate Counting(d: Data) { (d.cur.InWrite? || d.cur.InBoth?) && d.cur.written != 0 }

  /** Where a packet at this place of a message writes: at the address in its own header, or
      after what was written before. */
  function PlaceFor(d: Data, pkt: Pkt): Option<Progress> {
    if ContinuesWriting(pkt.opcode) then if Counting(d) && d.cur.InWrite? then Some(d.cur) else None
    else if !Counting(d) && HasReth(pkt) then Some(InWrite(pkt.eth.va, pkt.eth.rkey, pkt.eth.dmalen, 0))
    else None
  }

  predicate WriteIsTaken(env: Env, d: Data, pkt: Pkt) {
    && (NeedsImm(pkt.opcode) ==> HasImm(pkt) && d.rq != [])
    && PlaceFor(d, pkt).Some?
    && var at := PlaceFor(d, pkt).value;
    at.InWrite?
    && MapCheck(env, [Sge(at.iova + at.written, |pkt.payload| % WORD, at.rkey)], RemoteUse(env)) == Good
  }

  /** After the payload is taken: it lies where it belongs, and is counted; with an immediate
      the next receive request completes with the count, and the write is over. */
  predicate WriteLeaves(env: Env, d: Data, t: Data, pkt: Pkt, at: Progress)
    requires at.InWrite? && |pkt.payload| < WORD && (NeedsImm(pkt.opcode) ==> HasImm(pkt) && d.rq != [])
  {
    var n := |pkt.payload|;
    var count := (at.written + n) % WORD;
    && t.mem == Write(d.mem, Hosts(env.mrs, G.LocRange(at.rkey, at.iova + at.written, n)), pkt.payload)
    && (NeedsImm(pkt.opcode) ==>
          && t.cur == Idle && t.rq == d.rq[1..]
          && t.cq == d.cq + [Wc(d.rq[0].wrId, WcRecvRdmaWithImm, WcImm(pkt.eth.imm), count)])
    && (!NeedsImm(pkt.opcode) ==>
          && t.cur == InWrite(at.iova, at.rkey, at.dmalen, count) && t.rq == d.rq && t.cq == d.cq)
  }

  lemma {:induction false} WriteDispatch(env: Env, d: Data, pkt: Pkt)
    requires pkt.opcode in WRITES && (NeedsImm(pkt.opcode) ==> HasImm(pkt))
    requires ContinuesWriting(pkt.opcode) || HasReth(pkt)
    ensures Receive(env, d, pkt)
         == WritePayload(env, d, pkt.payload,
                         if ContinuesWriting(pkt.opcode) then None
                         else Some((pkt.eth.va, pkt.eth.rkey, pkt.eth.dmalen)),
                         if NeedsImm(pkt.opcode) then Some(pkt.eth.imm) else None, ContinuesWriting(pkt.opcode))
  {
  }

  /** What comes of storing where the write stands; good says that the mapping is. */
  predicate StoreLeft(env: Env, d: Data, at: Progress, payload: seq<byte>, imm: Option<uint32>, good: bool,
          out: Outcome)
    requires at.InWrite?
  {
    var count := (at.written + |payload|) % WORD;
    && (out.Took? <==> good && (imm.Some? ==> d.rq != []))
    && (out.Refused? ==> !out.nak && out.data.cq == d.cq && out.data.rq == d.rq)
    && (out.Took? ==>
          && out.data.mem == Write(d.mem, Hosts(env.mrs, G.LocRange(at.rkey, at.iova + at.written, |payload|)),
                                   payload)
          && (imm.Some? ==>
                && out.data.cur == Idle && d.rq != [] && out.data.rq == d.rq[1..]
                && out.data.cq == d.cq + [Wc(d.rq[0].wrId, WcRecvRdmaWithImm, WcImm(imm.value), count)])
          && (imm.None? ==>
                && out.data.cur == InWrite(at.iova, at.rkey, at.dmalen, count)
                && out.data.rq == d.rq && out.data.cq == d.cq))
  }

  lemma {:induction false} WriteToLeaves(env: Env, check: Check, e: Sge, d: Data, at: Progress, payload: seq<byte>,
          imm: Option<uint32>)
    requires at.InWrite? && e == Sge(at.iova + at.written, e.length, at.rkey) && e.length == |payload|
    ensures StoreLeft(env, d, at, payload, imm, check == Good, WriteTo(env, check, e, d, at, payload, imm))
  {
    assert payload[..|payload|] == payload;
  }

  lemma {:induction false} StoreLeaves(env: Env, d: Data, at: Progress, payload: seq<byte>, imm: Option<uint32>, e: Sge)
    requires at.InWrite? && |payload| < WORD && e == Sge(at.iova + at.written, |payload|, at.rkey)
    ensures StoreLeft(env, d, at, payload, imm, MapCheck(env, [e], RemoteUse(env)) == Good,
                      StoreAt(env, d, at, payload, imm))
  {
    var check := MapCheck(env, [e], RemoteUse(env));
    assert StoreAt(env, d, at, payload, imm) == WriteTo(env, check, e, d, at, payload, imm) by {
      assert NextSge(at, |payload|) == e;
    }
    WriteToLeaves(env, check, e, d, at, payload, imm);
  }

  /** Where the packet stores, if it stores at all. */
  lemma {:induction false} PlaceIsStored(env: Env, d: Data, pkt: Pkt, imm: Option<uint32>)
    requires pkt.opcode in WRITES && (NeedsImm(pkt.opcode) ==> HasImm(pkt))
    requires ContinuesWriting(pkt.opcode) || HasReth(pkt)
    requires imm == if NeedsImm(pkt.opcode) then Some(pkt.eth.imm) else None
    ensures var at, out := PlaceFor(d, pkt), Receive(env, d, pkt);
      && (at.Some? ==> at.value.InWrite? && out == StoreAt(env, d, at.value, pkt.payload, imm)
                       && ContinuesWriting(pkt.opcode) == Counting(d))
      && (at.None? ==> out == if ContinuesWriting(pkt.opcode) != Counting(d) then Refused(d, true) else Aborted)
  {
    WriteDispatch(env, d, pkt);
  }

  /** What comes of a WRITE packet: it is taken, or it leaves completions and receive requests
      and is answered by a NAK exactly if it does not fit the count. */
  lemma {:induction false} WriteOutcome(env: Env, d: Data, pkt: Pkt, out: Outcome)
    requires pkt.opcode in WRITES && |pkt.payload| < WORD && out == Receive(env, d, pkt)
    ensures out.Took? <==> WriteIsTaken(env, d, pkt)
    ensures out.Took? ==> WriteLeaves(env, d, out.data, pkt, PlaceFor(d, pkt).value)
    ensures out.Refused? ==> out.data.cq == d.cq && out.data.rq == d.rq
    ensures out.Refused? && out.nak <==>
      && (NeedsImm(pkt.opcode) ==> HasImm(pkt)) && (ContinuesWriting(pkt.opcode) || HasReth(pkt))
      && ContinuesWriting(pkt.opcode) != Counting(d)
  {
    if (NeedsImm(pkt.opcode) ==> HasImm(pkt)) && (ContinuesWriting(pkt.opcode) || HasReth(pkt)) {
      var at, imm := PlaceFor(d, pkt), if NeedsImm(pkt.opcode) then Some(pkt.eth.imm) else None;
      PlaceIsStored(env, d, pkt, imm);
      if at.Some? {
        var e := Sge(at.value.iova + at.value.written, |pkt.payload|, at.value.rkey);
        StoreLeaves(env, d, at.value, pkt.payload, imm, e);
        PlacedOutcome(env, d, pkt, at.value, imm, e, out);
      }
    } else {
      assert out == Refused(d, false);
    }
  }

  lemma {:induction false} PlacedOutcome(env: Env, d: Data, pkt: Pkt, at: Progress, imm: Option<uint32>, e: Sge,
          out: Outcome)
    requires |pkt.payload| < WORD && PlaceFor(d, pkt) == Some(at) && at.InWrite?
    requires (NeedsImm(pkt.opcode) ==> HasImm(pkt)) && imm == if NeedsImm(pkt.opcode) then Some(pkt.eth.imm) else None
    requires e == Sge(at.iova + at.written, |pkt.payload|, at.rkey)
    requires StoreLeft(env, d, at, pkt.payload, imm, MapCheck(env, [e], RemoteUse(env)) == Good, out)
    ensures out.Took? <==> WriteIsTaken(env, d, pkt)
    ensures out.Took? ==> WriteLeaves(env, d, out.data, pkt, at)
    ensures out.Refused? ==> !out.nak && out.data.cq == d.cq && out.data.rq == d.rq
  {
    assert |pkt.payload| % WORD == |pkt.payload|;
  }

  /** The whole state after an expected WRITE packet. */
  lemma {:induction false} WriteExactly(env: Env, r: Rsp, pkt: Pkt)
    requires r.rqPsn < PSN_SPACE && pkt.psn == r.rqPsn && pkt.opcode in WRITES && |pkt.payload| < WORD
    ensures var t := RecvRc(env, r, pkt);
      && (t.rqPsn != r.rqPsn <==> WriteIsTaken(env, r.data, pkt))
      && (WriteIsTaken(env, r.data, pkt) ==>
            && t.rqPsn == Wrap(r.rqPsn + 1) && !t.inNak
            && t.replies == r.replies + (if pkt.ack then [Reply(false, r.rqPsn)] else [])
            && WriteLeaves(env, r.data, t.data, pkt, PlaceFor(r.data, pkt).value))
      && (!WriteIsTaken(env, r.data, pkt) ==>
            && t.data.cq == r.data.cq && t.data.rq == r.data.rq
            && (t.replies == r.replies || t.replies == r.replies + [Reply(true, r.rqPsn)]))
  {
    var out := Receive(env, r.data, pkt);
    assert RecvRc(env, r, pkt) == Conclude(r, pkt, out) by { ExpectedConcludes(env, r, pkt); }
    WriteOutcome(env, r.data, pkt, out);
    Concluded(r, pkt, out);
    assert r.replies + [] == r.replies;
  }

  /** A NAK answers a WRITE packet exactly if it has the headers of its opcode and claims to
      continue a message while no bytes are counted, or to begin one while some are. */
  lemma {:induction false} WriteNakExactly(env: Env, r: Rsp, pkt: Pkt)
    requires r.rqPsn < PSN_SPACE && pkt.psn == r.rqPsn && pkt.opcode in WRITES && |pkt.payload| < WORD
    ensures Reply(true, r.rqPsn) == Last(RecvRc(env, r, pkt).replies) && |RecvRc(env, r, pkt).replies| > |r.replies|
       <==> (NeedsImm(pkt.opcode) ==> HasImm(pkt)) && (ContinuesWriting(pkt.opcode) || HasReth(pkt))
            && ContinuesWriting(pkt.opcode) != Counting(r.data)
  {
    var out := Receive(env, r.data, pkt);
    assert RecvRc(env, r, pkt) == Conclude(r, pkt, out) by { ExpectedConcludes(env, r, pkt); }
    WriteOutcome(env, r.data, pkt, out);
    Concluded(r, pkt, out);
    assert r.replies + [] == r.replies;
  }

  function Last(replies: seq<Reply>): Reply { if replies == [] then Reply(false, 0) else replies[|replies| - 1] }
}
