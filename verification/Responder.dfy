/**
 The receive side of a reliable connection: what an arriving request packet does
 to the sequence number, to the receive work requests and to memory, and how it
 is answered.
 */
module Responder {
  import opened Psn
  import opened Types
  import opened Scatter
  import opened Translate
  import opened Buffers
  import G = Gather
  import P = Pages

  /** (idx, off) is the cursor of the bytes not yet filled. */
  datatype RecvWr = RecvWr(wrId: nat, sges: seq<Sge>, byteLen: nat, idx: nat, off: nat)

  /** A message being received: into a posted request, or into remote-writable memory.
      The code keeps the two in one union, where the pointer to the request lies over the
      address: so a write to address zero looks like no request at all, and a SEND that
      begins there leaves the rest of the write cursor as it was (InBoth). */
  datatype Progress =
    | Idle
    | InSend(wr: RecvWr)
    | InWrite(iova: nat, rkey: uint32, dmalen: nat, written: nat)
    | InBoth(wr: RecvWr, rkey: uint32, dmalen: nat, written: nat)

  datatype Data = Data(cur: Progress, rq: seq<RecvWr>, mem: Mem, cq: seq<Wc>)

  /** The protection domain, regions and page size of the receiving side. */
  datatype Env = Env(mrs: MrTable, pd: nat, pageSize: nat)

  /** An ACK or NAK handed to the network. */
  datatype Reply = Reply(nak: bool, psn: psn24)

  datatype Rsp = Rsp(rqPsn: uint32, inNak: bool, data: Data, replies: seq<Reply>)

  /** A packet is taken, or refused; a refusal may leave marks on the data all the same,
      and may be answered by a NAK.  Aborted stands for a failed assertion, and for an
      address that is read as a pointer or a pointer that is read as an address; Overrun
      for a vector that is longer than the array it is written to. */
  datatype Outcome =
    | Took(data: Data)
    | Refused(data: Data, nak: bool)
    | Aborted
    | Overrun

  /** The size of that array. */
  const MAX_IOV := 128

  function LocalUse(env: Env): Use { Use(env.pd, true, {LocalWrite}, env.pageSize, false) }

  function RemoteUse(env: Env): Use { Use(env.pd, false, {RemoteWrite}, env.pageSize, false) }

  predicate CanMap(env: Env, sges: seq<Sge>, u: Use) {
    AllAdmitted(env.mrs, u.pd, sges, u.local, u.access) && OneKind(env.mrs, sges)
  }

  /** What comes of mapping a list to the array: it is too long, some entry fails a check,
      the assertion on the page count fails, or all is well. */
  datatype Check = Overflows | Fails | Miscounts | Good

  function MapCheck(env: Env, sges: seq<Sge>, u: Use): Check {
    if Needed(env.mrs, u.pd, sges, u.local, u.access) > MAX_IOV then Overflows
    else if !CanMap(env, sges, u) then Fails
    else if !Counted(env.mrs, u, sges) then Miscounts
    else Good
  }

  /** All is well for buffers that are ready and no longer than a page in all. */
  lemma {:induction false} ReadyIsGood(env: Env, sges: seq<Sge>, u: Use)
    requires P.PageSizeOk(u.pageSize) && AllReady(env.mrs, u, sges)
    requires |sges| <= P.MAX_SGE && SgeLen(sges) <= u.pageSize && SgeLen(sges) < WORD
    ensures MapCheck(env, sges, u) == Good
  {
    ReadyShort(env.mrs, u, sges);
    ReadyList(env.mrs, u, sges);
    ReadyCounted(env.mrs, u, sges);
  }

  function RecvFlags(imm: Option<uint32>): WcFlags {
    if imm.Some? then WcImm(imm.value) else WcPlain
  }

  // ----- SEND

  /** What the pointer of the union reads as: a request, nothing, or an address. */
  datatype Pointer = ToWr(wr: RecvWr) | Null | Wild

  function WrPointer(cur: Progress): Pointer {
    match cur
    case Idle => Null
    case InSend(wr) => ToWr(wr)
    case InWrite(iova, _, _, _) => if iova == 0 then Null else Wild
    case InBoth(wr, _, _, _) => ToWr(wr)
  }

  /** The pointer is set to a request, or cleared. */
  function Pointing(cur: Progress, wr: RecvWr): Progress {
    match cur
    case InWrite(_, rkey, dmalen, written) => InBoth(wr, rkey, dmalen, written)
    case InBoth(_, rkey, dmalen, written) => InBoth(wr, rkey, dmalen, written)
    case _ => InSend(wr)
  }

  function Cleared(cur: Progress): Progress {
    match cur
    case InWrite(_, rkey, dmalen, written) => InWrite(0, rkey, dmalen, written)
    case InBoth(_, rkey, dmalen, written) => InWrite(0, rkey, dmalen, written)
    case _ => Idle
  }

  datatype Popped = NoWr | WildWr | TheWr(wr: RecvWr, data: Data)

  /** The request that a packet goes to: the one in progress, or else the next one. */
  function PopRecvWr(d: Data, inProcess: bool): Popped {
    match WrPointer(d.cur)
    case ToWr(wr) => if inProcess then TheWr(wr, d) else NoWr
    case Wild => if inProcess then WildWr else NoWr
    case Null =>
      if inProcess || d.rq == [] then NoWr
      else TheWr(d.rq[0], d.(cur := Pointing(d.cur, d.rq[0]), rq := d.rq[1..]))
  }

  /** The payload goes to the buffers, of which the mapping says check; moved is the request
      with its cursor past them. */
  function StoreTo(env: Env, check: Check, pieces: seq<Sge>, moved: RecvWr, d: Data, payload: seq<byte>,
          imm: Option<uint32>, complete: bool): Outcome
    requires |G.Locs(pieces)| == |payload|
  {
    match check
    case Overflows => Overrun
    case Fails => Refused(d.(cur := Pointing(d.cur, moved)), false)
    case Miscounts => Aborted
    case Good =>
      var filled := moved.(byteLen := moved.byteLen + |payload|);
      var d1 := d.(mem := Write(d.mem, Hosts(env.mrs, G.Locs(pieces)), payload));
      if complete then
        Took(d1.(cur := Cleared(d.cur), cq := d1.cq + [Wc(filled.wrId, WcRecv, RecvFlags(imm), filled.byteLen)]))
      else Took(d1.(cur := Pointing(d.cur, filled)))
  }

  /** The payload goes to the next bytes of wr, which has room for it. */
  function StoreIn(env: Env, wr: RecvWr, d: Data, payload: seq<byte>, imm: Option<uint32>, complete: bool): Outcome
    requires G.CursorOk(wr.sges, wr.idx, wr.off) && |payload| <= |G.LocsFrom(wr.sges, wr.idx, wr.off)|
  {
    var cut := G.Advance(wr.sges, |payload|, wr.idx, wr.off);
    G.AdvanceTakesPrefix(wr.sges, |payload|, wr.idx, wr.off);
    StoreTo(env, MapCheck(env, cut.sges, LocalUse(env)), cut.sges, wr.(idx := cut.idx, off := cut.off), d,
            payload, imm, complete)
  }

  /** wr is the request in progress. */
  function FillWr(env: Env, wr: RecvWr, d: Data, payload: seq<byte>, imm: Option<uint32>, complete: bool): Outcome {
    if !G.LengthFits(wr.sges, wr.idx, wr.off) then Aborted
    else if |G.LocsFrom(wr.sges, wr.idx, wr.off)| < |payload| then Refused(d, false)
    else StoreIn(env, wr, d, payload, imm, complete)
  }

  function RecvPayload(env: Env, d: Data, payload: seq<byte>, imm: Option<uint32>, inProcess: bool,
          complete: bool): Outcome
  {
    match PopRecvWr(d, inProcess)
    case NoWr => Refused(d, false)
    case WildWr => Aborted
    case TheWr(wr, d1) => FillWr(env, wr, d1, payload, imm, complete)
  }

  // ----- RDMA WRITE

  /** The count of written bytes is not zero. */
  predicate WriteOpen(d: Data) {
    (d.cur.InWrite? || d.cur.InBoth?) && d.cur.written != 0
  }

  function Wrote(cur: Progress, written: nat): (r: Progress)
    requires cur.InWrite?
    ensures r.InWrite?
  {
    InWrite(cur.iova, cur.rkey, cur.dmalen, written)
  }

  /** The bytes go to the remote buffer, of which the mapping says check. */
  function WriteTo(env: Env, check: Check, sge: Sge, d: Data, cur: Progress, payload: seq<byte>,
          imm: Option<uint32>): Outcome
    requires cur.InWrite? && sge.length <= |payload|
  {
    match check
    case Overflows => Overrun
    case Fails => Refused(d.(cur := cur), false)
    case Miscounts => Aborted
    case Good =>
      var next := Wrote(cur, (cur.written + |payload|) % WORD);
      var t := Hosts(env.mrs, G.LocRange(sge.key, sge.addr, sge.length));
      WriteDone(d.(cur := next, mem := Write(d.mem, t, payload[..sge.length])), imm)
  }

  /** The remote buffer where the cursor stands. */
  function NextSge(cur: Progress, size: nat): Sge
    requires cur.InWrite?
  {
    Sge(cur.iova + cur.written, size % WORD, cur.rkey)
  }

  /** The bytes go to where the cursor stands; imm is present in a packet that consumes a
      receive request. */
  function StoreAt(env: Env, d: Data, cur: Progress, payload: seq<byte>, imm: Option<uint32>): Outcome
    requires cur.InWrite?
  {
    var sge := NextSge(cur, |payload|);
    WriteTo(env, MapCheck(env, [sge], RemoteUse(env)), sge, d, cur, payload, imm)
  }

  /** After the bytes are stored. */
  function WriteDone(d: Data, imm: Option<uint32>): Outcome
    requires d.cur.InWrite?
  {
    if imm.None? then Took(d)
    else if d.rq == [] then Refused(d, false)
    else Took(d.(cur := Idle, rq := d.rq[1..],
                 cq := d.cq + [Wc(d.rq[0].wrId, WcRecvRdmaWithImm, RecvFlags(imm), d.cur.written)]))
  }

  /** reth is the address of a first packet. */
  function WritePayload(env: Env, d: Data, payload: seq<byte>, reth: Option<(nat, uint32, nat)>, imm: Option<uint32>,
          inProcess: bool): Outcome
    requires inProcess || reth.Some?
  {
    if inProcess != WriteOpen(d) then Refused(d, true)
    else if inProcess && d.cur.InBoth? then Aborted
    else
      var cur := if inProcess then d.cur else InWrite(reth.value.0, reth.value.1, reth.value.2, 0);
      StoreAt(env, d, cur, payload, imm)
  }

  // ----- dispatch

  function RethOf(eth: Eth): Option<(nat, uint32, nat)> {
    match eth
    case Reth(va, rkey, dmalen) => Some((va, rkey, dmalen))
    case RethImmdt(va, rkey, dmalen, _) => Some((va, rkey, dmalen))
    case _ => None
  }

  function ImmOf(eth: Eth): Option<uint32> {
    match eth
    case Immdt(imm) => Some(imm)
    case RethImmdt(_, _, _, imm) => Some(imm)
    case _ => None
  }

  predicate OfWrite(op: Opcode) {
    match op
    case WriteFirst | WriteMiddle | WriteLast | WriteLastImm | WriteOnly | WriteOnlyImm => true
    case _ => false
  }

  /** What a request packet with the expected number does to the data.  A packet without
      the extended header of its opcode is corrupted, and there is no case for the
      invalidating opcodes. */
  function Receive(env: Env, d: Data, pkt: Pkt): Outcome {
    var reth, imm := RethOf(pkt.eth), ImmOf(pkt.eth);
    match pkt.opcode
    case SendFirst => RecvPayload(env, d, pkt.payload, None, false, false)
    case SendMiddle => RecvPayload(env, d, pkt.payload, None, true, false)
    case SendLast => RecvPayload(env, d, pkt.payload, None, true, true)
    case SendOnly => RecvPayload(env, d, pkt.payload, None, false, true)
    case SendLastImm =>
      if imm.None? then Refused(d, false) else RecvPayload(env, d, pkt.payload, imm, true, true)
    case SendOnlyImm =>
      if imm.None? then Refused(d, false) else RecvPayload(env, d, pkt.payload, imm, false, true)
    case WriteFirst | WriteOnly =>
      if reth.None? then Refused(d, false) else WritePayload(env, d, pkt.payload, reth, None, false)
    case WriteMiddle | WriteLast => WritePayload(env, d, pkt.payload, None, None, true)
    case WriteLastImm =>
      if imm.None? then Refused(d, false) else WritePayload(env, d, pkt.payload, None, imm, true)
    case WriteOnlyImm =>
      if reth.None? || imm.None? then Refused(d, false) else WritePayload(env, d, pkt.payload, reth, imm, false)
    case SendLastInv | SendOnlyInv => Refused(d, false)
  }

  // ----- sequence numbers

  datatype Verdict = Expected | Duplicate | OutOfSequence

  /** What the responder makes of a number. */
  function Judge(rqPsn: uint32, psn: psn24): Verdict {
    var d := (psn - rqPsn) % PSN_SPACE;
    if d == 0 then Expected else if d <= HALF_SPACE then OutOfSequence else Duplicate
  }

  /** The number was the expected one, and this is what came of the packet. */
  function Conclude(r: Rsp, pkt: Pkt, out: Outcome): Rsp {
    match out
    case Aborted => r.(inNak := false)
    case Overrun => r.(inNak := false)
    case Refused(d, nak) =>
      r.(inNak := false, data := d, replies := r.replies + if nak then [Reply(true, Wrap(r.rqPsn))] else [])
    case Took(d) => Rsp(Inc(r.rqPsn), false, d, r.replies + if pkt.ack then [Reply(false, pkt.psn)] else [])
  }

  /** One request packet arrives. */
  function RecvRc(env: Env, r: Rsp, pkt: Pkt): Rsp {
    match Judge(r.rqPsn, pkt.psn)
    case Duplicate => r
    case OutOfSequence =>
      if r.inNak then r else r.(inNak := true, replies := r.replies + [Reply(true, Wrap(r.rqPsn))])
    case Expected => Conclude(r, pkt, Receive(env, r.data, pkt))
  }

  /** A request arrives of which only the number can be read: its opcode is not served, or
      its extended header is cut short. */
  function RecvBroken(r: Rsp, psn: psn24): Rsp {
    match Judge(r.rqPsn, psn)
    case Duplicate => r
    case OutOfSequence =>
      if r.inNak then r else r.(inNak := true, replies := r.replies + [Reply(true, Wrap(r.rqPsn))])
    case Expected => r.(inNak := false)
  }

  /** It does what a packet does that is refused without a mark or a NAK. */
  lemma {:induction false} BrokenIsRefused(env: Env, r: Rsp, pkt: Pkt)
    requires Judge(r.rqPsn, pkt.psn) == Expected ==> Receive(env, r.data, pkt) == Refused(r.data, false)
    ensures RecvRc(env, r, pkt) == RecvBroken(r, pkt.psn)
  {
    assert r.replies + [] == r.replies;
  }

  function PostRecv(r: Rsp, wr: RecvWr): Rsp {
    r.(data := r.data.(rq := r.data.rq + [wr]))
  }

  /** The two comparisons that classify a number: 2^23 ahead still counts as ahead, and
      everything farther as behind. */
  lemma {:induction false} JudgeTest(rqPsn: psn24, psn: psn24)
    ensures match Judge(rqPsn, psn)
      case Expected => Compare(rqPsn, psn) == 0
      case Duplicate => Compare(rqPsn, psn) > 0
      case OutOfSequence => Compare(rqPsn, psn) < 0
  {
    CompareIsSigned(rqPsn, psn);
    var d := (psn - rqPsn) % PSN_SPACE;
    assert (rqPsn - psn) % PSN_SPACE == (-d) % PSN_SPACE;
  }

  /** Enough of a list is ready for a payload of at most a page. */
  predicate RoomFor(env: Env, wr: RecvWr, payload: seq<byte>) {
    && wr.sges != [] && wr.idx == 0 && wr.off == 0
    && P.PageSizeOk(env.pageSize) && |wr.sges| <= P.MAX_SGE && AllReady(env.mrs, LocalUse(env), wr.sges)
    && |payload| <= SgeLen(wr.sges) < WORD && |payload| <= env.pageSize
  }

  lemma {:induction false} RoomMaps(env: Env, wr: RecvWr, payload: seq<byte>) returns (cut: G.Cut)
    requires RoomFor(env, wr, payload)
    ensures G.LocsFrom(wr.sges, 0, 0) == G.Locs(wr.sges) && G.LengthFits(wr.sges, 0, 0)
    ensures cut == G.Advance(wr.sges, |payload|, 0, 0) && |G.Locs(cut.sges)| == |payload|
    ensures MapCheck(env, cut.sges, LocalUse(env)) == Good
    ensures Hosts(env.mrs, G.Locs(cut.sges)) == Hosts(env.mrs, G.Locs(wr.sges))[..|payload|]
  {
    assert wr.sges[0..] == wr.sges && G.LocsFrom(wr.sges, 0, 0) == G.Locs(wr.sges);
    cut := G.Advance(wr.sges, |payload|, 0, 0);
    G.AdvanceTakesPrefix(wr.sges, |payload|, 0, 0);
    PiecesReady(env.mrs, LocalUse(env), wr.sges, |payload|, 0, 0);
    ReadyIsGood(env, cut.sges, LocalUse(env));
  }

  /** A payload that begins a message goes to the first bytes of the next request. */
  lemma {:induction false} TakenAtOnce(env: Env, d: Data, payload: seq<byte>, imm: Option<uint32>, complete: bool)
    requires d.cur == Idle && d.rq != [] && RoomFor(env, d.rq[0], payload)
    ensures var out := RecvPayload(env, d, payload, imm, false, complete);
      out.Took? && out.data.mem == Write(d.mem, Hosts(env.mrs, G.Locs(d.rq[0].sges))[..|payload|], payload)
  {
    var wr := d.rq[0];
    var cut := RoomMaps(env, wr, payload);
    var d1 := d.(cur := InSend(wr), rq := d.rq[1..]);
    assert PopRecvWr(d, false) == TheWr(wr, d1);
    FillGood(env, wr, d1, payload, imm, complete, cut);
  }

  lemma {:induction false} FillGood(env: Env, wr: RecvWr, d: Data, payload: seq<byte>, imm: Option<uint32>,
          complete: bool, cut: G.Cut)
    requires G.LengthFits(wr.sges, wr.idx, wr.off) && |payload| <= |G.LocsFrom(wr.sges, wr.idx, wr.off)|
    requires cut == G.Advance(wr.sges, |payload|, wr.idx, wr.off) && |G.Locs(cut.sges)| == |payload|
    requires MapCheck(env, cut.sges, LocalUse(env)) == Good
    ensures FillWr(env, wr, d, payload, imm, complete)
         == StoreTo(env, Good, cut.sges, wr.(idx := cut.idx, off := cut.off), d, payload, imm, complete)
  {
  }

  predicate BeginsSend(pkt: Pkt) {
    pkt.opcode.SendFirst? || pkt.opcode.SendOnly? || (pkt.opcode.SendOnlyImm? && pkt.eth.Immdt?)
  }

  lemma {:induction false} BeginDispatch(env: Env, d: Data, pkt: Pkt)
    requires BeginsSend(pkt)
    ensures Receive(env, d, pkt)
         == RecvPayload(env, d, pkt.payload, if pkt.opcode.SendOnlyImm? then ImmOf(pkt.eth) else None, false,
                        !pkt.opcode.SendFirst?)
  {
  }

  /** A first or only SEND packet that finds no receive request changes nothing but the
      NAK flag; once a request that is large enough is posted, the same packet is taken. */
  lemma {:induction false} RefusedSendCanBeRetried(env: Env, r: Rsp, pkt: Pkt, wr: RecvWr)
    requires Judge(r.rqPsn, pkt.psn) == Expected && BeginsSend(pkt)
    requires r.data.cur == Idle && r.data.rq == [] && RoomFor(env, wr, pkt.payload)
    ensures RecvRc(env, r, pkt) == r.(inNak := false)
    ensures var r1 := RecvRc(env, PostRecv(RecvRc(env, r, pkt), wr), pkt);
      && r1.rqPsn == Inc(r.rqPsn)
      && r1.data.mem == Write(r.data.mem, Hosts(env.mrs, G.Locs(wr.sges))[..|pkt.payload|], pkt.payload)
      && r1.replies == r.replies + if pkt.ack then [Reply(false, pkt.psn)] else []
  {
    var posted := PostRecv(r.(inNak := false), wr);
    assert r.replies + [] == r.replies;
    BeginDispatch(env, r.data, pkt);
    BeginDispatch(env, posted.data, pkt);
    TakenAtOnce(env, posted.data, pkt.payload, if pkt.opcode.SendOnlyImm? then ImmOf(pkt.eth) else None,
                !pkt.opcode.SendFirst?);
  }
}
