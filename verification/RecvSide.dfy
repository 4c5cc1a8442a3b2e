/**
 The receive side as the code runs it: cursors that move, vectors that are built in
 fixed arrays, and bytes that are copied entry by entry out of a packet's buffers.
 */
module RecvSide {
  import opened Psn
  import opened Types
  import opened Scatter
  import opened Translate
  import opened Buffers
  import R = Responder
  import G = Gather
  import P = Pages

  /** What a payload handler returns; Abort stands for a failed assertion, Overrun for a
      vector that is longer than the array it is written to. */
  datatype Ret = Ok | Fail | Abort | Overrun

  /** What a handler returns and leaves behind is what the specification says. */
  predicate Matches(out: R.Outcome, ret: Ret, after: R.Data) {
    match out
    case Took(d) => ret == Ok && after == d
    case Refused(d, _) => ret == Fail && after == d
    case Aborted => ret == Abort
    case Overrun => ret == Overrun
  }

  /** What mapping a list and copying to it returns. */
  function RetOf(check: R.Check): Ret {
    match check
    case Overflows => Overrun
    case Fails => Fail
    case Miscounts => Abort
    case Good => Ok
  }

  /** A receive request whose regions have a page for every byte, with its cursor at one. */
  predicate Usable(env: R.Env, wr: R.RecvWr) {
    && AllBacked(env.mrs, wr.sges)
    && |wr.sges| <= P.MAX_SGE
    && AtByte(wr.sges, wr.idx, wr.off)
  }

  predicate AllUsable(env: R.Env, rq: seq<R.RecvWr>) {
    forall i :: 0 <= i < |rq| ==> Usable(env, rq[i])
  }

  /** A list of buffers no longer in all than the pages of their regions fits the array. */
  lemma {:induction false} ShortListFits(env: R.Env, sges: seq<Sge>, u: Use)
    requires RegionsAtLeast(env.mrs, sges, SgeLen(sges)) && |sges| <= P.MAX_SGE
    ensures !R.MapCheck(env, sges, u).Overflows?
  {
    ShortVector(env.mrs, sges);
    NeededAtMost(env.mrs, u.pd, sges, u.local, u.access);
  }

  /** Every region has pages of this size at least. */
  predicate PagesAtLeast(mrs: MrTable, size: nat) {
    forall i :: 0 <= i < |mrs| && mrs[i].Some? ==> mrs[i].value.pageSize >= size
  }

  lemma {:induction false} AllAtLeast(mrs: MrTable, sges: seq<Sge>, size: nat)
    requires PagesAtLeast(mrs, size)
    ensures RegionsAtLeast(mrs, sges, size)
  {
  }

  lemma {:induction false} ShortFillFits(env: R.Env, wr: R.RecvWr, d: R.Data, payload: seq<byte>, imm: Option<uint32>,
          complete: bool)
    requires Usable(env, wr) && PagesAtLeast(env.mrs, |payload|)
    ensures R.FillWr(env, wr, d, payload, imm, complete) != R.Overrun
  {
    if G.LengthFits(wr.sges, wr.idx, wr.off) && |payload| <= |G.LocsFrom(wr.sges, wr.idx, wr.off)| {
      var cut := G.Advance(wr.sges, |payload|, wr.idx, wr.off);
      PieceFacts(env, wr, |payload|);
      AllAtLeast(env.mrs, cut.sges, |payload|);
      ShortListFits(env, cut.sges, R.LocalUse(env));
      G.AdvanceTakesPrefix(wr.sges, |payload|, wr.idx, wr.off);
    }
  }

  lemma {:induction false} ShortWriteFits(env: R.Env, d: R.Data, cur: R.Progress, payload: seq<byte>,
          imm: Option<uint32>)
    requires cur.InWrite? && |payload| < WORD && PagesAtLeast(env.mrs, |payload|)
    ensures R.StoreAt(env, d, cur, payload, imm) != R.Overrun
  {
    var e := R.NextSge(cur, |payload|);
    OneEntry(env.mrs, e);
    AllAtLeast(env.mrs, [e], |payload|);
    ShortListFits(env, [e], R.RemoteUse(env));
  }

  /** A payload no longer than the pages of the regions never overruns the array, wherever
      its packet goes. */
  lemma {:induction false} ShortPayloadFits(env: R.Env, d: R.Data, pkt: Pkt)
    requires AllUsable(env, d.rq) && (d.cur.InSend? || d.cur.InBoth? ==> Usable(env, d.cur.wr))
    requires |pkt.payload| < WORD && PagesAtLeast(env.mrs, |pkt.payload|)
    ensures R.Receive(env, d, pkt) != R.Overrun
  {
    if R.OfWrite(pkt.opcode) {
      ShortWritesFit(env, d, pkt.payload);
    } else {
      ShortSendsFit(env, d, pkt.payload);
    }
  }

  lemma {:induction false} ShortWritesFit(env: R.Env, d: R.Data, payload: seq<byte>)
    requires |payload| < WORD && PagesAtLeast(env.mrs, |payload|)
    ensures forall reth: Option<(nat, uint32, nat)>, imm: Option<uint32>, inProcess | inProcess || reth.Some? ::
      R.WritePayload(env, d, payload, reth, imm, inProcess) != R.Overrun
  {
    forall reth: Option<(nat, uint32, nat)>, imm: Option<uint32>, inProcess | inProcess || reth.Some?
      ensures R.WritePayload(env, d, payload, reth, imm, inProcess) != R.Overrun
    {
      if inProcess == R.WriteOpen(d) && !(inProcess && d.cur.InBoth?) {
        var cur := if inProcess then d.cur else R.InWrite(reth.value.0, reth.value.1, reth.value.2, 0);
        ShortWriteFits(env, d, cur, payload, imm);
      }
    }
  }

  lemma {:induction false} ShortSendsFit(env: R.Env, d: R.Data, payload: seq<byte>)
    requires AllUsable(env, d.rq) && (d.cur.InSend? || d.cur.InBoth? ==> Usable(env, d.cur.wr))
    requires PagesAtLeast(env.mrs, |payload|)
    ensures forall imm, inProcess, complete ::
      R.RecvPayload(env, d, payload, imm, inProcess, complete) != R.Overrun
  {
    forall imm: Option<uint32>, inProcess, complete
      ensures R.RecvPayload(env, d, payload, imm, inProcess, complete) != R.Overrun
    {
      var popped := R.PopRecvWr(d, inProcess);
      if popped.TheWr? {
        ShortFillFits(env, popped.wr, popped.data, payload, imm, complete);
      }
    }
  }

  /** The next bytes of a usable request: they are backed, and the request stays usable. */
  lemma {:induction false} PieceFacts(env: R.Env, wr: R.RecvWr, size: nat)
    requires Usable(env, wr) && size <= |G.LocsFrom(wr.sges, wr.idx, wr.off)|
    ensures var cut := G.Advance(wr.sges, size, wr.idx, wr.off);
      && AllBacked(env.mrs, cut.sges) && |cut.sges| <= P.MAX_SGE && SgeLen(cut.sges) == size
      && Usable(env, wr.(idx := cut.idx, off := cut.off))
  {
    PiecesReady(env.mrs, R.LocalUse(env), wr.sges, size, wr.idx, wr.off);
    PiecesAreParts(wr.sges, size, wr.idx, wr.off);
  }

  /** filled has completed, or is in progress; cur is the union before. */
  function Finished(cur: R.Progress, filled: R.RecvWr, rq: seq<R.RecvWr>, mem: Mem, cq: seq<Wc>, imm: Option<uint32>,
          complete: bool): R.Data
  {
    if complete then R.Data(R.Cleared(cur), rq, mem, cq + [Wc(filled.wrId, WcRecv, R.RecvFlags(imm), filled.byteLen)])
    else R.Data(R.Pointing(cur, filled), rq, mem, cq)
  }

  lemma {:induction false} PointTwice(cur: R.Progress, wr: R.RecvWr, next: R.RecvWr)
    ensures R.Pointing(R.Pointing(cur, wr), next) == R.Pointing(cur, next)
    ensures R.Cleared(R.Pointing(cur, wr)) == R.Cleared(cur)
  {
  }

  /** A payload of this size goes to the buffers of the cut, of which the mapping says check. */
  ghost predicate PayloadGoes(env: R.Env, wr: R.RecvWr, size: nat, cut: G.Cut, check: R.Check) {
    && G.LengthFits(wr.sges, wr.idx, wr.off) && size <= |G.LocsFrom(wr.sges, wr.idx, wr.off)|
    && cut == G.Advance(wr.sges, size, wr.idx, wr.off) && SgeLen(cut.sges) == size
    && check == R.MapCheck(env, cut.sges, R.LocalUse(env))
  }

  lemma {:induction false} StoreOutcome(env: R.Env, wr: R.RecvWr, d: R.Data, payload: seq<byte>, imm: Option<uint32>,
          complete: bool)
    returns (cut: G.Cut, check: R.Check)
    requires G.LengthFits(wr.sges, wr.idx, wr.off) && |payload| <= |G.LocsFrom(wr.sges, wr.idx, wr.off)|
    ensures PayloadGoes(env, wr, |payload|, cut, check)
    ensures R.StoreIn(env, wr, d, payload, imm, complete)
         == Stored(env, check, cut.sges, wr.(idx := cut.idx, off := cut.off), d, payload, imm, complete)
  {
    cut := G.Advance(wr.sges, |payload|, wr.idx, wr.off);
    check := R.MapCheck(env, cut.sges, R.LocalUse(env));
    G.AdvanceTakesPrefix(wr.sges, |payload|, wr.idx, wr.off);
    StoredIs(env, check, cut.sges, wr.(idx := cut.idx, off := cut.off), d, payload, imm, complete);
  }

  /** What mapping and copying the payload comes to. */
  function Stored(env: R.Env, check: R.Check, pieces: seq<Sge>, moved: R.RecvWr, d: R.Data, payload: seq<byte>,
          imm: Option<uint32>, complete: bool): R.Outcome
    requires SgeLen(pieces) == |payload|
  {
    match RetOf(check)
    case Overrun => R.Overrun
    case Fail => R.Refused(R.Data(R.Pointing(d.cur, moved), d.rq, d.mem, d.cq), false)
    case Abort => R.Aborted
    case Ok => R.Took(Finished(R.Pointing(d.cur, moved), moved.(byteLen := moved.byteLen + |payload|), d.rq,
                               Write(d.mem, Hosts(env.mrs, G.Locs(pieces)), payload), d.cq, imm, complete))
  }

  lemma {:induction false} StoredMatches(env: R.Env, check: R.Check, pieces: seq<Sge>, moved: R.RecvWr, d: R.Data,
          payload: seq<byte>, imm: Option<uint32>, complete: bool, ret: Ret, after: R.Data)
    requires SgeLen(pieces) == |payload| && ret == RetOf(check)
    requires ret == Fail ==> after == R.Data(R.Pointing(d.cur, moved), d.rq, d.mem, d.cq)
    requires ret == Ok ==>
      after == Finished(R.Pointing(d.cur, moved), moved.(byteLen := moved.byteLen + |payload|), d.rq,
                        Write(d.mem, Hosts(env.mrs, G.Locs(pieces)), payload), d.cq, imm, complete)
    ensures Matches(Stored(env, check, pieces, moved, d, payload, imm, complete), ret, after)
  {
  }

  lemma {:induction false} StoredIs(env: R.Env, check: R.Check, pieces: seq<Sge>, moved: R.RecvWr, d: R.Data,
          payload: seq<byte>, imm: Option<uint32>, complete: bool)
    requires SgeLen(pieces) == |payload|
    ensures R.StoreTo(env, check, pieces, moved, d, payload, imm, complete)
         == Stored(env, check, pieces, moved, d, payload, imm, complete)
  {
    PointTwice(d.cur, moved, moved.(byteLen := moved.byteLen + |payload|));
  }

  /** One queue pair's receive side.  cq and replies record the calls of the completion
      and network callbacks; net is the memory that a packet's buffers lie in. */
  class Receiver {
    const env: R.Env
    var rqPsn: uint32
    var inNak: bool
    var cur: R.Progress
    var rq: seq<R.RecvWr>
    var mem: Mem
    var cq: seq<Wc>
    var replies: seq<R.Reply>

    ghost function Content(): R.Data
      reads this
    {
      R.Data(cur, rq, mem, cq)
    }

    ghost function State(): R.Rsp
      reads this
    {
      R.Rsp(rqPsn, inNak, Content(), replies)
    }

    ghost predicate Valid()
      reads this
    {
      && P.PageSizeOk(env.pageSize) && rqPsn < PSN_SPACE
      && AllUsable(env, rq) && (cur.InSend? || cur.InBoth? ==> Usable(env, cur.wr))
    }

    constructor (env: R.Env, psn: psn24, mem: Mem)
      requires P.PageSizeOk(env.pageSize)
      ensures Valid() && this.env == env
      ensures State() == R.Rsp(psn, false, R.Data(R.Idle, [], mem, []), [])
    {
      this.env := env;
      rqPsn, inNak, cur, rq, this.mem, cq, replies := psn, false, R.Idle, [], mem, [], [];
    }

    method PostRecv(wr: R.RecvWr)
      requires Valid() && Usable(env, wr)
      modifies this`rq
      ensures Valid() && State() == R.PostRecv(old(State()), wr)
    {
      rq := rq + [wr];
    }

    /** Moves the first bytes of the packet to the buffers dst, one after the other. */
    method CopyOut(iovs: array<Iovec>, net: Mem, dst: seq<Iovec>)
      requires |Addrs(dst)| <= |Addrs(iovs[..])|
      modifies this`mem, iovs
      ensures mem == Write(old(mem), Addrs(dst), Read(net, old(Addrs(iovs[..]))[..|Addrs(dst)|]))
    {
      ghost var a := Addrs(iovs[..]);
      assert dst[..0] == [];
      for i := 0 to |dst|
        invariant var done := Addrs(dst[..i]);
          && |done| <= |a| && Addrs(iovs[..]) == a[|done|..]
          && mem == Write(old(mem), done, Read(net, a[..|done|]))
      {
        ghost var done, m := Addrs(dst[..i]), mem;
        AddrsPrefix(dst, i);
        assert |done| + dst[i].len <= |a| by { AddrsAt(dst, i); }
        var buf := IovAdvance(net, iovs, dst[i].len);
        mem := Write(mem, Range(dst[i].base, dst[i].len), buf);
        CopyStep(old(mem), net, a, done, dst[i], buf);
      }
      assert dst[..|dst|] == dst;
    }

    /** Translates the list and moves the bytes of the packet there; the number of
        vector entries is asserted to be the number of pages. */
    method MapAndCopy(sges: seq<Sge>, u: Use, iovs: array<Iovec>, net: Mem) returns (ret: Ret)
      requires u.pageSize == env.pageSize > 0
      requires AllBacked(env.mrs, sges) && SgeLen(sges) == |Addrs(iovs[..])|
      modifies this`mem, iovs
      ensures ret == RetOf(R.MapCheck(env, sges, u))
      ensures mem == if ret == Ok then Write(old(mem), Hosts(env.mrs, G.Locs(sges)), Read(net, old(Addrs(iovs[..]))))
                     else old(mem)
    {
      var dst := new Iovec[R.MAX_IOV];
      BackedList(env.mrs, sges);
      var n, overrun := MapSge(env.mrs, u.pd, sges, dst, u.local, u.access);
      if overrun {
        return Overrun;
      }
      if n < 0 {
        return Fail;
      }
      MapSize(env.mrs, u.pd, sges, u.local, u.access);
      var pages := P.CountPages(sges, env.pageSize);
      if n != pages {
        return Abort;
      }
      MapTranslates(env.mrs, u.pd, sges, u.local, u.access);
      assert Addrs(iovs[..])[..SgeLen(sges)] == Addrs(iovs[..]);
      CopyOut(iovs, net, dst[..n]);
      return Ok;
    }

    /** The request in progress, or else the next one. */
    method PopWr(inProcess: bool) returns (wr: Option<R.RecvWr>, wild: bool)
      requires Valid()
      modifies this`cur, this`rq
      ensures Valid() && (wr.Some? ==> Usable(env, wr.value))
      ensures match R.PopRecvWr(old(Content()), inProcess)
        case NoWr => wr == None && !wild && Content() == old(Content())
        case WildWr => wild
        case TheWr(w, d) => wr == Some(w) && !wild && Content() == d
    {
      var pointer := R.WrPointer(cur);
      if inProcess != (pointer != R.Null) {
        return None, false;
      }
      if pointer == R.Wild {
        return None, true;
      }
      if pointer.ToWr? {
        return Some(pointer.wr), false;
      }
      if rq == [] {
        return None, false;
      }
      wr, wild := Some(rq[0]), false;
      cur := R.Pointing(cur, rq[0]);
      rq := rq[1..];
    }

    /** The request completes, or stays in progress. */
    method Finish(filled: R.RecvWr, imm: Option<uint32>, complete: bool)
      requires Valid() && Usable(env, filled)
      modifies this`cur, this`cq
      ensures Valid()
      ensures Content() == Finished(old(cur), filled, rq, mem, old(cq), imm, complete)
    {
      if complete {
        cur := R.Cleared(cur);
        cq := cq + [Wc(filled.wrId, WcRecv, R.RecvFlags(imm), filled.byteLen)];
      } else {
        cur := R.Pointing(cur, filled);
      }
    }

    /** The cursor of wr moves past the payload, which goes to the buffers passed over, of
        which the mapping says check. */
    method MoveIn(wr: R.RecvWr, iovs: array<Iovec>, net: Mem, ghost cut: G.Cut, ghost check: R.Check)
      returns (ret: Ret, moved: R.RecvWr)
      requires Valid() && Usable(env, wr) && PayloadGoes(env, wr, |Addrs(iovs[..])|, cut, check)
      modifies this`cur, this`mem, iovs
      ensures Usable(env, moved) && moved == wr.(idx := cut.idx, off := cut.off)
      ensures cur == R.Pointing(old(cur), moved) && ret == RetOf(check)
      ensures var a := old(Addrs(iovs[..]));
        mem == if ret == Ok then Write(old(mem), Hosts(env.mrs, G.Locs(cut.sges)), Read(net, a)) else old(mem)
    {
      var size := IovLen(iovs[..]);
      PieceFacts(env, wr, size);
      var dst := new Sge[P.MAX_SGE];
      var n, idx, off := G.SgeAdvance(wr.sges, size, wr.idx, wr.off, dst);
      var pieces := dst[..n];
      moved := wr.(idx := idx, off := off);
      assert pieces == cut.sges;
      cur := R.Pointing(cur, moved);
      ret := MapAndCopy(pieces, R.LocalUse(env), iovs, net);
    }

    /** The payload goes to the next buffers of wr. */
    method Store(wr: R.RecvWr, iovs: array<Iovec>, net: Mem, imm: Option<uint32>, complete: bool, ghost cut: G.Cut,
            ghost check: R.Check)
      returns (ret: Ret)
      requires Valid() && Usable(env, wr) && PayloadGoes(env, wr, |Addrs(iovs[..])|, cut, check)
      modifies this`cur, this`mem, this`cq, iovs
      ensures Valid()
      ensures Matches(Stored(env, check, cut.sges, wr.(idx := cut.idx, off := cut.off), old(Content()),
                             Read(net, old(Addrs(iovs[..]))), imm, complete),
                      ret, Content())
    {
      var size := IovLen(iovs[..]);
      var moved;
      ret, moved := MoveIn(wr, iovs, net, cut, check);
      if ret == Ok {
        Finish(moved.(byteLen := wr.byteLen + size), imm, complete);
      }
      StoredMatches(env, check, cut.sges, moved, old(Content()), Read(net, old(Addrs(iovs[..]))), imm, complete, ret,
                    Content());
    }

    method Fill(wr: R.RecvWr, iovs: array<Iovec>, net: Mem, imm: Option<uint32>, complete: bool) returns (ret: Ret)
      requires Valid() && Usable(env, wr)
      modifies this`cur, this`mem, this`cq, iovs
      ensures Valid()
      ensures Matches(R.FillWr(env, wr, old(Content()), Read(net, old(Addrs(iovs[..]))), imm, complete), ret, Content())
    {
      var room := G.SgeLength(wr.sges, wr.idx, wr.off);
      if room == None {
        return Abort;
      }
      var size := IovLen(iovs[..]);
      if room.value < size {
        return Fail;
      }
      ghost var cut, check := StoreOutcome(env, wr, Content(), Read(net, Addrs(iovs[..])), imm, complete);
      ret := Store(wr, iovs, net, imm, complete, cut, check);
    }

    method RecvPayload(iovs: array<Iovec>, net: Mem, imm: Option<uint32>, inProcess: bool, complete: bool)
      returns (ret: Ret)
      requires Valid()
      modifies this`cur, this`rq, this`mem, this`cq, iovs
      ensures Valid()
      ensures var out := R.RecvPayload(env, old(Content()), Read(net, old(Addrs(iovs[..]))), imm, inProcess, complete);
        Matches(out, ret, Content()) && (out.Refused? ==> !out.nak)
    {
      SendsMeetNoNak(env, Content(), Read(net, Addrs(iovs[..])), imm, inProcess, complete);
      var wr, wild := PopWr(inProcess);
      if wild {
        return Abort;
      }
      if wr == None {
        return Fail;
      }
      ret := Fill(wr.value, iovs, net, imm, complete);
    }

    /** The payload goes to the next bytes of the remote buffer, of which the mapping says
        check and which lie at t. */
    method StoreWrite(iovs: array<Iovec>, net: Mem, ghost check: R.Check, ghost t: seq<nat>) returns (ret: Ret)
      requires Valid() && cur.InWrite? && |Addrs(iovs[..])| < WORD
      requires Backed(env.mrs, R.NextSge(cur, |Addrs(iovs[..])|))
      requires WriteGoes(env, cur, |Addrs(iovs[..])|, check, t)
      modifies this`cur, this`mem, iovs
      ensures var a := old(Addrs(iovs[..]));
        && ret == RetOf(check)
        && cur == (if ret == Ok then R.Wrote(old(cur), (old(cur).written + |a|) % WORD) else old(cur))
        && mem == if ret == Ok then Write(old(mem), t, Read(net, a)) else old(mem)
    {
      var size := IovLen(iovs[..]);
      var e := R.NextSge(cur, size);
      OneEntry(env.mrs, e);
      ret := MapAndCopy([e], R.RemoteUse(env), iovs, net);
      if ret == Ok {
        cur := R.Wrote(cur, (cur.written + size) % WORD);
      }
    }

    /** The packet with an immediate takes a receive request. */
    method FinishWrite(imm: Option<uint32>) returns (ret: Ret)
      requires Valid() && cur.InWrite?
      modifies this`cur, this`rq, this`cq
      ensures Valid()
      ensures Matches(R.WriteDone(old(Content()), imm), ret, Content())
    {
      if imm.Some? {
        if rq == [] {
          return Fail;
        }
        cq := cq + [Wc(rq[0].wrId, WcRecvRdmaWithImm, R.RecvFlags(imm), cur.written)];
        cur, rq := R.Idle, rq[1..];
      }
      return Ok;
    }

    /** An RDMA WRITE payload; reth is the address of a first packet, imm is there in a packet
        that takes a receive request. */
    method WritePayload(iovs: array<Iovec>, net: Mem, reth: Option<(nat, uint32, nat)>, imm: Option<uint32>,
            inProcess: bool)
      returns (ret: Ret)
      requires Valid() && |Addrs(iovs[..])| < WORD && (inProcess || reth.Some?)
      requires WriteBacked(env, cur, reth, inProcess, |Addrs(iovs[..])|)
      modifies this`cur, this`rq, this`mem, this`cq, this`replies, iovs
      ensures Valid()
      ensures var out := R.WritePayload(env, old(Content()), Read(net, old(Addrs(iovs[..]))), reth, imm, inProcess);
        && Matches(out, ret, Content())
        && replies == old(replies) + if out.Refused? && out.nak then [R.Reply(true, Wrap(rqPsn))] else []
    {
      assert replies + [] == replies;
      if inProcess != ((cur.InWrite? || cur.InBoth?) && cur.written != 0) {
        replies := replies + [R.Reply(true, Wrap(rqPsn))];
        return Fail;
      }
      if inProcess && cur.InBoth? {
        return Abort;
      }
      if !inProcess {
        cur := R.InWrite(reth.value.0, reth.value.1, reth.value.2, 0);
      }
      StoreAtIgnoresCur(env, old(Content()), Content(), cur, Read(net, Addrs(iovs[..])), imm);
      ret := WriteAt(iovs, net, imm);
    }

    /** The cursor stands where the payload goes. */
    method WriteAt(iovs: array<Iovec>, net: Mem, imm: Option<uint32>) returns (ret: Ret)
      requires Valid() && cur.InWrite? && |Addrs(iovs[..])| < WORD && Backed(env.mrs, R.NextSge(cur, |Addrs(iovs[..])|))
      modifies this`cur, this`rq, this`mem, this`cq, iovs
      ensures Valid()
      ensures var out := R.StoreAt(env, old(Content()), old(cur), Read(net, old(Addrs(iovs[..]))), imm);
        Matches(out, ret, Content()) && (out.Refused? ==> !out.nak)
    {
      ghost var check, t := WriteOutcome(env, Content(), cur, Read(net, Addrs(iovs[..])), imm);
      ret := StoreWrite(iovs, net, check, t);
      if ret == Ok {
        ret := FinishWrite(imm);
      }
    }

    method HandleSend(pkt: Pkt, iovs: array<Iovec>, net: Mem) returns (ret: Ret)
      requires Valid() && pkt.payload == Read(net, Addrs(iovs[..]))
      requires !R.OfWrite(pkt.opcode)
      modifies this`cur, this`rq, this`mem, this`cq, iovs
      ensures Valid()
      ensures var out := R.Receive(env, old(Content()), pkt);
        Matches(out, ret, Content()) && (out.Refused? ==> !out.nak)
    {
      var imm := R.ImmOf(pkt.eth);
      match pkt.opcode
      case SendFirst => ret := RecvPayload(iovs, net, None, false, false);
      case SendMiddle => ret := RecvPayload(iovs, net, None, true, false);
      case SendLast => ret := RecvPayload(iovs, net, None, true, true);
      case SendOnly => ret := RecvPayload(iovs, net, None, false, true);
      case SendLastImm =>
        if imm == None {
          return Fail;
        }
        ret := RecvPayload(iovs, net, imm, true, true);
      case SendOnlyImm =>
        if imm == None {
          return Fail;
        }
        ret := RecvPayload(iovs, net, imm, false, true);
      case _ => ret := Fail;
    }

    method HandleWrite(pkt: Pkt, iovs: array<Iovec>, net: Mem) returns (ret: Ret)
      requires Valid() && |Addrs(iovs[..])| < WORD && pkt.payload == Read(net, Addrs(iovs[..]))
      requires R.OfWrite(pkt.opcode) && PacketBacked(env, Content(), pkt)
      modifies this`cur, this`rq, this`mem, this`cq, this`replies, iovs
      ensures Valid()
      ensures var out := R.Receive(env, old(Content()), pkt);
        && Matches(out, ret, Content())
        && replies == old(replies) + if out.Refused? && out.nak then [R.Reply(true, Wrap(rqPsn))] else []
    {
      assert replies + [] == replies;
      var reth, imm := R.RethOf(pkt.eth), R.ImmOf(pkt.eth);
      match pkt.opcode
      case WriteFirst | WriteOnly =>
        if reth == None {
          return Fail;
        }
        ret := WritePayload(iovs, net, reth, None, false);
      case WriteMiddle | WriteLast => ret := WritePayload(iovs, net, None, None, true);
      case WriteLastImm =>
        if imm == None {
          return Fail;
        }
        ret := WritePayload(iovs, net, None, imm, true);
      case WriteOnlyImm =>
        if reth == None || imm == None {
          return Fail;
        }
        ret := WritePayload(iovs, net, reth, imm, false);
    }

    method OutOfSeq()
      modifies this`inNak, this`replies
      ensures inNak && replies == old(replies) + if old(inNak) then [] else [R.Reply(true, Wrap(rqPsn))]
    {
      assert replies + [] == replies;
      if !inNak {
        replies := replies + [R.Reply(true, Wrap(rqPsn))];
        inNak := true;
      }
    }

    /** A request arrives of which only the number can be read. */
    method RecvBroken(psn: psn24)
      requires Valid()
      modifies this`inNak, this`replies
      ensures Valid() && State() == R.RecvBroken(old(State()), psn)
    {
      R.JudgeTest(rqPsn, psn);
      var diff := Compare(rqPsn, psn);
      if diff < 0 {
        OutOfSeq();
        assert old(inNak) ==> replies == old(replies);
      } else if diff == 0 {
        inNak := false;
      }
    }

    /** A request packet arrives; its extended header is off, and the rest of it is in iovs. */
    method RecvRc(pkt: Pkt, iovs: array<Iovec>, net: Mem) returns (aborted: bool, overrun: bool)
      requires Valid() && |Addrs(iovs[..])| < WORD && pkt.payload == Read(net, Addrs(iovs[..]))
      requires PacketBacked(env, Content(), pkt)
      modifies this, iovs
      ensures Valid()
      ensures aborted <==> R.Judge(old(rqPsn), pkt.psn) == R.Expected && R.Receive(env, old(Content()), pkt).Aborted?
      ensures overrun <==> R.Judge(old(rqPsn), pkt.psn) == R.Expected && R.Receive(env, old(Content()), pkt).Overrun?
      ensures !aborted && !overrun ==> State() == R.RecvRc(env, old(State()), pkt)
    {
      R.JudgeTest(rqPsn, pkt.psn);
      var diff := Compare(rqPsn, pkt.psn);
      if diff > 0 {
        return false, false;
      } else if diff < 0 {
        OutOfSeq();
        return false, false;
      }
      inNak := false;
      var ret;
      if R.OfWrite(pkt.opcode) {
        ret := HandleWrite(pkt, iovs, net);
      } else {
        ret := HandleSend(pkt, iovs, net);
      }
      aborted, overrun := ret == Abort, ret == Overrun;
      if ret == Ok {
        if pkt.ack {
          replies := replies + [R.Reply(false, pkt.psn)];
        }
        rqPsn := Inc(rqPsn);
      }
    }
  }

  /** The packet continues a message. */
  predicate Continues(op: Opcode) {
    op.SendMiddle? || op.SendLast? || op.SendLastImm? || op.WriteMiddle? || op.WriteLast? || op.WriteLastImm?
  }

  /** The region that a WRITE goes to has its pages. */
  predicate PacketBacked(env: R.Env, d: R.Data, pkt: Pkt) {
    R.OfWrite(pkt.opcode) ==>
      WriteBacked(env, d.cur, R.RethOf(pkt.eth), Continues(pkt.opcode), |pkt.payload|)
  }

  lemma {:induction false} SendsMeetNoNak(env: R.Env, d: R.Data, payload: seq<byte>, imm: Option<uint32>,
          inProcess: bool, complete: bool)
    ensures var out := R.RecvPayload(env, d, payload, imm, inProcess, complete); out.Refused? ==> !out.nak
  {
  }

  /** A payload of this size goes to t, of which the mapping says check. */
  ghost predicate WriteGoes(env: R.Env, cur: R.Progress, size: nat, check: R.Check, t: seq<nat>)
    requires cur.InWrite?
  {
    var e := R.NextSge(cur, size);
    |t| == size && check == R.MapCheck(env, [e], R.RemoteUse(env))
    && t == Hosts(env.mrs, G.LocRange(e.key, e.addr, e.length))
  }

  /** What the bytes at t and the cursor past them come to. */
  function Written(d: R.Data, cur: R.Progress, check: R.Check, t: seq<nat>, payload: seq<byte>,
          imm: Option<uint32>): R.Outcome
    requires cur.InWrite? && |t| == |payload|
  {
    match RetOf(check)
    case Overrun => R.Overrun
    case Fail => R.Refused(d.(cur := cur), false)
    case Abort => R.Aborted
    case Ok =>
      R.WriteDone(d.(cur := R.Wrote(cur, (cur.written + |payload|) % WORD), mem := Write(d.mem, t, payload)), imm)
  }

  lemma {:induction false} WriteOutcome(env: R.Env, d: R.Data, cur: R.Progress, payload: seq<byte>, imm: Option<uint32>)
    returns (check: R.Check, t: seq<nat>)
    requires cur.InWrite? && |payload| < WORD
    ensures WriteGoes(env, cur, |payload|, check, t)
    ensures R.StoreAt(env, d, cur, payload, imm) == Written(d, cur, check, t, payload, imm)
  {
    var e := R.NextSge(cur, |payload|);
    check := R.MapCheck(env, [e], R.RemoteUse(env));
    t := Hosts(env.mrs, G.LocRange(e.key, e.addr, e.length));
    WriteToIs(env, check, e, d, cur, payload, imm);
  }

  lemma {:induction false} WriteToIs(env: R.Env, check: R.Check, e: Sge, d: R.Data, cur: R.Progress, payload: seq<byte>,
          imm: Option<uint32>)
    requires cur.InWrite? && e.length == |payload|
    ensures R.WriteTo(env, check, e, d, cur, payload, imm)
         == Written(d, cur, check, Hosts(env.mrs, G.LocRange(e.key, e.addr, e.length)), payload, imm)
  {
    assert payload[..|payload|] == payload;
  }

  /** A new cursor replaces the old one. */
  lemma {:induction false} StoreAtIgnoresCur(env: R.Env, d: R.Data, e: R.Data, cur: R.Progress, payload: seq<byte>,
          imm: Option<uint32>)
    requires cur.InWrite? && e == d.(cur := cur)
    ensures R.StoreAt(env, d, cur, payload, imm) == R.StoreAt(env, e, cur, payload, imm)
  {
  }

  /** The buffer that a WRITE packet goes to has its pages, if it goes anywhere. */
  predicate WriteBacked(env: R.Env, cur: R.Progress, reth: Option<(nat, uint32, nat)>, inProcess: bool, size: nat) {
    if inProcess then cur.InWrite? ==> Backed(env.mrs, R.NextSge(cur, size))
    else reth.Some? ==> Backed(env.mrs, Sge(reth.value.0, size % WORD, reth.value.1))
  }

  lemma {:induction false} OneEntry(mrs: MrTable, e: Sge)
    ensures SgeLen([e]) == e.length && G.Locs([e]) == G.LocRange(e.key, e.addr, e.length)
    ensures VectorSize(mrs, [e]) == EntrySize(mrs, e)
  {
    G.LocsOfOne(e);
  }

  lemma {:induction false} CopyStep(mem: Mem, net: Mem, a: seq<nat>, done: seq<nat>, e: Iovec, buf: seq<byte>)
    requires |done| + e.len <= |a| && buf == Read(net, a[|done|..][..e.len])
    ensures var r := Range(e.base, e.len);
      && |r| == |buf|
      && Write(Write(mem, done, Read(net, a[..|done|])), r, buf) == Write(mem, done + r, Read(net, a[..|done + r|]))
      && a[|done|..][e.len..] == a[|done + r|..]
  {
    var r := Range(e.base, e.len);
    WriteConcat(mem, done, Read(net, a[..|done|]), r, buf);
    assert a[..|done|] + a[|done|..][..e.len] == a[..|done + r|];
    ReadConcat(net, a[..|done|], a[|done|..][..e.len]);
  }
}
