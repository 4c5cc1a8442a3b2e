/**
 Protection: which memory a mapping lets through, and what follows for the bytes that an
 arriving packet writes and a request sends.
 */
module Isolation {
  import opened Psn
  import opened Types
  import opened Scatter
  import opened Translate
  import opened Buffers
  import opened Requester
  import opened Segment
  import opened Responder
  import G = Gather
  import P = Pages
  import S = SendSide

  /** An entry passes the checks of the mapping exactly if its key names a region with that
      local or remote key, of the domain, valid, granting the access, and with room for it. */
  lemma {:induction false} AdmittedExactly(mrs: MrTable, pd: nat, e: Sge, local: bool, access: set<Access>)
    ensures Admitted(mrs, pd, e, local, access) <==>
      && e.key / 256 < |mrs| && mrs[e.key / 256].Some?
      && var mr := mrs[e.key / 256].value;
      && (if local then mr.lkey == e.key else mr.rkey == e.key)
      && mr.pd == pd && mr.state == MrValid && access <= mr.access
      && mr.iova <= e.addr && e.addr + e.length <= mr.iova + mr.length
  {
  }

  // ----- the region of one byte

  /** The byte lies in the k-th region, at address l.addr of the guest and a of the host. */
  predicate ByteOf(mrs: MrTable, u: Use, l: G.Loc, k: nat, a: nat) {
    && k == l.key / 256 < |mrs| && mrs[k].Some?
    && var mr := mrs[k].value;
    && (if u.local then mr.lkey == l.key else mr.rkey == l.key)
    && mr.pd == u.pd && mr.state == MrValid && u.access <= mr.access
    && mr.iova <= l.addr < mr.iova + mr.length
    && a == TranslateByte(mr, l.addr)
  }

  /** A region whose vector has a page for every byte translates its addresses in order. */
  lemma {:induction false} RegionInOrder(mr: Mr, x: nat)
    requires Structured(mr) && mr.iova <= x < mr.iova + mr.length
    ensures var at := x - mr.iova + mr.iova % mr.pageSize;
      at < |Addrs(mr.iovs)| && TranslateByte(mr, x) == Addrs(mr.iovs)[at]
  {
    var p := mr.pageSize;
    var at := x - mr.iova + mr.iova % p;
    OffsetInRegion(mr, x);
    PagedAt(mr.iovs, p, at);
    P.DivideBack(p, OffPages(mr, x), x % p);
  }

  lemma {:induction false} LocOfEntry(sges: seq<Sge>, i: nat) returns (n: nat)
    requires i < |G.Locs(sges)|
    ensures n < |sges| && G.Locs(sges)[i].key == sges[n].key
    ensures sges[n].addr <= G.Locs(sges)[i].addr < sges[n].addr + sges[n].length
  {
    if i < sges[0].length {
      n := 0;
    } else {
      n := LocOfEntry(sges[1..], i - sges[0].length);
      n := n + 1;
    }
  }

  lemma {:induction false} ByteIsPermitted(mrs: MrTable, u: Use, sges: seq<Sge>, i: nat)
    requires AllAdmitted(mrs, u.pd, sges, u.local, u.access) && i < |G.Locs(sges)|
    ensures var l := G.Locs(sges)[i]; ByteOf(mrs, u, l, l.key / 256, Hosts(mrs, G.Locs(sges))[i])
  {
    var n := LocOfEntry(sges, i);
    AdmittedExactly(mrs, u.pd, sges[n], u.local, u.access);
  }

  // ----- what a packet writes

  /** The outcome leaves the memory as it was, or with bytes written where the mapping of a
      list of buffers leads. */
  predicate WritesTo(env: Env, u: Use, mem: Mem, out: Outcome, sges: seq<Sge>, bytes: seq<byte>) {
    out.Took? || out.Refused? ==>
      || out.data.mem == mem
      || (|G.Locs(sges)| == |bytes| && AllAdmitted(env.mrs, u.pd, sges, u.local, u.access)
          && out.data.mem == Write(mem, Hosts(env.mrs, G.Locs(sges)), bytes))
  }

  lemma {:induction false} SendWrites(env: Env, d: Data, payload: seq<byte>, imm: Option<uint32>, inProcess: bool,
          complete: bool)
    returns (sges: seq<Sge>)
    ensures WritesTo(env, LocalUse(env), d.mem, RecvPayload(env, d, payload, imm, inProcess, complete), sges, payload)
  {
    sges := [];
    var popped := PopRecvWr(d, inProcess);
    if popped.TheWr? {
      var wr := popped.wr;
      if G.LengthFits(wr.sges, wr.idx, wr.off) && |payload| <= |G.LocsFrom(wr.sges, wr.idx, wr.off)| {
        var cut := G.Advance(wr.sges, |payload|, wr.idx, wr.off);
        G.AdvanceTakesPrefix(wr.sges, |payload|, wr.idx, wr.off);
        sges := cut.sges;
        StoreWrites(env, MapCheck(env, sges, LocalUse(env)), sges, wr.(idx := cut.idx, off := cut.off), popped.data,
                    payload, imm, complete);
      }
    }
  }

  lemma {:induction false} StoreWrites(env: Env, check: Check, sges: seq<Sge>, moved: RecvWr, d: Data,
          payload: seq<byte>, imm: Option<uint32>, complete: bool)
    requires |G.Locs(sges)| == |payload| && check == MapCheck(env, sges, LocalUse(env))
    ensures WritesTo(env, LocalUse(env), d.mem, StoreTo(env, check, sges, moved, d, payload, imm, complete), sges,
                     payload)
  {
  }

  lemma {:induction false} StoreAtWrites(env: Env, d: Data, cur: Progress, payload: seq<byte>, imm: Option<uint32>)
    requires cur.InWrite?
    ensures var e := NextSge(cur, |payload|);
      e.length <= |payload|
      && WritesTo(env, RemoteUse(env), d.mem, StoreAt(env, d, cur, payload, imm), [e], payload[..e.length])
  {
    G.LocsOfOne(NextSge(cur, |payload|));
  }

  lemma {:induction false} WriteWrites(env: Env, d: Data, payload: seq<byte>, reth: Option<(nat, uint32, nat)>,
          imm: Option<uint32>, inProcess: bool)
    returns (sges: seq<Sge>, bytes: seq<byte>)
    requires inProcess || reth.Some?
    ensures WritesTo(env, RemoteUse(env), d.mem, WritePayload(env, d, payload, reth, imm, inProcess), sges, bytes)
  {
    sges, bytes := [], [];
    if inProcess == WriteOpen(d) && !(inProcess && d.cur.InBoth?) {
      var cur := if inProcess then d.cur else InWrite(reth.value.0, reth.value.1, reth.value.2, 0);
      var e := NextSge(cur, |payload|);
      StoreAtWrites(env, d, cur, payload, imm);
      sges, bytes := [e], payload[..e.length];
    }
  }

  lemma {:induction false} ReceiveWrites(env: Env, d: Data, pkt: Pkt) returns (sges: seq<Sge>, bytes: seq<byte>)
    ensures var u := if OfWrite(pkt.opcode) then RemoteUse(env) else LocalUse(env);
      WritesTo(env, u, d.mem, Receive(env, d, pkt), sges, bytes)
  {
    var reth, imm, p := RethOf(pkt.eth), ImmOf(pkt.eth), pkt.payload;
    sges, bytes := [], p;
    match pkt.opcode
    case SendFirst => sges := SendWrites(env, d, p, None, false, false);
    case SendMiddle => sges := SendWrites(env, d, p, None, true, false);
    case SendLast => sges := SendWrites(env, d, p, None, true, true);
    case SendOnly => sges := SendWrites(env, d, p, None, false, true);
    case SendLastImm => sges := SendWrites(env, d, p, imm, true, true);
    case SendOnlyImm => sges := SendWrites(env, d, p, imm, false, true);
    case WriteFirst | WriteOnly =>
      if reth.Some? {
        sges, bytes := WriteWrites(env, d, p, reth, None, false);
      }
    case WriteMiddle | WriteLast => sges, bytes := WriteWrites(env, d, p, None, None, true);
    case WriteLastImm => sges, bytes := WriteWrites(env, d, p, None, imm, true);
    case WriteOnlyImm =>
      if reth.Some? {
        sges, bytes := WriteWrites(env, d, p, reth, imm, false);
      }
    case _ =>
  }

  lemma {:induction false} ChangedByte(env: Env, u: Use, mem: Mem, out: Outcome, sges: seq<Sge>, bytes: seq<byte>,
          a: nat)
    returns (i: nat)
    requires WritesTo(env, u, mem, out, sges, bytes) && (out.Took? || out.Refused?)
    requires At(out.data.mem, a) != At(mem, a)
    ensures i < |G.Locs(sges)| && ByteOf(env.mrs, u, G.Locs(sges)[i], G.Locs(sges)[i].key / 256, a)
  {
    var t := Hosts(env.mrs, G.Locs(sges));
    if a !in t {
      WriteElsewhere(mem, t, bytes, a);
    }
    i :| 0 <= i < |t| && t[i] == a;
    ByteIsPermitted(env.mrs, u, sges, i);
  }

  /** The region lets a packet of this opcode, which is a SEND or a WRITE, write the byte at
      x of the guest and a of the host. */
  predicate Grants(mr: Mr, pd: nat, op: Opcode, x: nat, a: nat) {
    && mr.pd == pd && mr.state == MrValid
    && op in {SendFirst, SendMiddle, SendLast, SendLastImm, SendOnly, SendOnlyImm,
              WriteFirst, WriteMiddle, WriteLast, WriteLastImm, WriteOnly, WriteOnlyImm}
    && (op in {SendFirst, SendMiddle, SendLast, SendLastImm, SendOnly, SendOnlyImm} ==> LocalWrite in mr.access)
    && (op in {WriteFirst, WriteMiddle, WriteLast, WriteLastImm, WriteOnly, WriteOnlyImm} ==>
          RemoteWrite in mr.access)
    && mr.iova <= x < mr.iova + mr.length && a == TranslateByte(mr, x)
    && (Structured(mr) ==>
          var at := x - mr.iova + mr.iova % mr.pageSize; at < |Addrs(mr.iovs)| && a == Addrs(mr.iovs)[at])
  }

  /** Isolation of the receiver.  Whatever packet arrives in whatever state: a byte of memory
      that differs afterwards is the host byte of a valid region of the receiver's own
      domain, at an address inside it, and the region grants local writing to a SEND and
      remote writing to a WRITE. */
  lemma {:induction false} WritesStayInside(env: Env, r: Rsp, pkt: Pkt, a: nat) returns (k: nat, x: nat)
    requires At(RecvRc(env, r, pkt).data.mem, a) != At(r.data.mem, a)
    ensures k < |env.mrs| && env.mrs[k].Some? && Grants(env.mrs[k].value, env.pd, pkt.opcode, x, a)
  {
    var out := Receive(env, r.data, pkt);
    MemAfterPacket(env, r, pkt);
    k, x := ChangedByPacket(env, r.data, pkt, out, a);
  }

  lemma {:induction false} MemAfterPacket(env: Env, r: Rsp, pkt: Pkt)
    ensures var out := Receive(env, r.data, pkt);
      RecvRc(env, r, pkt).data.mem == r.data.mem
      || ((out.Took? || out.Refused?) && RecvRc(env, r, pkt).data.mem == out.data.mem)
  {
  }

  lemma {:induction false} ChangedByPacket(env: Env, d: Data, pkt: Pkt, out: Outcome, a: nat) returns (k: nat, x: nat)
    requires out == Receive(env, d, pkt) && (out.Took? || out.Refused?) && At(out.data.mem, a) != At(d.mem, a)
    ensures k < |env.mrs| && env.mrs[k].Some? && Grants(env.mrs[k].value, env.pd, pkt.opcode, x, a)
  {
    var u := if OfWrite(pkt.opcode) then RemoteUse(env) else LocalUse(env);
    var sges, bytes := ReceiveWrites(env, d, pkt);
    var i := ChangedByte(env, u, d.mem, out, sges, bytes, a);
    k, x := G.Locs(sges)[i].key / 256, G.Locs(sges)[i].addr;
    assert !pkt.opcode.SendLastInv? && !pkt.opcode.SendOnlyInv?;
    InGrantingRegion(env, pkt.opcode, G.Locs(sges)[i], k, a);
  }

  lemma {:induction false} InGrantingRegion(env: Env, op: Opcode, l: G.Loc, k: nat, a: nat)
    requires ByteOf(env.mrs, if OfWrite(op) then RemoteUse(env) else LocalUse(env), l, k, a)
    requires !op.SendLastInv? && !op.SendOnlyInv?
    ensures Grants(env.mrs[k].value, env.pd, op, l.addr, a)
  {
    if Structured(env.mrs[k].value) {
      RegionInOrder(env.mrs[k].value, l.addr);
    }
  }

  // ----- what a request sends

  lemma {:induction false} PiecePermitted(mrs: MrTable, u: Use, sges: seq<Sge>, bytes: nat, idx: nat, off: nat, i: nat)
    requires G.CursorOk(sges, idx, off) && i < bytes <= |G.LocsFrom(sges, idx, off)|
    requires S.PieceHolds(mrs, u, G.Advance(sges, bytes, idx, off).sges)
    ensures var l := G.LocsFrom(sges, idx, off)[i]; ByteOf(mrs, u, l, l.key / 256, HostOf(mrs, l))
  {
    G.AdvanceTakesPrefix(sges, bytes, idx, off);
    ByteIsPermitted(mrs, u, G.Advance(sges, bytes, idx, off).sges, i);
  }

  lemma {:induction false} PiecesPermitted(mrs: MrTable, u: Use, sges: seq<Sge>, left: nat, mtu: nat, idx: nat,
          off: nat, i: nat)
    requires G.CursorOk(sges, idx, off) && i < left == |G.LocsFrom(sges, idx, off)| && mtu > 0
    requires S.PiecesHold(mrs, u, sges, left, mtu, idx, off)
    ensures var l := G.LocsFrom(sges, idx, off)[i]; ByteOf(mrs, u, l, l.key / 256, HostOf(mrs, l))
    decreases left
  {
    if i < Min(left, mtu) {
      PiecePermitted(mrs, u, sges, Min(left, mtu), idx, off, i);
    } else {
      var cut := G.Advance(sges, mtu, idx, off);
      G.AdvanceTakesPrefix(sges, mtu, idx, off);
      PiecesPermitted(mrs, u, sges, left - mtu, mtu, cut.idx, cut.off, i - mtu);
    }
  }

  /** Isolation of the sender: when packets are built for a request, every byte that they
      carry is the host byte of a valid region of the domain of its queue pair that has the
      key of the entry, at an address inside it. */
  lemma {:induction false} SentBytesAreInside(mem: Mem, mrs: MrTable, u: Use, w: SendWr, mtu: nat, i: nat)
    returns (k: nat, x: nat)
    requires mtu > 0 && S.RequestHolds(mrs, u, w, mtu) && i < |S.Message(mem, mrs, w.sges)|
    ensures k < |mrs| && mrs[k].Some?
    ensures var mr := mrs[k].value;
      && mr.pd == u.pd && mr.state == MrValid && u.access <= mr.access
      && mr.iova <= x < mr.iova + mr.length
      && S.Message(mem, mrs, w.sges)[i] == At(mem, TranslateByte(mr, x))
  {
    var sges := w.sges;
    assert sges[0..] == sges && G.LocsFrom(sges, 0, 0) == G.Locs(sges);
    var l := G.Locs(sges)[i];
    if |G.Locs(sges)| <= mtu {
      ByteIsPermitted(mrs, u, sges, i);
    } else {
      PiecesPermitted(mrs, u, sges, |G.Locs(sges)|, mtu, 0, 0, i);
    }
    k, x := l.key / 256, l.addr;
  }
}
