/**
 Cutting a message into packets: what the packets of one work request are.
 */
module Segment {
  import opened Psn
  import opened Types
  import opened Requester

  function OpcodeFor(op: WrOp, first: bool, last: bool): Opcode
    requires IsSend(op) || IsWrite(op)
  {
    if IsSend(op) then
      if !last then if first then SendFirst else SendMiddle
      else match op
        case WrSendWithImm => if first then SendOnlyImm else SendLastImm
        case WrSendWithInv => if first then SendOnlyInv else SendLastInv
        case _ => if first then SendOnly else SendLast
    else if !last then if first then WriteFirst else WriteMiddle
    else if op == WrWriteWithImm then if first then WriteOnlyImm else WriteLastImm
    else if first then WriteOnly else WriteLast
  }

  /** The extended header: an address for the first packet of a write, the immediate or
      the key to invalidate for the last packet of whatever carries one. */
  function EthFor(w: SendWr, total: nat, first: bool, last: bool): Eth {
    match w.op
    case WrSendWithImm => if last then Immdt(w.imm) else NoEth
    case WrSendWithInv => if last then Ieth(w.imm) else NoEth
    case WrWrite => if first then Reth(w.remoteAddr, w.rkey, total) else NoEth
    case WrWriteWithImm =>
      if first && last then RethImmdt(w.remoteAddr, w.rkey, total, w.imm)
      else if first then Reth(w.remoteAddr, w.rkey, total)
      else if last then Immdt(w.imm)
      else NoEth
    case _ => NoEth
  }

  function Fragment(w: SendWr, payload: seq<byte>, total: nat, psn: int, first: bool, last: bool): Pkt
    requires IsSend(w.op) || IsWrite(w.op)
  {
    Pkt(Wrap(psn), OpcodeFor(w.op, first, last), last || Wrap(psn) % MAX_OUTGOING == 0, last && w.solicited,
        if last then Some(w.ptr) else None, EthFor(w, total, first, last), payload)
  }

  /** The packets for data, the rest of a message of total bytes. */
  function Fragments(w: SendWr, data: seq<byte>, total: nat, mtu: nat, psn: int, first: bool): seq<Pkt>
    requires mtu > 0 && (IsSend(w.op) || IsWrite(w.op))
    decreases |data|
  {
    if |data| <= mtu then [Fragment(w, data, total, psn, first, true)]
    else [Fragment(w, data[..mtu], total, psn, first, false)]
         + Fragments(w, data[mtu..], total, mtu, psn + 1, false)
  }

  lemma {:induction false} FragmentsMod(w: SendWr, data: seq<byte>, total: nat, mtu: nat, n: int, m: int, first: bool)
    requires mtu > 0 && (IsSend(w.op) || IsWrite(w.op)) && Wrap(n) == Wrap(m)
    ensures Fragments(w, data, total, mtu, n, first) == Fragments(w, data, total, mtu, m, first)
    decreases |data|
  {
    if |data| > mtu {
      WrapAdd(n, 1);
      WrapAdd(m, 1);
      FragmentsMod(w, data[mtu..], total, mtu, n + 1, m + 1, false);
    }
  }

  /** What posting a request adds to the packet queue. */
  function Packets(w: SendWr, data: seq<byte>, mtu: nat, psn: int): seq<Pkt>
    requires mtu > 0
  {
    if Skippable(w) || Silent(w) then [] else Fragments(w, data, |data|, mtu, psn, true)
  }

  function Payloads(pkts: seq<Pkt>): seq<byte> {
    if pkts == [] then [] else pkts[0].payload + Payloads(pkts[1..])
  }

  /** The payloads put together are the message. */
  lemma {:induction false} PayloadsAreData(w: SendWr, data: seq<byte>, total: nat, mtu: nat, psn: int, first: bool)
    requires mtu > 0 && (IsSend(w.op) || IsWrite(w.op))
    ensures Payloads(Fragments(w, data, total, mtu, psn, first)) == data
    decreases |data|
  {
    var f := Fragments(w, data, total, mtu, psn, first);
    if |data| <= mtu {
      assert f[1..] == [];
    } else {
      PayloadsAreData(w, data[mtu..], total, mtu, psn + 1, false);
      assert f[1..] == Fragments(w, data[mtu..], total, mtu, psn + 1, false);
    }
  }

  /** ONLY, or FIRST MIDDLE* LAST: every packet but the last is full, and its place in
      the message fixes its number and its opcode. */
  lemma {:induction false} FragmentAt(w: SendWr, data: seq<byte>, total: nat, mtu: nat, psn: int, first: bool, i: nat)
    requires mtu > 0 && (IsSend(w.op) || IsWrite(w.op))
    requires i < |Fragments(w, data, total, mtu, psn, first)|
    ensures var f := Fragments(w, data, total, mtu, psn, first); var last := i == |f| - 1;
      && f[i].psn == Wrap(psn + i)
      && f[i].opcode == OpcodeFor(w.op, first && i == 0, last)
      && f[i].eth == EthFor(w, total, first && i == 0, last)
      && f[i].owner == (if last then Some(w.ptr) else None) && f[i].solicited == (last && w.solicited)
      && |f[i].payload| <= mtu && (!last ==> |f[i].payload| == mtu)
    decreases |data|
  {
    if i > 0 {
      FragmentAt(w, data[mtu..], total, mtu, psn + 1, false, i - 1);
    }
  }

  /** The opcode and the extended header of a packet, by the operation of its request and its
      place in the message. */
  predicate HeaderFits(w: SendWr, total: nat, first: bool, last: bool, op: Opcode, eth: Eth) {
    && (w.op.WrSend? ==>
          && op == (if last then if first then SendOnly else SendLast else if first then SendFirst else SendMiddle)
          && eth == NoEth)
    && (w.op.WrSendWithImm? ==>
          && op == (if last then if first then SendOnlyImm else SendLastImm
                    else if first then SendFirst else SendMiddle)
          && eth == if last then Immdt(w.imm) else NoEth)
    && (w.op.WrSendWithInv? ==>
          && op == (if last then if first then SendOnlyInv else SendLastInv
                    else if first then SendFirst else SendMiddle)
          && eth == if last then Ieth(w.imm) else NoEth)
    && (w.op.WrWrite? ==>
          && op == (if last then if first then WriteOnly else WriteLast
                    else if first then WriteFirst else WriteMiddle)
          && eth == if first then Reth(w.remoteAddr, w.rkey, total) else NoEth)
    && (w.op.WrWriteWithImm? ==>
          && op == (if last then if first then WriteOnlyImm else WriteLastImm
                    else if first then WriteFirst else WriteMiddle)
          && eth == if first && last then RethImmdt(w.remoteAddr, w.rkey, total, w.imm)
                    else if first then Reth(w.remoteAddr, w.rkey, total)
                    else if last then Immdt(w.imm) else NoEth)
  }

  /** Which requests build packets, and which leave the queue without. */
  lemma {:induction false} KindsOfRequests(w: SendWr, data: seq<byte>, mtu: nat, psn: int)
    requires mtu > 0
    ensures Packets(w, data, mtu, psn) != [] <==>
      !w.error && w.op in {WrSend, WrSendWithImm, WrSendWithInv, WrWrite, WrWriteWithImm}
    ensures Skippable(w) <==> w.error || w.op in {WrLocalInv, WrRegMr, WrBindMw}
  {
  }

  /** Every packet of a message, field by field. */
  lemma {:induction false} PacketFields(w: SendWr, data: seq<byte>, mtu: nat, psn: int, i: nat)
    requires mtu > 0 && i < |Packets(w, data, mtu, psn)|
    ensures var f := Packets(w, data, mtu, psn); var first, last := i == 0, i == |f| - 1;
      && !w.error && (w.op.WrSend? || w.op.WrSendWithImm? || w.op.WrSendWithInv? || w.op.WrWrite?
                      || w.op.WrWriteWithImm?)
      && f[i].psn == Wrap(psn + i) && f[i].ack == (last || Wrap(psn + i) % 8 == 0)
      && f[i].solicited == (last && w.solicited) && f[i].owner == (if last then Some(w.ptr) else None)
      && HeaderFits(w, |data|, first, last, f[i].opcode, f[i].eth)
      && (last ==> mtu * i <= |data| && f[i].payload == data[mtu * i..])
      && (!last ==> mtu * i + mtu <= |data| && f[i].payload == data[mtu * i..mtu * i + mtu])
  {
    FragmentAt(w, data, |data|, mtu, psn, true, i);
    AckAt(w, data, |data|, mtu, psn, true, i);
    PayloadAt(w, data, |data|, mtu, psn, true, i);
  }

  lemma {:induction false} AckAt(w: SendWr, data: seq<byte>, total: nat, mtu: nat, psn: int, first: bool, i: nat)
    requires mtu > 0 && (IsSend(w.op) || IsWrite(w.op)) && i < |Fragments(w, data, total, mtu, psn, first)|
    ensures var f := Fragments(w, data, total, mtu, psn, first);
      f[i].ack == (i == |f| - 1 || Wrap(psn + i) % 8 == 0)
    decreases |data|
  {
    if i > 0 {
      AckAt(w, data[mtu..], total, mtu, psn + 1, false, i - 1);
    }
  }

  lemma {:induction false} SliceOfRest<T>(s: seq<T>, m: nat, a: nat, n: nat)
    requires m + a + n <= |s|
    ensures s[m..][a..] == s[m + a..] && s[m..][a..a + n] == s[m + a..m + a + n]
  {
  }

  lemma {:induction false} PayloadAt(w: SendWr, data: seq<byte>, total: nat, mtu: nat, psn: int, first: bool, i: nat)
    requires mtu > 0 && (IsSend(w.op) || IsWrite(w.op)) && i < |Fragments(w, data, total, mtu, psn, first)|
    ensures var f, a := Fragments(w, data, total, mtu, psn, first), mtu * i;
      && (i == |f| - 1 ==> a <= |data| && f[i].payload == data[a..])
      && (i < |f| - 1 ==> a + mtu <= |data| && f[i].payload == data[a..a + mtu])
    decreases |data|
  {
    if i > 0 {
      var f, g := Fragments(w, data, total, mtu, psn, first), Fragments(w, data[mtu..], total, mtu, psn + 1, false);
      assert f[i] == g[i - 1] && |f| == |g| + 1;
      PayloadAt(w, data[mtu..], total, mtu, psn + 1, false, i - 1);
      var a := mtu * (i - 1);
      assert mtu * i == mtu + a;
      SliceOfRest(data, mtu, a, if i == |f| - 1 then 0 else mtu);
    }
  }

  /** A message of n bytes takes n / mtu packets, rounded up, and an empty one takes one. */
  lemma {:induction false} FragmentCount(w: SendWr, data: seq<byte>, total: nat, mtu: nat, psn: int, first: bool)
    requires mtu > 0 && (IsSend(w.op) || IsWrite(w.op))
    ensures var n := |Fragments(w, data, total, mtu, psn, first)|;
      mtu * (n - 1) <= |data| <= mtu * n && (|data| > 0 ==> mtu * (n - 1) < |data|)
    decreases |data|
  {
    if |data| > mtu {
      FragmentCount(w, data[mtu..], total, mtu, psn + 1, false);
      var n := |Fragments(w, data, total, mtu, psn, first)|;
      assert mtu * (n - 1) == mtu * (n - 2) + mtu && mtu * n == mtu * (n - 1) + mtu;
    }
  }

  /** The packets of a request are what the send queues expect of it. */
  lemma {:induction false} FragmentsBuilt(w: SendWr, data: seq<byte>, total: nat, mtu: nat, psn: int, first: bool)
    requires mtu > 0 && (IsSend(w.op) || IsWrite(w.op))
    ensures var f := Fragments(w, data, total, mtu, psn, first);
      Shape(f, psn) && Owners(f) == [w.ptr]
    decreases |data|
  {
    var f := Fragments(w, data, total, mtu, psn, first);
    if |data| <= mtu {
      assert f[1..] == [];
    } else {
      FragmentsBuilt(w, data[mtu..], total, mtu, psn + 1, false);
      assert f[1..] == Fragments(w, data[mtu..], total, mtu, psn + 1, false);
    }
  }

  lemma {:induction false} PacketsBuilt(w: SendWr, data: seq<byte>, mtu: nat, psn: int)
    requires mtu > 0 && (Silent(w) ==> Skippable(w))
    ensures Built(w, Packets(w, data, mtu, psn), psn)
  {
    if !Skippable(w) {
      FragmentsBuilt(w, data, |data|, mtu, psn, true);
    }
  }

  lemma {:induction false} PacketsShape(w: SendWr, data: seq<byte>, mtu: nat, psn: int)
    requires mtu > 0
    ensures Shape(Packets(w, data, mtu, psn), psn)
  {
    if !Skippable(w) && !Silent(w) {
      FragmentsBuilt(w, data, |data|, mtu, psn, true);
    }
  }
}
