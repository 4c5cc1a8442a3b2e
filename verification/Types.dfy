/**
 The values that travel through the reliable connection: scatter/gather
 entries, work requests, packets and work completions.
 */
module Types {
  import opened Psn

  datatype Option<+T> = None | Some(value: T)

  type byte = x: int | 0 <= x < 256

  /** A guest buffer named by a work request: length bytes at addr under a memory key. */
  datatype Sge = Sge(addr: nat, length: uint32, key: uint32)

  /** A host buffer; the null base is 0. */
  datatype Iovec = Iovec(base: nat, len: nat)

  datatype WrOp =
    | WrSend | WrSendWithImm | WrSendWithInv | WrWrite | WrWriteWithImm
    | WrRead | WrCmpAndSwp | WrFetchAndAdd | WrAtomicWrite | WrFlush
    | WrLocalInv | WrRegMr | WrBindMw

  /** ptr is the identity of the request in memory, wrId the number its owner gave it.
      imm doubles as the key to invalidate. */
  datatype SendWr = SendWr(
    ptr: nat,
    wrId: nat,
    op: WrOp,
    signaled: bool,
    solicited: bool,
    error: bool,
    imm: uint32,
    remoteAddr: nat,
    rkey: uint32,
    sges: seq<Sge>)

  datatype Opcode =
    | SendFirst | SendMiddle | SendLast | SendLastImm | SendOnly | SendOnlyImm
    | WriteFirst | WriteMiddle | WriteLast | WriteLastImm | WriteOnly | WriteOnlyImm
    | SendLastInv | SendOnlyInv

  /** The extended transport header that follows the base transport header. */
  datatype Eth =
    | NoEth
    | Immdt(imm: uint32)
    | Ieth(invKey: uint32)
    | Reth(va: nat, rkey: uint32, dmalen: nat)
    | RethImmdt(va: nat, rkey: uint32, dmalen: nat, imm: uint32)

  /** owner names the work request that the packet finishes, if any. */
  datatype Pkt = Pkt(
    psn: psn24,
    opcode: Opcode,
    ack: bool,
    solicited: bool,
    owner: Option<nat>,
    eth: Eth,
    payload: seq<byte>)

  datatype WcOp =
    | WcSend | WcRdmaWrite | WcRecv | WcRecvRdmaWithImm
    | WcRdmaRead | WcCompSwap | WcFetchAdd | WcAtomicWrite | WcFlush
    | WcLocalInv | WcRegMr | WcBindMw

  datatype WcFlags = WcPlain | WcImm(imm: uint32) | WcWithImm | WcWithInvalidate

  /** A completion with status SUCCESS. */
  datatype Wc = Wc(wrId: nat, op: WcOp, flags: WcFlags, byteLen: nat)

  function Min(a: int, b: int): int { if a < b then a else b }

  lemma {:induction false} Assoc<T>(a: seq<T>, b: seq<T>, c: seq<T>)
    ensures a + (b + c) == (a + b) + c
  {
  }

  function SgeLen(sges: seq<Sge>): nat {
    if sges == [] then 0 else sges[0].length + SgeLen(sges[1..])
  }

  lemma {:induction false} SgeLenConcat(a: seq<Sge>, b: seq<Sge>)
    ensures SgeLen(a + b) == SgeLen(a) + SgeLen(b)
  {
    if a == [] {
      assert a + b == b;
    } else {
      assert (a + b)[0] == a[0] && (a + b)[1..] == a[1..] + b;
      SgeLenConcat(a[1..], b);
    }
  }
}
