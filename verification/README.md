# A verified model of the libroce reliable connection

libroce is a user-space RoCEv2 endpoint. Its core is the reliable connection: a go-back-N
protocol over packet sequence numbers of 24 bits (section 9.7 of the InfiniBand Architecture
Specification, Volume 1, with Annex A17 for RoCEv2), a data path that cuts scatter/gather
lists into packets and fills them in again through memory translation, a wire form with an
invariant CRC, and reference-counted objects. This project models these four layers in Dafny
and proves what holds of them, and across them.

`dafny verify dfyconfig.toml` checks everything.

## How it is built

Handlers that change state are methods, most of them of a class (`SendSide.Sender`,
`RecvSide.Receiver`, `Resource.Table`, `Registry.Device`) or over arrays and linked nodes
(`Scatter`, `Gather`, `Ring`, `Wire`). Each is proved to compute a function of the state
before; what the library promises is proved about these functions.

- **Numbers** (`Psn`): the 24-bit comparison as the C code computes it, in 32-bit arithmetic,
  and when it agrees with unbounded numbers.
- **Data path** (`Scatter`, `Gather`, `Pages`, `Translate`, `Buffers`): I/O vectors,
  scatter/gather lists with a resumable cursor, page counts with their 32-bit mask, key check
  and page translation. The common measure is the list of byte addresses.
- **Sender** (`Requester`, `Segment`, `SendSide`) and **receiver** (`Responder`, `Delivery`,
  `RecvSide`, `Receipt`, `Limits`): the two ends one call at a time, with the whole state before and after.
- **Protocol** (`Streams`, `Protocol`, `Safety`): both ends and a network that may drop,
  repeat and reorder. Packets and replies have unbounded numbers; whatever was handed to the
  network can arrive at any later time as long as it is less than 2^24 behind. The safety
  theorems hold in every run, across any number of wraps.
- **Integrity** (`Integrity`, `EndToEnd`, `Reports`): a completed request is a delivered one,
  byte for byte, and the completions are those of the requests that were to be signaled.
  **Protection** (`Isolation`): what a mapping lets through. **Progress** (`Progress`, `Service`): on a channel that loses nothing and keeps the
  order everything posted is delivered and completed. **Recovery** (`Recovery`): a gap is answered by a
  NAK, and from there everything arrives. **Assertions** (`Asserted`): until when no assertion
  stops such a run.
- **Wire form** (`CrcBits`, `Crc`, `Headers`, `Wire`, `PacketForm`, `Layout`, `Coverage`, `Octets`,
  `OverTheWire`, `FrameRuns`): CRC-32, headers, padding, slots and frames, up to the theorem that completion
  means delivery when the two ends exchange nothing but altered frames.
- **Structures and lifetime** (`Ring`, `Resource`, `Lifetime`, `Balance`, `Ownership`, `Handles`,
  `Registry`): the intrusive ring, the handle table, and the reference counts of protection
  domains, completion queues and memory regions with deferred destruction.

Where the code stops in an assertion, follows a null or wild pointer or overruns an array, the
model has an outcome of its own (`Aborted`, `None`, `aborted`, `Overrun`), with the exact
condition for it.

## What the code does not do

Some statements one would expect are false of the code, or hold only up to a bound. Each has
its exact condition among the lemmas below.

- The assertion at requester.c:528 compares 24-bit numbers as integers and fails after a wrap
  (`Requester.OrderUntilWrap`, `Asserted.StepPassesExactly`). `ROCE_ASSERT` is the plain `assert`
  (include/private/util.h:60), so the default build stops there. The methods of the sender report
  whether it holds and go on, as a build without assertions does.
- The window is inclusive: nine packets, not eight, are out at most
  (`Safety.WindowInEveryRun`).
- An acknowledgement delayed by 2^24 numbers is taken for a new one (`Safety.AckTooOld`).
- READ and atomic requests build no packets but wait in the send queue. The next packet that
  finishes a request pops the wrong one: the assertion at requester.c:594 fails, and without
  assertions the READ is reported as done and every later request one packet too early
  (`Requester.BehindRetireMore`, `SendSide.SilentHeadIsPopped`). They are not posted in the runs
  considered.
- There is no case for the opcodes that invalidate a key (`Limits.InvalidateNeverArrives`).
- A plain RDMA WRITE does not end. The next write is refused exactly if the message carried
  any bytes (`Limits.WriteAfterPlainWrite`), and for good (`Limits.OpenStaysOpen`); the next
  SEND, because the union reads the address as a request, exactly if the address is not zero
  (`Limits.SendAfterPlainWrite`). The end-to-end theorems are about SEND, SEND with immediate
  and RDMA WRITE with immediate.
- The assertion that the vector has as many entries as pages were counted (responder.c:257,
  responder.c:317, requester.c:131) fails on buffers that the checks admit: an empty one inside
  a page, so also a WRITE of no bytes to such an address; one whose rounded end crosses a
  multiple of 2^32; and one that touches more pages of the context than of its region, whose
  pages mr.c:43-44 lets be larger (`Buffers.AssertionHoldsExactly`, `Buffers.LargerPagesFail`).
  It fails as well when a send buffer cannot be mapped, since the error code is compared with the
  count (`Buffers.CountIsNoError`).
- The array of 128 vector entries is enough for payloads no longer than a page
  (`RecvSide.ShortPayloadFits`); nothing checks a payload's length, and the outcome `Overrun` is
  where a longer one needs more.
- There is no timer. A lost packet is sent again once a later one arrives
  (`Recovery.EverythingArrivesAfterLoss`); a NAK is not repeated while it is pending
  (`Recovery.GapIsAnswered`), and nothing asks for a lost last packet or a lost reply.
- A SEND that is longer than its receive request takes the request off the queue and is refused
  ever after (`Receipt.TooLong`).
- A write with an immediate that finds no receive request cannot be repeated
  (`Limits.RefusedImmediateCannotBeRetried`), unlike a SEND
  (`Responder.RefusedSendCanBeRetried`).
- An IPv4 header length below five overruns the option array (`Wire.OverrunExactly`).
- qp.c:335 tests the send completion queue a second time where the receive one is meant
  (`Ownership.DestroyQpBalances`).
- A receive that cannot be posted gives its references back twice (`Ownership.FailedPostRecv`).
- Local requests, and a receive cut short by the end of its queue pair, are never freed
  (`Ownership.LostRequestPins`).

## Model

| member | source | states |
|---|---|---|
| `Psn.CompareIsSigned` | include/private/util.h:118-124 | The 32-bit subtraction of shifted numbers is 256 times the difference modulo 2^24 read as signed, for any two 32-bit arguments, masked or not. |
| `Psn.CompareRefines` | include/private/util.h:118-124 | The comparison of two wrapped numbers is 256 times the true difference exactly if the unbounded numbers differ by -2^23 up to 2^23 - 1. |
| `Psn.IncWraps` | include/private/roce-private.h:273-276 | The increment of a wrapped number is the wrapped increment. |
| `Psn.HalfwayIsBehindBothWays` | include/private/util.h:118-124 | Two numbers 2^23 apart each count as before the other: the comparison is not an order beyond its window. |
| `Requester.LimitTest` | requester.c:522-548 | For a packet at most nine places into the window the comparison with the limit gives its distance, so the test for equality never steps over it. |
| `SendSide.AcceptTest` | requester.c:615-633 | The two comparisons that discard an acknowledgement keep exactly the numbers from sq_psn to req.psn modulo 2^24. |
| `SendSide.WalkTest` | requester.c:636-641 | The comparison that ends the walk stops exactly at the first packet beyond the acknowledged number. |
| `Requester.OrderUntilWrap` | requester.c:528-528 | The integer comparison that the code asserts of the last outgoing packet holds exactly as long as no packet is out or the two counters have not wrapped past each other. |
| `Responder.JudgeTest` | responder.c:383-395 | The sign of the comparison classifies a number as expected, duplicate or ahead; 2^23 ahead still counts as ahead. |
| `SendSide.Sender.XmitPkts` | requester.c:516-549 | The loop over the pending packets fills the window as far as it goes and sends each moved packet once, in order; and it reports whether the integer comparison that the code asserts of the last outgoing packet holds. |
| `SendSide.Sender.CompleteHead` | requester.c:552-573 | Local and error requests leave the head of the send queue, and nothing else. |
| `SendSide.Sender.CompleteSendWr` | requester.c:576-613 | One acknowledged packet: sq_psn advances, the head of the send queue is popped and completed with its length, opcode and flags; and the result tells whether it is the request that the packet names, as the code asserts. |
| `SendSide.Sender.HandleAck` | requester.c:615-650 | The packet-by-packet walk retires exactly the packets that the acknowledgement covers, and on the way the assertion that the popped request is the packet's cannot fail. |
| `SendSide.Sender.HandleNak` | requester.c:652-676 | Retires everything before the number, resends what stays out, then extends the window; and reports whether the integer comparison asserted before that holds. |
| `SendSide.Sender.HandleAcknowledge` | requester.c:678-694 | An ACK and a NAK have these effects on the whole state and keep the invariant, with the same report. |
| `SendSide.Sender.RequestRc` | requester.c:696-714 | Posting queues the request with the packets of its message, transmits, and completes the head, keeping the invariant; it stops exactly if the length of the list, or the mapping or the page count of one of its packets, fails an assertion, or the integer comparison before transmission does; and behind that one a build without assertions does all the same. |
| `SendSide.Sender.ModifySqPsn` | qp.c:525-532 | Sets the two counters to the 32-bit number given, or refuses exactly while packets are queued; the result is usable if and only if it refused or the number has 24 bits. |
| `Requester.PostAt` | requester.c:696-714 | Posting puts the request at the end of the queue and its packets at the end of theirs, takes off the head what completes by itself, sends as many packets as the window of nine holds, once and in order, and touches nothing else. |
| `Requester.DrainAt` | requester.c:552-613 | Completing m requests takes off the front of the queue those and the local and failed ones before and right after them, and leaves the rest as it is. |
| `Requester.NakGoesBack` | requester.c:652-676 | Go-back-N: a NAK for the k-th packet out (k up to one past the last) retires the first k packets and their requests, moves sq_psn to it, resends all that remain out in order, then extends the window to nine. |
| `Requester.AckKeeps` | requester.c:615-650 | An ACK with any number keeps numbers, queues and window in agreement. |
| `Requester.NakKeeps` | requester.c:652-676 | So does a NAK with any number. |
| `Requester.PostKeeps` | requester.c:696-714 | So does posting any request that builds packets or leaves the queue by itself. |
| `Requester.RetireAgrees` | requester.c:552-613 | Retiring k packets takes from the send queue exactly the requests they finish, in posting order, whatever local and error requests lie between. |
| `Reports.CompletionsReport` | requester.c:596-607 | The completions of a list of requests are those of the signaled ones, or of all, in order and once each, with number, length of the buffers, and opcode and flags as the table gives them for each operation. |
| `Requester.SilentPostBreaksAgreement` | requester.c:493-513 | Posting a READ or atomic request, which waits in the queue without a packet, breaks the agreement of the two queues, and no other post does. |
| `Requester.SilentPostIsBehind` | requester.c:493-513 | Such a request stands behind the requests posted before it, while the packets name those only. |
| `Requester.BehindDisagrees` | requester.c:592-594 | In every such state the requests in the queue are not the ones that the packets name. |
| `Requester.BehindPost` | requester.c:696-714 | Requests posted later queue up behind it with their packets, whatever they are. |
| `Requester.BehindRetire` | requester.c:576-613 | The requests before it complete as they should. |
| `Requester.BehindRetireMore` | requester.c:576-613 | The packets after those complete the silent request, for which nothing was sent, and from then on each completes the request before the one that it names; no later step mends it. |
| `SendSide.SilentHeadIsPopped` | requester.c:592-613 | The first packet with a request that is acknowledged then pops the silent one: the assertion on the pointers holds only if they are equal, and without it the request is reported as done. |
| `Segment.FragmentAt` | requester.c:143-253 | ONLY, or FIRST MIDDLE* LAST: place fixes number, opcode, extended header and owner; every packet but the last is full. |
| `Segment.FragmentCount` | requester.c:143-253 | A message of n bytes takes n / mtu packets, rounded up, and an empty one takes one. |
| `Segment.PayloadsAreData` | requester.c:345-457 | The payloads in order are the message. |
| `Segment.PacketsBuilt` | requester.c:479-514 | The packets of any request have consecutive numbers, ask for an ACK at every multiple of eight and at the end, and finish that request alone. |
| `Segment.PacketFields` | requester.c:143-253 | Every packet of a request field by field: number, ACK bit, solicited bit, owner, opcode and extended header by operation and place, and exactly its slice of the message. |
| `Segment.KindsOfRequests` | requester.c:479-514 | Packets are built for the three SEND and the two WRITE operations that have not failed; failed and local requests leave the queue by themselves, and no others. |
| `SendSide.BuildMulti` | requester.c:143-253 | The loop with the resumable cursor builds exactly the packets of the bytes that the scatter/gather list names, unless the assertion after mapping fails for one of them, and exactly then it stops; also for buffers that straddle a multiple of 2^32. |
| `SendSide.BuildPkts` | requester.c:479-514 | The same for every operation and length, single packets and empty lists included. |
| `SendSide.ReadyRequestHolds` | requester.c:176-211 | No assertion stops a request whose buffers are registered, in range, of the page size of the context, below the multiples of 2^32 and not empty inside a page. |
| `SendSide.PieceHoldsExactly` | requester.c:176-178 | The assertion after mapping holds if and only if every entry is admitted, the regions are of one kind, and the vector has an entry for every page counted. |
| `SendSide.PiecesHoldExactly` | requester.c:182-247 | Building stops if and only if that fails for one of the pieces that the list is cut into. |
| `Gather.AdvanceTakesPrefix` | include/private/sge-helper.h:63-101 | A cut takes exactly the next bytes with their keys, leaves the cursor before the rest, and writes at most as many entries as the list has left. |
| `Gather.AdvanceTwice` | include/private/sge-helper.h:63-101 | Two cuts are one cut of the sum: same bytes, same cursor. |
| `Gather.PiecesArePrefix` | include/private/sge-helper.h:58-101 | Over any sequence of cuts whose bytes fit, the pieces together are a prefix of the list, byte for byte. |
| `Gather.SgeAdvance` | include/private/sge-helper.h:63-101 | The loop writes that cut and that cursor. |
| `Gather.SgeLength` | include/private/sge-helper.h:17-36 | The loop counts the bytes from the cursor to the end, or stops exactly if one of its three assertions fails. |
| `Pages.CountPages` | include/private/sge-helper.h:39-56 | The loop computes the count of masked 32-bit page differences. |
| `Pages.PageCountIsTrue` | include/private/sge-helper.h:39-56 | For any page size that is a power of two the count is the number of pages touched, modulo 2^32, if and only if the number of multiples of 2^32 that the rounded entries straddle is a multiple of the page size. |
| `Pages.CountFromOf` | include/private/sge-helper.h:39-56 | Each such multiple makes the count 2^32 / page size too small, modulo 2^32 and from any running count. |
| `RecvSide.ShortPayloadFits` | responder.c:218-317 | A payload no longer than the pages of every region never overruns the array of 128 vector entries, wherever its packet goes. |
| `Translate.RangeCheckSuffices` | mr.c:315-333 | The range check of the code is enough for every page and byte of the entry to lie in the region. |
| `Translate.EntryTranslates` | mr.c:325-333 | The vector of one entry is the byte-by-byte translation of its guest range. |
| `Translate.MapTranslates` | mr.c:254-339 | The vector of a list is the translation of every guest byte, in order, with the same length. |
| `Translate.MapSize` | mr.c:325-336 | The length of the vector is the sum, over the non-empty entries, of the pages of their regions that they touch. |
| `Translate.MapSge` | mr.c:254-339 | The method admits exactly the lists whose keys, protection domain, state, access, kind and range are right, and writes that vector; and it overruns the array given exactly if the entries before the first that fails need more than there is room for. |
| `Isolation.AdmittedExactly` | mr.c:264-320 | An entry passes the checks if and only if its key names a region with that local or remote key, of the domain of the queue pair, valid, granting the access asked for, and containing the range. |
| `Isolation.RegionInOrder` | mr.c:325-333 | In a region with a page for every byte the translation of an address is the byte of its vector as far from the start. |
| `Isolation.WritesStayInside` | mr.c:264-320 | Whatever packet arrives in whatever state, a byte of memory that differs afterwards is the host byte of a valid region of the receiver's own domain, at an address inside it, and the region grants local writing if the packet is a SEND and remote writing if it is a WRITE. |
| `Isolation.SentBytesAreInside` | mr.c:264-320 | When packets are built, every byte that they carry is the host byte of a valid region of the queue pair's domain, at an address inside it. |
| `Buffers.AssertionHoldsExactly` | responder.c:257-257 | For lists as long as the device allows in regions of the context's page size or larger, the number of vector entries is the page count, as the code asserts, if and only if there is an entry for every page of the context that is touched and the straddled multiples of 2^32 come to a multiple of the page size. |
| `Buffers.SamePagesHoldExactly` | responder.c:257-257 | For regions of the context's page size the first condition is that no buffer is empty inside a page. |
| `Buffers.LargerPagesFail` | mr.c:43-44 | One whole page of a region with pages of 8 KiB, in a context with pages of 4 KiB, passes every check of the mapping and fails the assertion. |
| `Buffers.VectorRoom` | requester.c:120-131 | The slots reserved by the lower 16 bits of the page count are enough for the vector of a packet's buffers, also in regions of larger pages and, for pages up to 64 KiB, across multiples of 2^32. |
| `Buffers.CountIsNoError` | requester.c:122-131 | The page count is never the number that the error code of the mapping reads as, so a failed mapping always fails the assertion. |
| `Scatter.IovLen` | include/private/iov-helper.h:19-32 | The loop adds up the lengths. |
| `Scatter.CopiedAddrs` | include/private/iov-helper.h:51-101 | A copy covers exactly the slice of bytes from the offset on. |
| `Scatter.IovCopy` | include/private/iov-helper.h:51-101 | The two loops write that copy. |
| `Scatter.IovAdvance` | include/private/iov-helper.h:107-155 | Returns the first bytes, or all there is, and leaves exactly the vector that the specification says, entry for entry, over any split and with empty entries. |
| `Scatter.IovReverse` | include/private/iov-helper.h:161-206 | The same from the end. |
| `Scatter.AdvancesCompose` | include/private/iov-helper.h:107-155 | Two advances of a vector leave, entry for entry, what one of the summed size leaves, and return together what it returns, also beyond the end. |
| `Scatter.AdvanceAndReverseCommute` | include/private/iov-helper.h:161-206 | An advance and a reverse that do not overlap leave the same vector, entry for entry, and return the same bytes in either order. |
| `Scatter.ReversesCompose` | include/private/iov-helper.h:161-206 | Two reverses leave what one of the summed size leaves. |
| `Scatter.AdvancedAt` | include/private/iov-helper.h:107-155 | Entry by entry: what an advance has not reached, and what is empty, stays; what it uses up is nulled; the one where it ends is cut at the front. |
| `Scatter.ReversedAt` | include/private/iov-helper.h:161-206 | The same from the end. |
| `RecvSide.Receiver.RecvRc` | responder.c:372-520 | Over any split of the payload into buffers one arriving packet changes number, NAK flag, memory, queue, completions and replies as the specification function says, or stops at an assertion or overruns the vector's array exactly where that one does. |
| `RecvSide.Receiver.RecvPayload` | responder.c:218-277 | The SEND path: pointer, length assertions, cursor, mapping, array bound, page-count assertion, copy and completion, with each refusal and what it leaves behind. |
| `RecvSide.Receiver.WritePayload` | responder.c:279-352 | The RDMA WRITE path with the same exactness, including the receive request found missing after the bytes are written. |
| `RecvSide.Receiver.PopWr` | responder.c:162-177 | The request in progress or the next one, or none when the packet's place does not fit, with the pointer read through the union: a write to address zero looks like none, any other like one. |
| `RecvSide.Receiver.OutOfSeq` | responder.c:354-364 | One NAK for each gap. |
| `Recovery.GapIsAnswered` | responder.c:354-364 | A number 1 to 2^23 ahead appends exactly one NAK for the expected number if none is pending, sets the flag, and changes nothing else, whether the packet can be read or not. |
| `Recovery.ExpectedClearsFlag` | responder.c:394-394 | The expected number clears the flag, whatever comes of the packet. |
| `Recovery.OldIsIgnored` | responder.c:383-387 | A number less than 2^23 behind changes nothing. |
| `Receipt.GoodExactly` | responder.c:241-257 | A mapping is good if and only if it needs no more than 128 entries, every entry is admitted, the regions are of one kind and the vector has an entry for every page counted. |
| `Receipt.SendTakenExactly` | responder.c:218-277 | An expected SEND packet is taken if and only if the immediate of its opcode is there, a request is there for its place in the message, its length assertions hold, what is left of it is at least the payload, and the mapping of the next bytes is good. |
| `Receipt.SendTakenDoes` | responder.c:218-277 | Then memory holds the payload in the next bytes of the request, the cursor stands as many bytes further, as many more are counted; a last packet completes the request with the count and the immediate; the number advances and an ACK is sent if asked for. |
| `Receipt.SendNotTaken` | responder.c:224-254 | Otherwise number, memory, completions and replies stay. |
| `Receipt.TooLong` | responder.c:232-239 | A payload longer than what is left of its request is one such case; and if it begins a message the request is off the queue and in progress, so that the same packet is refused again whatever is posted. |
| `Receipt.WriteExactly` | responder.c:279-352 | An expected WRITE packet is taken if and only if its headers are there, its place fits the count of bytes written, the mapping of its range is good and, with an immediate, a receive request is there; what it then does to memory, cursor, queue, completions, number and replies. |
| `Receipt.WriteNakExactly` | responder.c:287-297 | It is answered by a NAK if and only if it claims to begin a message while bytes are counted or to continue one while none are. |
| `Responder.RefusedSendCanBeRetried` | responder.c:162-177 | A first or only SEND that finds no receive request changes nothing but the NAK flag, and is taken when it comes again after a request is posted. |
| `Delivery.MessageArrives` | responder.c:218-352 | The packets of a SEND, SEND with immediate or WRITE with immediate, fed in order, write exactly the sender's bytes to the target, consume one receive request and raise one completion with the message length. |
| `Delivery.TakeNext` | responder.c:218-352 | After any number of bytes: the next packet writes exactly its slice, and written length or receive cursor count exactly the bytes so far; the last one returns to idle. |
| `Limits.InvalidateNeverArrives` | responder.c:398-507 | A SEND that invalidates a key is never received as a whole, whatever the receiver has ready. |
| `Limits.PlainWriteArrives` | responder.c:279-352 | A whole plain WRITE, of any length and number of packets, writes exactly its bytes, consumes no receive request, raises no completion, and leaves the cursor open with its length. |
| `Limits.WriteAfterPlainWrite` | responder.c:287-297 | The write after it is refused with a NAK if and only if the message carried any bytes. |
| `Limits.OpenStaysOpen` | responder.c:287-297 | And for good: whatever arrives that does not continue the write leaves the count, and no write is taken. |
| `Limits.SendAfterPlainWrite` | include/private/roce-private.h:228-236 | The SEND after it is refused if the address was not zero, and otherwise does exactly what it does to an idle receiver. |
| `Limits.RefusedImmediateCannotBeRetried` | responder.c:320-345 | A one-packet write with an immediate that finds no receive request has stored and counted its bytes: when it comes again after a request is posted it is taken if it carries no bytes, and otherwise answered by a NAK and not taken. |
| `Safety.StepKeepsInv` | requester.c:516-714 | Posting and any arrival of any packet or reply ever sent, in any order and number, keep both ends and the network consistent in unbounded numbers. |
| `Safety.NoFalseCompletion` | requester.c:576-613 | In every run over a channel that drops, repeats and reorders, the completed requests are the first ones posted, in posting order, each once, and the receiver has taken every packet of each. |
| `Safety.ExactlyOnceInOrder` | responder.c:372-520 | In every such run the packets that the receiver took are the first ones built, without gap or repetition. |
| `Safety.WindowInEveryRun` | requester.c:516-549 | In every run the queued packets carry consecutive numbers from sq_psn to the one before req.psn, those out lie in [sq_psn, sq_psn + 8], and packets wait only while nine are out. |
| `Safety.QueuesAgreeInEveryRun` | requester.c:552-596 | In every run the requests that have packets are, in order, the ones that the queued packets name, so the popped request is the packet's. |
| `Safety.ExpectedIsNext` | responder.c:383-395 | A packet less than 2^24 away is taken for the expected one if and only if it is. |
| `Safety.AckedExactly` | requester.c:615-641 | A reply less than 2^24 behind retires exactly the packets it covers, and none if they are retired. |
| `Safety.AckTooOld` | requester.c:615-633 | That bound is exact: an old reply retires nothing if and only if it is less than 2^24 behind the next number to be built. |
| `Recovery.GapInRun` | responder.c:388-392 | In every run a packet beyond the expected one is answered by a NAK for the first missing packet, unless one is pending, and changes nothing else. |
| `Recovery.NakResends` | requester.c:652-676 | Delivering that NAK retires what was taken and puts the first missing packet, and after it all that the window holds, on the wire again. |
| `Recovery.EverythingArrivesAfterLoss` | requester.c:652-676 | From any state of any run over a channel that drops, repeats and reorders: after a packet beyond the expected one and the NAK it leaves, deliveries in order of what is then sent finish everything that was posted, with a receive request for every message. |
| `Reports.CompletionsInEveryRun` | requester.c:596-607 | In every run the completions are, in posting order and once each, those of the finished requests that are signaled, or of all the finished ones when the queue pair signals all, and of no others; in the latter case the k-th completion is that of the k-th request. |
| `EndToEnd.CompletionMeansDelivery` | requester.c:576-613 | In every run, with local and failed requests anywhere, when request k has completed at the sender, the receiver has raised its completion with length and immediate, and its memory holds exactly the bytes unless something later was sent there. |
| `EndToEnd.RunMoves` | responder.c:218-352 | In every run the receiver's memory, cursor, queue and completions are those of the messages taken so far plus a prefix of the next. |
| `Reports.ReportedIsDelivered` | requester.c:596-607 | Every completion that the sender has raised is that of a request whose completion the receiver has raised, and whose bytes its memory holds unless something later was sent there. |
| `Progress.WindowAsks` | requester.c:143-253 | A window that is not empty holds a packet that asks for an ACK. |
| `Progress.DeliveryShrinks` | requester.c:678-694 | On a channel that keeps order and loses nothing every delivery makes the measure smaller. |
| `Progress.IdleMeansDone` | requester.c:678-694 | Where nothing is left to deliver both queues are empty and every request has completed in posting order. |
| `Progress.NeverStuck` | requester.c:516-549 | While a packet is queued something can be delivered, provided the receiver takes what it expects. |
| `Progress.EveryRunDrains` | requester.c:678-714 | After any run, deliveries alone end within the measure, and where they end everything posted is done, where no assertion stops the run. |
| `Service.DeliversAll` | requester.c:678-714 | From a state with a receive request for every message there are deliveries after which the sender is done and the receiver's memory, completions and queue are what the messages alone determine, where no assertion stops them. |
| `Service.EverythingArrives` | responder.c:372-520 | The same after any run from the start. |
| `Service.ServedNotStuck` | responder.c:372-520 | On the way there a delivery is always possible. |
| `Asserted.StepPassesExactly` | requester.c:516-549 | Over any channel a step that refills the window passes the integer comparison if and only if no packet is out or the first unacknowledged number and the next new one have wrapped equally often. |
| `Asserted.NothingStopsBeforeTheWrap` | requester.c:516-549 | No step of any run stops there while the start number and the number of packets built stay below 2^24 together. |
| `Asserted.EverythingArrivesUnstopped` | include/private/util.h:60-60 | So in the build with assertions, too, everything arrives under that bound, and no move before or during the deliveries stops. |
| `CrcBits.TableIsBits` | crc.c:12-55 | Each of the 256 table entries is the bit-by-bit CRC of its index. |
| `CrcBits.TableStepIsBits` | crc.c:57-60 | One table step is eight steps of the bitwise CRC, for every state and byte. |
| `Crc.CrcBuffer` | crc.c:77-95 | The loops unrolled by eight, four and one compute the bitwise CRC of the bytes, for every length. |
| `Crc.CrcScattered` | crc.c:97-111 | The CRC over a vector is that of its bytes in order. |
| `Crc.SplittingDoesNotMatter` | crc.c:97-111 | Splitting an entry anywhere, and adding empty ones, changes nothing. |
| `Crc.CrcConcat` | crc.c:77-95 | The CRC can be continued from part to part. |
| `Headers.BthRoundTrip` | include/spec/ib-spec.h:84-275 | Every field of the base transport header is read back as it was set, whatever the reserved byte holds. |
| `Headers.OpcodeRoundTrip` | include/spec/ib-spec.h:84-97 | An opcode number is read back as its opcode exactly if the receiver has a case for it. |
| `Headers.EthRoundTrip` | responder.c:398-507 | Every extended header is read back, and the payload after it. |
| `Wire.IcrcOf` | crc.c:113-145 | The CRC of a packet over masked copies of its headers and its scattered body. |
| `Coverage.IpAlike` | crc.c:120-135 | Two IP headers count the same for the CRC if and only if they agree outside bytes 1, 8, 10 and 11 of an IPv4 header, or bytes 0 to 3 and 7 of an IPv6 header. |
| `Coverage.UdpAlike` | crc.c:137-138 | Two UDP headers if and only if they agree outside bytes 6 and 7. |
| `Coverage.BthAlike` | crc.c:140-142 | Two transport headers if and only if they agree outside byte 4. |
| `Coverage.SeedIsOnes` | crc.c:116-116 | The start value is the CRC state after eight bytes 0xff from 0xffffffff. |
| `Coverage.IcrcIs` | crc.c:113-145 | The value is the complement of the bitwise CRC-32, from all ones, of eight bytes 0xff, the masked headers with the options, and the body, least significant byte first. |
| `Coverage.SameIcrc` | crc.c:113-145 | Headers that agree in the bytes covered have the same CRC, whatever the options and the body. |
| `Coverage.AlteredFrameIsTaken` | crc.c:113-145 | A built frame that was altered in those bytes, in the prefix or in the sender's address is taken like the frame that was sent. |
| `Wire.FrameRoundTrip` | responder.c:25-129 | A frame built for IPv4 or IPv6 is accepted by the port it was sent to and gives back transport header and body, also after changes that stay under the masks. |
| `Wire.DecapFrame` | responder.c:25-129 | Over any split of the frame into buffers, decapsulation takes the headers off the front and the CRC off the back, and accepts exactly the frames whose address, lengths, port and CRC are right; or it reports the overrun. |
| `Wire.OverrunExactly` | responder.c:71-74 | The IP options overrun their array of sixty bytes if and only if an IPv4 frame to this port gives a header length below five and has more than sixty bytes after the fixed header. |
| `Coverage.TakenExactly` | responder.c:25-129 | Any bytes are taken if and only if, place by place, the destination address, the type, the lengths, the port and the CRC are right and the options fit; and what is taken are the transport header and the bytes between that and the CRC. |
| `PacketForm.PacketRoundTrip` | responder.c:626-674 | The receiver reads the opcode, number, flags, destination, extended header and unpadded payload that the sender built. |
| `PacketForm.Open` | responder.c:626-656 | The steps in place that check key and type and remove padding and extended header leave exactly the payload in the buffers, or the number alone of a request whose opcode is not served or whose header is cut short. |
| `Responder.BrokenIsRefused` | responder.c:383-395 | A request of which only the number can be read is judged by it, and does what a packet does that is refused without a mark or a NAK. |
| `Layout.Alloc` | netpkt.c:16-68 | A new packet has its header, padding and CRC slots in place and room for as many pages as the lower 16 bits of their count say. |
| `Layout.Seal` | netpkt.c:75-179 | The two counts over the slots give the lengths of the body for the headers and for the CRC, and the IP slot is filled last. |
| `Layout.SlotsAreFrame` | netpkt.c:33-65 | The slots in order read as the frame. |
| `PacketForm.ReplyRoundTrip` | netpkt.c:199-225 | An ACK or NAK arrives with its kind and number. |
| `Octets.BeDigit` | include/spec/ib-spec.h:346-360 | Numbers stand on the wire most significant byte first. |
| `Octets.RequestBytes` | netpkt.c:181-197 | The base transport header of a packet byte by byte: the number of its opcode, solicited bit and padding, the default key, destination, ACK bit and number; and the padding makes the payload of a last packet a multiple of four. |
| `Octets.ReplyBytes` | netpkt.c:199-225 | The header and the syndrome of an ACK and a NAK byte by byte. |
| `Octets.RethBytes` | include/spec/ib-spec.h:346-400 | The RDMA header: address, key and length. |
| `Octets.ShortEthBytes` | requester.c:102-116 | The immediate as it lies in memory, the key to invalidate most significant byte first; an RDMA header comes before an immediate. |
| `Octets.EthernetBytes` | netpkt.c:86-86 | The Ethernet header: receiver, sender and the type of what follows. |
| `Octets.LengthsAreRight` | netpkt.c:75-160 | The lengths in the IP and UDP headers are the numbers of bytes from or after the header, CRC included; addresses, protocol and ports are in place. |
| `Octets.LookedAtExactly` | responder.c:626-656 | The responder looks at a packet if and only if the bytes of its header say default key, reliable connection and no acknowledgement, and its padding is there; and reads numbers, bits and opcode at their places. |
| `Octets.WholeExactly` | responder.c:396-507 | Of that it reads a whole packet if and only if the opcode is one of 0 to 11 and the extended header of its size is there, and the payload is what lies between. |
| `Octets.ReplyReadExactly` | responder.c:485-497 | The requester reads a reply if and only if the bytes say acknowledgement with the syndrome of an ACK or a NAK. |
| `OverTheWire.SealedCarries` | netpkt.c:162-179 | What the sender hands to the network for a packet is a frame that carries it. |
| `OverTheWire.FrameDelivers` | responder.c:586-674 | A frame does to the receiver exactly what its packet does. |
| `OverTheWire.OthersChangeNothing` | responder.c:598-603 | A frame that is not taken, or not for this queue pair, changes nothing. |
| `OverTheWire.PacketsAreSendable` | requester.c:143-253 | Every packet built for a request of any length meets the conditions of the round trip. |
| `OverTheWire.RequestOverTheWire` | responder.c:25-129 | The frames of a request, changed under the masks and arriving in order, write exactly its bytes, consume one receive request, raise one completion and advance the number by the number of packets. |
| `FrameRuns.ReplyDelivers` | netpkt.c:199-225 | The frame of a reply does to the sender exactly what the reply does. |
| `FrameRuns.OtherRepliesChangeNothing` | responder.c:598-603 | Neither does one for another queue pair change the sender. |
| `FrameRuns.EndRunIs` | responder.c:676-701 | Two ends that read only frames are, after any run, in the state that the packets and replies they carry lead to. |
| `FrameRuns.FramesMeanDelivery` | requester.c:576-613 | In every run over a network that alters frames under the masks, drops, repeats and reorders them, a request reported complete by the sender has been completed by the receiver and its bytes are in memory. |
| `Ring.AddTail` | include/private/list.h:244-268 | Appends to the sequence that the ring holds. |
| `Ring.Del` | include/private/list.h:337-347 | Removes one element from it, at any place. |
| `Ring.Pop` | include/private/list.h:484-496 | Takes the head, or nothing from an empty ring. |
| `Ring.AppendList` | include/private/list.h:641-660 | Concatenates two rings and empties the second, either being possibly empty. |
| `Ring.MoveHead` | requester.c:65-74 | A packet moves from the head of the pending ring to the tail of the outgoing one; the two stay apart and concatenate to the same sequence. |
| `Ring.Separate` | include/private/list.h:164-268 | No node that the links of one ring visit is the head or an element of a ring with which it shares neither. |
| `Resource.Table.Alloc` | resource.c:51-74 | The first empty slot, or refusal exactly when there is none. |
| `Resource.Table.AllocAt` | resource.c:76-102 | The slot asked for, with each refusal exactly when its cause is there. |
| `Resource.Table.Get` | resource.c:104-121 | What is found under a handle has that handle. |
| `Resource.Table.Free` | resource.c:123-144 | Empties the slot, or refuses exactly when it is empty or out of range. |
| `Registry.Device.GetMrs` | mr.c:180-201 | The forward walk with its walk back on failure. |
| `Registry.Device.PutMr` | mr.c:164-178 | One reference less, and the end of a marked region with the last one. |
| `Registry.Device.DestroyMr` | mr.c:226-252 | A region in use is marked, another is freed and its domain released; balanced counts stay balanced exactly if the call is legal. |
| `Registry.Device.CreateQp` | qp.c:294-407 | References taken in turn, and given back on each error path that the code has; balanced counts stay balanced exactly if the call is legal. |
| `Registry.Device.DestroyQp` | qp.c:409-441 | Everything the queue pair held is given back, in the order of the code; balanced counts stay balanced exactly if the call is legal. |
| `Registry.Device.PostRecv` | qp.c:106-123 | References for all the entries, or the failure path that gives them back twice; balanced counts stay balanced exactly if the call is legal. |
| `Registry.Device.PostSend` | qp.c:159-192 | A request is queued with its references, or without any when one is missing; balanced counts stay balanced exactly if the call is legal. |
| `Handles.NewPd` | pd.c:18-45 | A new domain gets the first empty slot with no reference, or EBUSY is returned and nothing changes exactly if there is none. |
| `Handles.NewCq` | cq.c:17-51 | So does a completion queue, after the check of its size. |
| `Handles.NewAh` | ah.c:17-57 | So does an address handle, which takes a reference to its domain. |
| `Handles.NewMr` | mr.c:31-137 | So does a region, unused and unmarked, with a reference to its domain. |
| `Handles.NewQp` | qp.c:294-407 | So does a queue pair, with empty queues and references to its domain and to each of its completion queues. |
| `Handles.CountedGoes` | pd.c:83-108 | A domain or a completion queue goes if and only if it is there without references, with the return code of each case. |
| `Handles.HolderGoes` | mr.c:226-252 | An address handle and an unused region go with their references to the domain, a used region is marked, with the return code of each case. |
| `Handles.PostedIsQueued` | qp.c:106-192 | A send request is queued marked by whether all its keys name regions, a receive request is queued if and only if they do. |
| `Handles.QpGoes` | qp.c:409-441 | With a queue pair its queues go, and the request being filled is lost. |
| `Handles.HeadsMove` | requester.c:552-613 | The steps of the work queues take the heads off, and only a request skipped is lost. |
| `Balance.AllOrNone` | mr.c:180-201 | In a balanced state references are taken for every entry if and only if every key names a region, and otherwise nothing has changed. |
| `Balance.RollbackIsExact` | mr.c:194-200 | The walk back restores the state exactly, also for regions marked for destruction. |
| `Ownership.StepBalances` | mr.c:164-252 | After any call every domain's, queue's and region's count is what live objects and unfreed requests hold, marked regions are in use, and no assertion has failed: if and only if the call is one of the legal ones. |
| `Ownership.RunBalances` | qp.c:294-441 | A run stays balanced throughout if and only if each of its calls is legal when made. |
| `Ownership.NewDeviceBalances` | resource.c:16-38 | A device with empty tables is balanced. |
| `Ownership.FailedPostRecv` | qp.c:106-123 | A receive that cannot be posted breaks the counts if and only if one of its entries names a region. |
| `Ownership.DestroyQpBalances` | qp.c:334-338 | A queue pair can be destroyed soundly if and only if its receive completion queue existed when it was made, which creation does not check. |
| `Ownership.GoesExactlyWhenUnused` | mr.c:164-178 | A region disappears in exactly the step after which no unfreed request names it, its destruction having been asked for then or before. |
| `Ownership.UsedRegionStays` | mr.c:226-243 | While some request names a region it stays the same region, through any calls, and is marked if and only if it was or someone asked. |
| `Ownership.LostRequestPins` | requester.c:552-573 | A region named by a request that left its queue unfreed is never freed. |
| `Ownership.NothingWaits` | mr.c:226-252 | With the queue pairs gone and nothing lost, no region waits for destruction and each can be freed at once. |
| `Ownership.NoDanglingQp` | qp.c:409-441 | The domain and the completion queues of a live queue pair are live. |
| `Ownership.NoDanglingMr` | mr.c:226-252 | The domain of a live region is live. |
| `Ownership.NoDanglingAh` | ah.c:92-118 | The domain of a live address handle is live. |
| `Ownership.NoDanglingKeys` | qp.c:98-157 | Every key of every queued or partly filled request names a live region. |
| `Ownership.DeallocPdExactly` | pd.c:83-108 | A domain can be returned if and only if no live handle, region or queue pair was made in it. |
| `Ownership.DestroyCqExactly` | cq.c:97-122 | A completion queue can be destroyed if and only if no live queue pair completes to it. |

## Left out

- Concurrency and locks: each handler is one atomic step; the locks are callbacks of the user.
- UD, GSI and SMI traffic, the global routing header and inline sends: single packets, or byte views of the entry array.
- DMA memory regions; the translation covers regions with page vectors. Fast-registration regions occur only as states.
- MSN values, RNR NAK, timers, SRQ, memory windows, RDMA READ and atomics: absent or unfinished in the code.
- Queue-pair reference counts: taken, not given back, and never consulted.
- Addresses are unbounded numbers: an entry whose end passes 2^64 is outside the model.
- Reference counts are unbounded integers: 2^32 references to one region are outside the model.
- The payload of a packet is what the buffers hold when the request is posted; the code keeps pointers, so an application that overwrites a buffer early resends other bytes.
- The SEND and the WRITE builders are one parameterised builder: they differ in opcodes and extended headers.
- What a pointer reads as when it is used as an address, and an address used as a pointer: the union of the receive request and the write cursor is modelled up to there, where the outcome is `Aborted`.
- The immediate is kept in the byte order of memory, as the code does; the machine is little-endian.
- IPv4 header checksum, time to live, type of service, flow label and the other fields that the CRC masks are parameters.
- Argument checks of object creation (page size, length, capabilities) are parameters of the lifetime model: their outcome decides the branch.
- Work requests in the lifetime model are their key lists; that they leave the queues in posting order is shown by the sender's and the receiver's models.
- Memory allocation does not fail.
- Which replies of an earlier connection may still be under way: a connection begins after both ends have their numbers.
- SendSide.Sender.RequestRc: requires regions that have a page for every byte, of pages made of the context's pages, at most 64 entries, and for pages of the context above 64 KiB buffers that straddle no multiple of 2^32, since there the 16-bit count can reserve fewer slots than the mapping writes.
- RecvSide.Receiver.RecvRc: requires regions that have a page for every byte, and fewer than 2^32 bytes.
- Delivery.MessageArrives: and the other theorems on whole messages, take path MTUs no larger than the context's page, as `RecvSide.ShortPayloadFits` needs; with smaller pages 64 buffers can need more than 128 vector entries.
- Progress.EveryRunDrains: holds of a build without assertions, or before the numbers wrap, as `Asserted.NothingStopsBeforeTheWrap` says.
- Service.DeliversAll: likewise.
- EndToEnd.CompletionMeansDelivery: considers runs in which the i-th receive request has room for the i-th message, the remote buffer of a write is ready, and the packet with an immediate that is due finds a receive request, since the code stores the bytes and moves its cursor before it looks for one.
- Service.EverythingArrives: needs a channel that loses nothing and keeps the order, because nothing is sent again without a NAK and duplicates are not acknowledged again; and a build without assertions, or `Asserted.EverythingArrivesUnstopped` and its bound.
- SendSide.Sender.XmitPkts: in a build with assertions the process stops where the result says that the comparison does not hold; the state described is that of a build without.
- SendSide.BuildMulti: the same conditions on regions and buffers as for `SendSide.Sender.RequestRc`.
- SendSide.BuildPkts: likewise.
- RecvSide.Receiver.WritePayload: requires that the region that the write goes to has a page for every byte.
- Translate.MapSge: requires a page for every byte of an entry that passes the range check; registration does not check it, and the code reads beyond the vector of the region where there is none.
- Scatter.IovLen: sums of 2^32 bytes and more wrap in the code; no frame and no packet has as many.
- Scatter.IovCopy: requires as many bytes as are asked for; with fewer the code counts one entry that it has not written, and the range check rules that out.
- Registry.Device.CreateQp: the branch for the GSI queue pair, which has a fixed slot, and the refusal of types that are not supported.
- Handles.NewQp: likewise.
- PacketForm.Open: the lookup of the queue pair and the check of its state come before and are parameters.
