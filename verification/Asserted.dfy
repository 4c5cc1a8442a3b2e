/**
 The build that stops where an assertion fails.  Whenever the sender refills its window
 it asserts an order of plain numbers, which 24-bit numbers that wrap do not keep: when
 that stops a run, and until when nothing does.
 */
module Asserted {
  import opened Psn
  import opened Types
  import opened Scatter
  import opened Requester
  import opened Segment
  import opened Responder
  import opened Delivery
  import opened Streams
  import opened Protocol
  import opened Safety
  import opened Integrity
  import opened EndToEnd
  import opened Progress
  import opened Service

  /** A step of the sender refills the window. */
  predicate Refills(e: Event) { e.PostSend? || e.DeliverReply? }

  /** The sender just before. */
  function Tested(c: Config, s: Net, e: Event): (q: Req)
    requires s.req.out <= |s.req.queue| && Enabled(c, s, e)
    ensures q.out <= |q.queue|
  {
    match e
    case PostSend(w, data) => Enqueue(s.req, w, Packets(w, data, c.mtu, s.req.reqPsn))
    case DeliverReply(j) => Heard(c.sigAll, s.req, s.rsp.replies[j].nak, s.rsp.replies[j].psn)
    case _ => s.req
  }

  /** The step does not stop at the assertion. */
  predicate Passes(c: Config, s: Net, e: Event)
    requires s.req.out <= |s.req.queue| && Enabled(c, s, e)
  {
    Refills(e) ==> PlainOrder(Tested(c, s, e))
  }

  /** How often a 24-bit counter has wrapped. */
  function Lap(n: int): int { n / PSN_SPACE }

  lemma {:induction false} SameLap(n: int, len: nat)
    requires len < HALF_SPACE
    ensures Wrap(n) <= Wrap(n + len) <==> Lap(n) == Lap(n + len)
  {
  }

  predicate SameNumbers(q: Req, r: Req) { q.queue == r.queue && q.sqPsn == r.sqPsn && q.reqPsn == r.reqPsn }

  lemma {:induction false} PostKeepsNumbers(q: Req, w: SendWr, pkts: seq<Pkt>)
    requires q.out <= |q.queue|
    ensures SameNumbers(Enqueue(q, w, pkts), Post(q, w, pkts))
  {
  }

  lemma {:induction false} ReplyKeepsNumbers(sigAll: bool, q: Req, nak: bool, psn: psn24)
    requires q.out <= |q.queue|
    ensures SameNumbers(Heard(sigAll, q, nak, psn), if nak then Nak(sigAll, q, psn) else AckAndRefill(sigAll, q, psn))
  {
  }

  /** Refilling changes neither the queue nor the numbers. */
  lemma {:induction false} RefillKeepsNumbers(c: Config, s: Net, e: Event, q: Req, t: Net)
    requires s.req.out <= |s.req.queue| && Enabled(c, s, e) && Refills(e)
    requires q == Tested(c, s, e) && t == Apply(c, s, e)
    ensures SameNumbers(q, t.req)
  {
    match e
    case PostSend(w, data) => PostKeepsNumbers(s.req, w, Packets(w, data, c.mtu, s.req.reqPsn));
    case DeliverReply(j) => ReplyKeepsNumbers(c.sigAll, s.req, s.rsp.replies[j].nak, s.rsp.replies[j].psn);
    case _ =>
  }

  lemma {:induction false} OrderInLaps(base: int, q: Req, r: Req, b: seq<Pkt>, retired: nat)
    requires ReqInv(r) && SendOk(base, r, b, retired) && q.out <= |q.queue| && SameNumbers(q, r)
    ensures PlainOrder(q) <==> q.out == 0 || Lap(base + retired) == Lap(base + |b|)
  {
    OrderUntilWrap(q);
    NextNumber(base, r, b, retired);
    SameLap(base + retired, |q.queue|);
  }

  lemma {:induction false} InvOrder(c: Config, q: Req, t: Net)
    requires Inv(c, t) && q.out <= |q.queue| && SameNumbers(q, t.req)
    ensures PlainOrder(q) <==> q.out == 0 || Lap(c.base + t.retired) == Lap(c.base + |AllBuilt(c, t)|)
  {
    OrderInLaps(c.base, q, t.req, AllBuilt(c, t), t.retired);
  }

  lemma {:induction false} TestedInOrder(c: Config, s: Net, e: Event, q: Req, t: Net)
    requires s.req.out <= |s.req.queue| && Enabled(c, s, e) && Refills(e)
    requires q == Tested(c, s, e) && t == Apply(c, s, e) && Inv(c, t)
    ensures PlainOrder(q) <==> q.out == 0 || Lap(c.base + t.retired) == Lap(c.base + |AllBuilt(c, t)|)
  {
    assert SameNumbers(q, t.req) by { RefillKeepsNumbers(c, s, e, q, t); }
    InvOrder(c, q, t);
  }

  lemma {:induction false} StepInv(c: Config, s: Net, e: Event, t: Net)
    requires Inv(c, s) && Enabled(c, s, e) && t == Apply(c, s, e)
    ensures Inv(c, t)
  {
    StepKeepsInv(c, s, e);
  }

  /** A step passes the assertion exactly if no packet is out or the first unacknowledged
      number and the next new one have wrapped equally often. */
  lemma {:induction false} StepPassesExactly(c: Config, s: Net, e: Event, t: Net)
    requires Inv(c, s) && Enabled(c, s, e) && Refills(e) && t == Apply(c, s, e)
    ensures Passes(c, s, e) <==> Tested(c, s, e).out == 0 || Lap(c.base + t.retired) == Lap(c.base + |AllBuilt(c, t)|)
  {
    assert Inv(c, t) by { StepInv(c, s, e, t); }
    var q := Tested(c, s, e);
    assert PlainOrder(q) <==> q.out == 0 || Lap(c.base + t.retired) == Lap(c.base + |AllBuilt(c, t)|) by {
      TestedInOrder(c, s, e, q, t);
    }
  }

  lemma {:induction false} EarlyLaps(c: Config, t: Net)
    requires Inv(c, t) && c.base + |AllBuilt(c, t)| < PSN_SPACE
    ensures Lap(c.base + t.retired) == Lap(c.base + |AllBuilt(c, t)|)
  {
    InFirstLap(c.base, t.retired, |AllBuilt(c, t)|);
  }

  lemma {:induction false} InFirstLap(base: nat, i: nat, n: nat)
    requires i <= n && base + n < PSN_SPACE
    ensures Lap(base + i) == Lap(base + n)
  {
  }

  // ----- runs

  lemma {:induction false} BuiltGrows(c: Config, s: Net, e: Event)
    requires Inv(c, s) && Enabled(c, s, e)
    ensures |AllBuilt(c, s)| <= |AllBuilt(c, Apply(c, s, e))|
  {
    if e.PostSend? {
      var pkts := Packets(e.w, e.data, c.mtu, s.req.reqPsn);
      BuiltAfterPost(c, s, Post(s.req, e.w, pkts), e.w, e.data, pkts);
    }
  }

  lemma {:induction false} RunBuilds(c: Config, s: Net, events: seq<Event>, t: Net)
    requires Inv(c, s) && Run(c, s, events) == Some(t)
    ensures |AllBuilt(c, s)| <= |AllBuilt(c, t)|
    decreases |events|
  {
    if events != [] {
      StepKeepsInv(c, s, events[0]);
      BuiltGrows(c, s, events[0]);
      RunBuilds(c, Apply(c, s, events[0]), events[1..], t);
    }
  }

  /** No step of the run stops at the assertion. */
  predicate Unstopped(c: Config, s: Net, events: seq<Event>)
    requires Inv(c, s)
    decreases |events|
  {
    events != [] && Enabled(c, s, events[0]) ==>
      && Passes(c, s, events[0])
      && (StepKeepsInv(c, s, events[0]); Unstopped(c, Apply(c, s, events[0]), events[1..]))
  }

  lemma {:induction false} EarlyStepPasses(c: Config, s: Net, e: Event)
    requires Inv(c, s) && Enabled(c, s, e) && c.base + |AllBuilt(c, Apply(c, s, e))| < PSN_SPACE
    ensures Passes(c, s, e)
  {
    if Refills(e) {
      var t := Apply(c, s, e);
      assert Lap(c.base + t.retired) == Lap(c.base + |AllBuilt(c, t)|) by {
        StepInv(c, s, e, t);
        EarlyLaps(c, t);
      }
      StepPassesExactly(c, s, e, t);
    }
  }

  /** Until the numbers wrap nothing stops: over any channel, whatever it loses, repeats and
      reorders. */
  lemma {:induction false} NothingStopsBeforeTheWrap(c: Config, s: Net, events: seq<Event>, t: Net)
    requires Inv(c, s) && Run(c, s, events) == Some(t) && c.base + |AllBuilt(c, t)| < PSN_SPACE
    ensures Unstopped(c, s, events)
    decreases |events|
  {
    if events != [] {
      StepKeepsInv(c, s, events[0]);
      RunBuilds(c, Apply(c, s, events[0]), events[1..], t);
      EarlyStepPasses(c, s, events[0]);
      NothingStopsBeforeTheWrap(c, Apply(c, s, events[0]), events[1..], t);
    }
  }

  // ----- runs on a channel that keeps the order

  /** The moves as events. */
  function EventsOf(c: Config, s: Fifo, moves: seq<Move>): seq<Event>
    requires FifoInv(c, s)
    decreases |moves|
  {
    if moves == [] || !Can(c, s, moves[0]) then []
    else
      MoveKeeps(c, s, moves[0]);
      [EventOf(s, moves[0])] + EventsOf(c, Do(c, s, moves[0]), moves[1..])
  }

  lemma {:induction false} PlayIsRun(c: Config, s: Fifo, moves: seq<Move>, t: Fifo)
    requires FifoInv(c, s) && Play(c, s, moves) == Some(t)
    ensures Run(c, s.net, EventsOf(c, s, moves)) == Some(t.net)
    decreases |moves|
  {
    if moves != [] {
      MoveKeeps(c, s, moves[0]);
      var e, next := EventOf(s, moves[0]), Do(c, s, moves[0]);
      PlayIsRun(c, next, moves[1..], t);
      RunCons(c, s.net, e, EventsOf(c, next, moves[1..]), t.net);
    }
  }

  lemma {:induction false} RunCons(c: Config, s: Net, e: Event, rest: seq<Event>, t: Net)
    requires Inv(c, s) && Enabled(c, s, e) && Inv(c, Apply(c, s, e)) && Run(c, Apply(c, s, e), rest) == Some(t)
    ensures Run(c, s, [e] + rest) == Some(t)
  {
    assert ([e] + rest)[1..] == rest;
  }

  /** Everything arrives in this build too, if the numbers of all the packets built stay
      below 2^24: neither what was done before nor the deliveries stop. */
  lemma {:induction false} EverythingArrivesUnstopped(c: Config, mem: Mem, before: seq<Move>, s: Fifo)
    returns (moves: seq<Move>, t: Fifo)
    requires c.mtu <= c.env.pageSize
    requires Suited(c, Begin(c, mem), before) && Play(c, Begin(c, mem), before) == Some(s)
    requires |s.net.msgs| <= |s.net.recvs| && c.base + |AllBuilt(c, s.net)| < PSN_SPACE
    ensures Deliveries(moves) && Play(c, s, moves) == Some(t)
    ensures Unstopped(c, Begin(c, mem).net, EventsOf(c, Begin(c, mem), before))
    ensures Unstopped(c, s.net, EventsOf(c, s, moves))
    ensures t.net.req.sq == [] && t.net.req.cq == Completions(c.sigAll, Ws(s.net.msgs))
    ensures t.net.rsp.data == Settled(c.env, mem, s.net.msgs, s.net.recvs, |s.net.msgs|)
  {
    moves, t := EverythingArrives(c, mem, before, s);
    PlayUnstopped(c, Begin(c, mem), before, s);
    PlayUnstopped(c, s, moves, t);
  }

  lemma {:induction false} PlayUnstopped(c: Config, s: Fifo, moves: seq<Move>, t: Fifo)
    requires FifoInv(c, s) && Play(c, s, moves) == Some(t) && c.base + |AllBuilt(c, t.net)| < PSN_SPACE
    ensures Unstopped(c, s.net, EventsOf(c, s, moves))
  {
    PlayIsRun(c, s, moves, t);
    NothingStopsBeforeTheWrap(c, s.net, EventsOf(c, s, moves), t.net);
  }
}
