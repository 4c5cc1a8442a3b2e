/**
 Who is told what: the completions of the sender, one by one, against the requests that
 were posted, and with them what the receiver has.
 */
module Reports {
  import opened Psn
  import opened Types
  import opened Scatter
  import opened Requester
  import opened Segment
  import opened Responder
  import opened Delivery
  import opened Streams
  import opened Protocol
  import opened Safety
  import opened Integrity
  import opened EndToEnd
  import opened Progress
  import opened Service

  /** wc is the completion of a request: its number, the length of its buffers, and the code
      of its operation. */
  predicate Reports(wc: Wc, w: SendWr) {
    && wc.wrId == w.wrId && wc.byteLen == SgeLen(w.sges)
    && (w.op.WrSend? ==> wc.op == WcSend && wc.flags == WcPlain)
    && (w.op.WrSendWithImm? ==> wc.op == WcSend && wc.flags == WcWithImm)
    && (w.op.WrSendWithInv? ==> wc.op == WcSend && wc.flags == WcWithInvalidate)
    && (w.op.WrWrite? ==> wc.op == WcRdmaWrite && wc.flags == WcPlain)
    && (w.op.WrWriteWithImm? ==> wc.op == WcRdmaWrite && wc.flags == WcWithImm)
    && (w.op.WrRead? ==> wc.op == WcRdmaRead && wc.flags == WcPlain)
    && (w.op.WrCmpAndSwp? ==> wc.op == WcCompSwap && wc.flags == WcPlain)
    && (w.op.WrFetchAndAdd? ==> wc.op == WcFetchAdd && wc.flags == WcPlain)
    && (w.op.WrAtomicWrite? ==> wc.op == WcAtomicWrite && wc.flags == WcPlain)
    && (w.op.WrFlush? ==> wc.op == WcFlush && wc.flags == WcPlain)
  }

  predicate Increasing(s: seq<nat>) { forall i, j :: 0 <= i < j < |s| ==> s[i] < s[j] }

  /** who are the positions in ws of the requests that cq reports: those that are signaled,
      or all, each once and in order. */
  predicate ReportOf(sigAll: bool, cq: seq<Wc>, ws: seq<SendWr>, who: seq<nat>) {
    && |who| == |cq| && Increasing(who)
    && (forall j :: 0 <= j < |who| ==>
          who[j] < |ws| && (sigAll || ws[who[j]].signaled) && Reports(cq[j], ws[who[j]]))
    && (forall i :: 0 <= i < |ws| && (sigAll || ws[i].signaled) ==> i in who)
  }

  /** The completions of a list of requests are a report of it. */
  lemma {:induction false} CompletionsReport(sigAll: bool, ws: seq<SendWr>) returns (who: seq<nat>)
    ensures ReportOf(sigAll, Completions(sigAll, ws), ws, who)
  {
    if ws == [] {
      who := [];
    } else {
      var m := |ws| - 1;
      var before := CompletionsReport(sigAll, ws[..m]);
      assert ws == ws[..m] + [ws[m]];
      CompletionsConcat(sigAll, ws[..m], [ws[m]]);
      CompletionOfOne(sigAll, ws[m]);
      who := before + if sigAll || ws[m].signaled then [m] else [];
      ReportGrows(sigAll, Completions(sigAll, ws[..m]), ws[..m], before, ws[m]);
    }
  }

  lemma {:induction false} CompletionOfOne(sigAll: bool, w: SendWr)
    ensures var one := Completions(sigAll, [w]);
      if sigAll || w.signaled then |one| == 1 && Reports(one[0], w) else one == []
  {
    assert [w][1..] == [];
  }

  lemma {:induction false} ReportGrows(sigAll: bool, cq: seq<Wc>, ws: seq<SendWr>, who: seq<nat>, w: SendWr)
    requires ReportOf(sigAll, cq, ws, who)
    ensures var now := sigAll || w.signaled;
      ReportOf(sigAll, cq + Completions(sigAll, [w]), ws + [w], who + if now then [|ws|] else [])
  {
    CompletionOfOne(sigAll, w);
    forall i | 0 <= i < |ws + [w]| && (sigAll || (ws + [w])[i].signaled)
      ensures i in who + if sigAll || w.signaled then [|ws|] else []
    {
      if i == |ws| {
        assert (who + [|ws|])[|who|] == |ws|;
      }
    }
  }

  lemma {:induction false} NotBefore(s: seq<nat>, k: nat)
    requires Increasing(s) && k < |s|
    ensures s[k] >= k
  {
    if k > 0 {
      NotBefore(s, k - 1);
    }
  }

  /** Increasing numbers among which every number below n is stand at their own places. */
  lemma {:induction false} DenseAt(s: seq<nat>, n: nat, i: nat)
    requires Increasing(s) && i < n && forall k :: 0 <= k < n ==> k in s
    ensures i < |s| && s[i] == i
  {
    assert i in s;
    var k: nat :| k < |s| && s[k] == i;
    NotBefore(s, k);
    if k < i {
      DenseAt(s, n, k);
    }
  }

  /** With every request signaled the k-th completion is that of the k-th request. */
  lemma {:induction false} AllReported(cq: seq<Wc>, ws: seq<SendWr>, who: seq<nat>)
    requires ReportOf(true, cq, ws, who)
    ensures |cq| == |ws| && forall k :: 0 <= k < |ws| ==> Reports(cq[k], ws[k])
  {
    if |ws| > 0 {
      DenseAt(who, |ws|, |ws| - 1);
    }
    if |who| > 0 {
      NotBefore(who, |who| - 1);
    }
    forall k | 0 <= k < |ws| ensures Reports(cq[k], ws[k]) {
      DenseAt(who, |ws|, k);
    }
  }

  // ----- runs

  /** In every run the completions are, in posting order and once each, those of the signaled
      requests among the finished ones, or of all the finished ones, and of no others. */
  lemma {:induction false} CompletionsInEveryRun(c: Config, s: Net) returns (who: seq<nat>)
    requires Reachable(c, s)
    ensures var d := Finished(AllBuilt(c, s), s.retired);
      && d <= |s.msgs|
      && ReportOf(c.sigAll, s.req.cq, Ws(s.msgs)[..d], who)
      && (c.sigAll ==> |s.req.cq| == d && forall k :: 0 <= k < d ==> Reports(s.req.cq[k], s.msgs[k].w))
  {
    var d := Finished(AllBuilt(c, s), s.retired);
    NoFalseCompletion(c, s);
    who := CompletionsReport(c.sigAll, Ws(s.msgs)[..d]);
    if c.sigAll {
      AllReported(s.req.cq, Ws(s.msgs)[..d], who);
      assert forall k :: 0 <= k < d ==> Ws(s.msgs)[..d][k] == s.msgs[k].w;
    }
  }

  /** A completion that the sender has raised stands for a request whose completion the
      receiver has raised too, and whose bytes are in memory unless something later was sent
      there. */
  lemma {:induction false} ReportedIsDelivered(c: Config, mem: Mem, events: seq<Event>, s: Net, j: nat) returns (k: nat)
    requires Leads(c, mem, events, s) && j < |s.req.cq|
    ensures AllFit(c.env, s.msgs, s.recvs) && k < |s.msgs| && k < |s.recvs| && k < |s.rsp.data.cq|
    ensures (c.sigAll || s.msgs[k].w.signaled) && Reports(s.req.cq[j], s.msgs[k].w)
    ensures s.rsp.data.cq[k] == RecvWcOf(s.msgs[k], s.recvs[k])
    ensures Alone(c.env, s.msgs, s.recvs, k) ==>
      Read(s.rsp.data.mem, Target(c.env, s.msgs[k], s.recvs[k])) == s.msgs[k].data
  {
    assert Reachable(c, s) by { assert ReachedBy(c, s, mem, events); }
    var who := CompletionsInEveryRun(c, s);
    k := who[j];
    CompletionMeansDelivery(c, mem, events, s, k);
  }
}
