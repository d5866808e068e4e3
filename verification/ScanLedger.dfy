/**
 What the scans of a run found and what becomes of it, said by the run's actions alone: no report is
 changed, lost or doubled on its way from the scan to the collector (pqcscan/src/scan.rs).
 */
module ScanLedger {
  import opened Common
  import opened ScanTypes
  import opened ScanPool

  /** What the scans returned, in order. */
  function Finished(actions: seq<Action>): seq<ScanResult> {
    if actions == [] then []
    else
      var front, last := actions[..|actions| - 1], actions[|actions| - 1];
      Finished(front) + if last.Finish? then [last.result] else []
  }

  /** What the last scan of a worker returned. */
  function LastFinish(w: nat, actions: seq<Action>): Option<ScanResult> {
    if actions == [] then None
    else
      var front, last := actions[..|actions| - 1], actions[|actions| - 1];
      if last.Finish? && last.w == w then Some(last.result) else LastFinish(w, front)
  }

  /** What the workers sent, in order: each what its last scan returned. */
  function Sent(actions: seq<Action>): seq<ScanResult> {
    if actions == [] then []
    else
      var front, last := actions[..|actions| - 1], actions[|actions| - 1];
      Sent(front) + if last.Report? then AsSeq(LastFinish(last.w, front)) else []
  }

  function AsSeq(r: Option<ScanResult>): seq<ScanResult> {
    if r.Some? then [r.value] else []
  }

  /** The reports in a result channel. */
  function ReportsIn(outbox: seq<ScanResult>): seq<ScanResult> {
    if outbox == [] then [] else (if outbox[0].Done? then [] else [outbox[0]]) + ReportsIn(outbox[1..])
  }

  /** The reports workers hold. */
  function InFlight(workers: seq<Worker>): multiset<ScanResult> {
    if workers == [] then multiset{} else InFlight(workers[..|workers| - 1]) + Held(workers[|workers| - 1])
  }

  function Held(w: Worker): multiset<ScanResult> {
    if w.Reporting? then multiset{w.result} else multiset{}
  }

  // ----- the invariant -----

  predicate HoldsLast(actions: seq<Action>, workers: seq<Worker>, w: nat) {
    w < |workers| && workers[w].Reporting? ==> LastFinish(w, actions) == Some(workers[w].result)
  }

  ghost predicate Ledger(actions: seq<Action>, s: Pool) {
    && (forall w: nat :: HoldsLast(actions, s.workers, w))
    && s.results + ReportsIn(s.outbox) == Sent(actions)
    && multiset(Sent(actions)) + InFlight(s.workers) == multiset(Finished(actions))
  }

  lemma Snoc(actions: seq<Action>, a: Action, w: nat)
    ensures Finished(actions + [a]) == Finished(actions) + if a.Finish? then [a.result] else []
    ensures LastFinish(w, actions + [a]) == if a.Finish? && a.w == w then Some(a.result) else LastFinish(w, actions)
    ensures Sent(actions + [a]) == Sent(actions) + if a.Report? then AsSeq(LastFinish(a.w, actions)) else []
  {
    assert (actions + [a])[..|actions|] == actions;
  }

  lemma {:induction false} ReportsInSnoc(outbox: seq<ScanResult>, r: ScanResult)
    ensures ReportsIn(outbox + [r]) == ReportsIn(outbox) + if r.Done? then [] else [r]
  {
    if outbox == [] {
      assert [r][1..] == [];
    } else {
      ReportsInSnoc(outbox[1..], r);
      assert (outbox + [r])[1..] == outbox[1..] + [r];
    }
  }

  lemma {:induction false} InFlightUpdate(workers: seq<Worker>, i: nat, w: Worker)
    requires i < |workers|
    ensures InFlight(workers[i := w]) + Held(workers[i]) == InFlight(workers) + Held(w)
  {
    hide Held;
    var n := |workers| - 1;
    var front := InFlight(workers[..n]);
    if i == n {
      assert workers[i := w][..n] == workers[..n];
      assert front + Held(w) + Held(workers[n]) == front + Held(workers[n]) + Held(w);
    } else {
      assert workers[i := w][..n] == workers[..n][i := w];
      InFlightUpdate(workers[..n], i, w);
      var front' := InFlight(workers[..n][i := w]);
      assert front' + Held(workers[n]) + Held(workers[i]) == (front' + Held(workers[i])) + Held(workers[n]);
      assert front + Held(workers[n]) + Held(w) == (front + Held(w)) + Held(workers[n]);
    }
  }

  lemma {:induction false} NoneInFlight(workers: seq<Worker>)
    requires forall w | w in workers :: !w.Reporting?
    ensures InFlight(workers) == multiset{}
  {
    if workers != [] {
      NoneInFlight(workers[..|workers| - 1]);
    }
  }

  lemma LedgerInitial(targets: seq<Target>, numThreads: nat, scanType: ScanType)
    ensures Ledger([], Initial(targets, numThreads, scanType))
  {
    NoneInFlight(Initial(targets, numThreads, scanType).workers);
  }

  /** What each worker holds is what its last scan returned. */
  lemma HoldsLastStep(actions: seq<Action>, s: Pool, a: Action, w: nat)
    requires HoldsLast(actions, s.workers, w) && Enabled(s, a)
    ensures HoldsLast(actions + [a], Apply(s, a).workers, w)
  {
    Snoc(actions, a, w);
    hide Finished, Sent, LastFinish;
  }

  lemma CollectKeepsOrder(results: seq<ScanResult>, outbox: seq<ScanResult>)
    requires outbox != []
    ensures (if outbox[0].Done? then results else results + [outbox[0]]) + ReportsIn(outbox[1..])
            == results + ReportsIn(outbox)
  {
    var rest := ReportsIn(outbox[1..]);
    if outbox[0].Done? {
      assert [] + rest == rest;
    } else {
      assert results + [outbox[0]] + rest == results + ([outbox[0]] + rest);
    }
  }

  lemma OrderStep(actions: seq<Action>, s: Pool, a: Action)
    requires Ledger(actions, s) && Enabled(s, a)
    requires a.Report? ==> !s.workers[a.w].result.Done?
    ensures var s' := Apply(s, a); s'.results + ReportsIn(s'.outbox) == Sent(actions + [a])
  {
    Snoc(actions, a, 0);
    assert a.Report? ==> HoldsLast(actions, s.workers, a.w);
    assert s.results + ReportsIn(s.outbox) == Sent(actions);
    hide Finished, Sent, LastFinish, InFlight, ReportsIn, Ledger, HoldsLast, ReportsOn;
    if a.Report? {
      ReportsInSnoc(s.outbox, s.workers[a.w].result);
      AppendBoth(s.results, ReportsIn(s.outbox), Sent(actions), [s.workers[a.w].result]);
    } else if a.Quit? {
      ReportsInSnoc(s.outbox, Done);
      AppendBoth(s.results, ReportsIn(s.outbox), Sent(actions), []);
    } else if a.Collect? {
      CollectKeepsOrder(s.results, s.outbox);
      AppendBoth(s.results, ReportsIn(s.outbox), Sent(actions), []);
    } else {
      AppendBoth(s.results, ReportsIn(s.outbox), Sent(actions), []);
    }
  }

  lemma AppendBoth(results: seq<ScanResult>, reports: seq<ScanResult>, sent: seq<ScanResult>, more: seq<ScanResult>)
    requires results + reports == sent
    ensures results + (reports + more) == sent + more
    ensures more == [] ==> reports + more == reports && sent + more == sent
  {
  }

  /** A scan that ends adds its report to those held, and sending takes it off. */
  lemma FlightChange(s: Pool, a: Action)
    requires Enabled(s, a)
    ensures a.Finish? ==> InFlight(Apply(s, a).workers) == InFlight(s.workers) + multiset{a.result}
    ensures a.Report? ==> InFlight(s.workers) == InFlight(Apply(s, a).workers) + multiset{s.workers[a.w].result}
    ensures !a.Finish? && !a.Report? ==> InFlight(Apply(s, a).workers) == InFlight(s.workers)
  {
    if a.Collect? {
      assert Apply(s, a).workers == s.workers;
    } else {
      var w := Apply(s, a).workers[a.w];
      assert Apply(s, a).workers == s.workers[a.w := w];
      HeldChange(s, a);
      hide *;
      InFlightUpdate(s.workers, a.w, w);
      Cancel(InFlight(s.workers[a.w := w]), InFlight(s.workers), Held(s.workers[a.w]), Held(w));
    }
  }

  lemma HeldChange(s: Pool, a: Action)
    requires Enabled(s, a) && !a.Collect?
    ensures Held(s.workers[a.w]) == if a.Report? then multiset{s.workers[a.w].result} else multiset{}
    ensures Held(Apply(s, a).workers[a.w]) == if a.Finish? then multiset{a.result} else multiset{}
  {
    hide ReportsOn;
  }

  lemma Cancel<T>(a: multiset<T>, b: multiset<T>, x: multiset<T>, y: multiset<T>)
    requires a + x == b + y
    ensures x == multiset{} ==> a == b + y
    ensures y == multiset{} ==> b == a + x
  {
  }

  lemma Finishing(sent: seq<ScanResult>, inFlight: multiset<ScanResult>, finished: seq<ScanResult>, r: ScanResult)
    requires multiset(sent) + inFlight == multiset(finished)
    ensures multiset(sent + []) + (inFlight + multiset{r}) == multiset(finished + [r])
  {
    assert sent + [] == sent && multiset(finished + [r]) == multiset(finished) + multiset{r};
    assert multiset(sent) + (inFlight + multiset{r}) == (multiset(sent) + inFlight) + multiset{r};
  }

  lemma Sending(sent: seq<ScanResult>, inFlight: multiset<ScanResult>, finished: seq<ScanResult>, r: ScanResult)
    requires multiset(sent) + (inFlight + multiset{r}) == multiset(finished)
    ensures multiset(sent + [r]) + inFlight == multiset(finished + [])
  {
    assert finished + [] == finished && multiset(sent + [r]) == multiset(sent) + multiset{r};
    assert multiset(sent) + (inFlight + multiset{r}) == (multiset(sent) + multiset{r}) + inFlight;
  }

  lemma FlightStep(actions: seq<Action>, s: Pool, a: Action)
    requires Ledger(actions, s) && Enabled(s, a)
    ensures multiset(Sent(actions + [a])) + InFlight(Apply(s, a).workers) == multiset(Finished(actions + [a]))
  {
    assert a.Report? ==> HoldsLast(actions, s.workers, a.w);
    assert a.Report? ==> AsSeq(LastFinish(a.w, actions)) == [s.workers[a.w].result];
    assert multiset(Sent(actions)) + InFlight(s.workers) == multiset(Finished(actions));
    hide *;
    Snoc(actions, a, 0);
    FlightChange(s, a);
    var sent, finished, inFlight' := Sent(actions), Finished(actions), InFlight(Apply(s, a).workers);
    if a.Finish? {
      Finishing(sent, InFlight(s.workers), finished, a.result);
    } else if a.Report? {
      Sending(sent, inFlight', finished, s.workers[a.w].result);
    } else {
      assert sent + [] == sent && finished + [] == finished;
    }
  }

  lemma LedgerStep(actions: seq<Action>, s: Pool, a: Action)
    requires Ledger(actions, s) && Enabled(s, a)
    requires a.Report? ==> !s.workers[a.w].result.Done?
    ensures Ledger(actions + [a], Apply(s, a))
  {
    OrderStep(actions, s, a);
    FlightStep(actions, s, a);
    forall w: nat ensures HoldsLast(actions + [a], Apply(s, a).workers, w) {
      HoldsLastStep(actions, s, a, w);
    }
    hide *;
  }

  lemma {:induction false} ReachableLedger(targets: seq<Target>, numThreads: nat, scanType: ScanType,
                                           actions: seq<Action>)
    requires Exec(Initial(targets, numThreads, scanType), actions).Some?
    ensures Ledger(actions, Exec(Initial(targets, numThreads, scanType), actions).value)
  {
    if actions == [] {
      LedgerInitial(targets, numThreads, scanType);
    } else {
      var front, last := actions[..|actions| - 1], actions[|actions| - 1];
      var m := Exec(Initial(targets, numThreads, scanType), front).value;
      ReachableLedger(targets, numThreads, scanType, front);
      ReachedReports(targets, numThreads, scanType, front);
      assert last.Report? ==> m.workers[last.w] in m.workers;
      assert actions == front + [last];
      LedgerStep(front, m, last);
      hide Ledger, Initial;
    }
  }

  /**
   Every report is delivered as the scan made it. At any time those collected and those in the result
   channel are, in order, what the workers sent, and with those still held they are what the scans
   returned.
   */
  lemma ReportsAreDelivered(targets: seq<Target>, numThreads: nat, scanType: ScanType, actions: seq<Action>)
    requires Exec(Initial(targets, numThreads, scanType), actions).Some?
    ensures var s := Exec(Initial(targets, numThreads, scanType), actions).value;
            && s.results + ReportsIn(s.outbox) == Sent(actions)
            && multiset(Sent(actions)) + InFlight(s.workers) == multiset(Finished(actions))
  {
    ReachableLedger(targets, numThreads, scanType, actions);
  }

  /** A run that cannot go on has collected all of what the scans returned. */
  lemma FinalResults(targets: seq<Target>, numThreads: nat, scanType: ScanType, actions: seq<Action>)
    requires Exec(Initial(targets, numThreads, scanType), actions).Some?
    requires !CanStep(Exec(Initial(targets, numThreads, scanType), actions).value)
    ensures var s := Exec(Initial(targets, numThreads, scanType), actions).value;
            s.results == Sent(actions) && multiset(s.results) == multiset(Finished(actions))
  {
    hide *;
    var s0 := Initial(targets, numThreads, scanType);
    var s := Exec(s0, actions).value;
    ReachableInv(targets, numThreads, scanType, actions);
    ReportsAreDelivered(targets, numThreads, scanType, actions);
    NothingLeft(targets, numThreads, scanType, s);
    NoneInFlight(s.workers);
    assert ReportsIn([]) == [] by { NoReports(); }
    assert s.results + [] == s.results;
  }

  lemma NoReports()
    ensures ReportsIn([]) == []
  {
  }

  lemma NothingLeft(targets: seq<Target>, numThreads: nat, scanType: ScanType, s: Pool)
    requires Inv(Initial(targets, numThreads, scanType).queue, Capped(numThreads, targets), s) && !CanStep(s)
    ensures s.outbox == [] && forall w | w in s.workers :: !w.Reporting?
  {
    var queue0, threads := Initial(targets, numThreads, scanType).queue, Capped(numThreads, targets);
    InitialQueue(targets, numThreads, scanType);
    hide Inv, CanStep, Initial, Capped;
    if s.stopped || threads == 0 {
      StoppedIsQuiet(queue0, threads, s);
    } else {
      StuckIsQuiet(queue0, threads, s, SENTINEL);
    }
  }

  /** A scan may return any report on its target. */
  lemma AnyReportMayCome(s: Pool, w: nat, r: ScanResult)
    requires w < |s.workers| && s.workers[w].Scanning?
    ensures Enabled(s, Finish(w, r)) <==>
            && (match s.scanType case SshScan => r.Ssh? case TlsScan => r.Tls?)
            && r.targetspec == s.workers[w].target
  {
  }
}
