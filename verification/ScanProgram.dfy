/** `scan_runner` as a program: the queueing, and a scheduler that picks the steps (pqcscan/src/scan.rs). */
module ScanProgram {
  import opened Common
  import opened ScanTypes
  import opened ScanPool
  import opened ScanLedger

  /** Queue every target, then one sentinel per thread, and start that many workers. */
  method Start(targets: seq<Target>, numThreads: nat, scanType: ScanType) returns (s: Pool)
    ensures s == Initial(targets, numThreads, scanType)
    ensures Measure(s) >= 0
    ensures var threads := if numThreads <= |targets| then numThreads else |targets|;
            && |s.queue| == |targets| + threads && s.queue[..|targets|] == targets
            && (forall i | |targets| <= i < |s.queue| :: s.queue[i].host == "")
            && |s.workers| == s.remaining == threads && (forall w | w in s.workers :: w == Receiving)
            && s.outbox == s.results == [] && !s.stopped
  {
    var threads := numThreads;
    if threads > |targets| {
      threads := |targets|;
    }
    var queue: seq<Target> := [];
    for i := 0 to |targets|
      invariant queue == targets[..i]
    {
      queue := queue + [targets[i]];
    }
    for i := 0 to threads
      invariant queue == targets + Sentinels(i)
    {
      assert targets + Sentinels(i) + [SENTINEL] == targets + Sentinels(i + 1);
      queue := queue + [SENTINEL];
    }
    s := Pool(scanType, queue, seq(threads, _ => Receiving), [], [], threads, false);
    ScannableCount(SENTINEL, s.queue);
    InitialShape(targets, numThreads, scanType);
    hide Initial, Sentinels;
  }

  /** No more threads than targets; the targets, and behind them one empty host for each thread. */
  lemma InitialShape(targets: seq<Target>, numThreads: nat, scanType: ScanType)
    ensures var s := Initial(targets, numThreads, scanType);
            var threads := if numThreads <= |targets| then numThreads else |targets|;
            && |s.queue| == |targets| + threads && s.queue[..|targets|] == targets
            && (forall i | |targets| <= i < |s.queue| :: s.queue[i].host == "")
            && |s.workers| == s.remaining == threads && (forall w | w in s.workers :: w == Receiving)
            && s.outbox == s.results == [] && !s.stopped
  {
    var threads := Capped(numThreads, targets);
    var sentinels := Sentinels(threads);
    SentinelsAreEmpty(threads);
    hide Sentinels;
    var queue := targets + sentinels;
    forall i | |targets| <= i < |queue| ensures queue[i].host == "" {
      assert queue[i] == sentinels[i - |targets|] && sentinels[i - |targets|] in sentinels;
    }
  }

  /** One step of a run, and how it lengthens the run. */
  lemma RunStep(s0: Pool, actions: seq<Action>, a: Action)
    requires Exec(s0, actions).Some? && Enabled(Exec(s0, actions).value, a)
    ensures var s := Exec(s0, actions).value;
            && Exec(s0, actions + [a]) == Some(Apply(s, a))
            && 0 <= Measure(Apply(s, a)) < Measure(s)
  {
    var s := Exec(s0, actions).value;
    MeasureStep(s, a);
    assert (actions + [a])[..|actions|] == actions;
    ScannableCount(SENTINEL, Apply(s, a).queue);
  }

  /** The actions are a run of the pool that ends with these results. */
  ghost predicate IsRunOf(targets: seq<Target>, numThreads: nat, scanType: ScanType, actions: seq<Action>,
                          results: seq<ScanResult>) {
    var end := Exec(Initial(targets, numThreads, scanType), actions);
    end.Some? && end.value.results == results && !CanStep(end.value)
  }

  /**
   `scan_runner` under any scheduler: after the queueing, the scheduler picks the steps until nothing
   can move. With no targets, no threads or a scan that panicked the collector then still waits (`hung`);
   `lost` are the targets of the panicked scans. The results are what the scans returned, unchanged, in
   the order in which the workers sent them.
   */
  method ScanRunner(targets: seq<Target>, numThreads: nat, scanType: ScanType, schedule: Pool -> Action)
    returns (results: seq<ScanResult>, lost: seq<Target>, hung: bool, ghost actions: seq<Action>)
    requires forall s :: CanStep(s) ==> Enabled(s, schedule(s))
    ensures hung <==> targets == [] || numThreads == 0 || lost != []
    ensures forall r | r in results :: IsReport(r, scanType) && !r.Done?
    ensures !hung ==> (multiset(TargetSpecs(results)) == multiset(targets)
                       <==> forall t | t in targets :: t.host != "")
    ensures |lost| < Capped(numThreads, targets) && (forall t | t in targets :: t.host != "") ==>
              multiset(TargetSpecs(results)) + multiset(lost) == multiset(targets)
    ensures IsRunOf(targets, numThreads, scanType, actions, results)
    ensures results == Sent(actions) && multiset(results) == multiset(Finished(actions))
  {
    var s := Start(targets, numThreads, scanType);
    ghost var s0 := s;
    actions := [];
    while CanStep(s)
      invariant Exec(s0, actions) == Some(s)
      invariant Measure(s) >= 0
      decreases Measure(s)
    {
      var a := schedule(s);
      RunStep(s0, actions, a);
      actions := actions + [a];
      s := Apply(s, a);
    }
    results := s.results;
    lost := Lost(s.workers);
    hung := !s.stopped;
    OnlyEmptyHosts(targets);
    RunOutcome(targets, numThreads, scanType, actions);
    FinalResults(targets, numThreads, scanType, actions);
  }

  lemma RunOutcome(targets: seq<Target>, numThreads: nat, scanType: ScanType, actions: seq<Action>)
    requires Exec(Initial(targets, numThreads, scanType), actions).Some?
    requires !CanStep(Exec(Initial(targets, numThreads, scanType), actions).value)
    ensures var s := Exec(Initial(targets, numThreads, scanType), actions).value;
            && (!s.stopped <==> targets == [] || numThreads == 0 || Lost(s.workers) != [])
            && (forall r | r in s.results :: IsReport(r, scanType) && !r.Done?)
            && (s.stopped ==> (multiset(TargetSpecs(s.results)) == multiset(targets)
                                 <==> forall t | t in targets :: t.host != ""))
            && (|Lost(s.workers)| < Capped(numThreads, targets) && (forall t | t in targets :: !IsSentinel(t)) ==>
                  multiset(TargetSpecs(s.results)) + multiset(Lost(s.workers)) == multiset(targets))
  {
    hide *;
    var s := Exec(Initial(targets, numThreads, scanType), actions).value;
    ReachedReports(targets, numThreads, scanType, actions);
    CanStepIsEnabled(s);
    RunsEndStopped(targets, numThreads, scanType, actions);
    CrashStays(targets, numThreads, scanType, actions);
    LostOf(s.workers);
    OnlyEmptyHosts(targets);
    if s.stopped {
      CollectsEveryTarget(targets, numThreads, scanType, actions);
    }
    if numThreads > 0 && targets != [] && forall t | t in targets :: !IsSentinel(t) {
      CrashedRunCollects(targets, numThreads, scanType, actions);
      var k :| Accounts(targets, Capped(numThreads, targets), s, k);
      if |Lost(s.workers)| < Capped(numThreads, targets) {
        AccountsForAll(targets, Capped(numThreads, targets), s, k);
      }
    }
    assert targets == [] || numThreads == 0 ==> Capped(numThreads, targets) == 0 by { NoThreads(targets, numThreads); }
  }

  lemma AccountsForAll(targets: seq<Target>, threads: nat, s: Pool, k: nat)
    requires Accounts(targets, threads, s, k) && |Lost(s.workers)| < threads
    ensures forall r | r in s.results :: !r.Done?
    ensures multiset(TargetSpecs(s.results)) + multiset(Lost(s.workers)) == multiset(targets)
  {
    assert targets[..|targets|] == targets;
  }

  lemma NoThreads(targets: seq<Target>, numThreads: nat)
    ensures Capped(numThreads, targets) == 0 <==> targets == [] || numThreads == 0
  {
  }
}
