/**
 The worker pool of `scan_runner` (pqcscan/src/scan.rs): one FIFO channel of targets closed by one
 empty-host sentinel per worker, the workers that drain it, and the collector that counts `Done`
 messages. Each atomic step is an `Action`; a run is any sequence of enabled actions, so a lemma
 about all runs is a lemma about all interleavings, all scan results and all panics of a scan. A scan
 that panics takes its worker's task with it: nothing is sent, and the collector is not told.
 */
module ScanPool {
  import opened Common
  import opened ScanTypes

  datatype Worker =
    | Receiving                     // about to take the next target
    | Scanning(target: Target)      // holds a target
    | Reporting(result: ScanResult) // about to send its result
    | Quitting                      // took a sentinel, about to send `Done`
    | Exited
    | Crashed(target: Target)       // its scan panicked

  datatype Pool = Pool(
    scanType: ScanType,
    queue: seq<Target>,         // target channel, front first
    workers: seq<Worker>,
    outbox: seq<ScanResult>,    // result channel, front first
    results: seq<ScanResult>,   // what the collector has pushed
    remaining: int,             // `num_threads` as the collector decrements it
    stopped: bool)              // the collector has left its loop

  datatype Action =
    | Receive(w: nat)
    | Finish(w: nat, result: ScanResult)
    | Crash(w: nat)
    | Report(w: nat)
    | Quit(w: nat)
    | Collect

  const SENTINEL := Target("", 0)

  predicate IsSentinel(t: Target) {
    |t.host| == 0
  }

  function Sentinels(n: nat): (q: seq<Target>)
    ensures |q| == n
  {
    if n == 0 then [] else Sentinels(n - 1) + [SENTINEL]
  }

  /** No more threads than targets. */
  function Capped(numThreads: nat, targets: seq<Target>): nat {
    if numThreads > |targets| then |targets| else numThreads
  }

  function Initial(targets: seq<Target>, numThreads: nat, scanType: ScanType): Pool {
    var threads := Capped(numThreads, targets);
    Pool(scanType, targets + Sentinels(threads), seq(threads, _ => Receiving), [], [], threads, false)
  }

  predicate Enabled(s: Pool, a: Action) {
    match a
    case Receive(w) => w < |s.workers| && s.workers[w].Receiving? && s.queue != []
    case Finish(w, r) => w < |s.workers| && s.workers[w].Scanning? && ReportsOn(r, s.workers[w].target, s.scanType)
    case Crash(w) => w < |s.workers| && s.workers[w].Scanning?
    case Report(w) => w < |s.workers| && s.workers[w].Reporting?
    case Quit(w) => w < |s.workers| && s.workers[w].Quitting?
    case Collect => !s.stopped && s.outbox != []
  }

  function Apply(s: Pool, a: Action): Pool
    requires Enabled(s, a)
  {
    match a
    case Receive(w) =>
      var t := s.queue[0];
      s.(queue := s.queue[1..], workers := s.workers[w := if IsSentinel(t) then Quitting else Scanning(t)])
    case Finish(w, r) => s.(workers := s.workers[w := Reporting(r)])
    case Crash(w) => s.(workers := s.workers[w := Crashed(s.workers[w].target)])
    case Report(w) => s.(outbox := s.outbox + [s.workers[w].result], workers := s.workers[w := Receiving])
    case Quit(w) => s.(outbox := s.outbox + [Done], workers := s.workers[w := Exited])
    case Collect =>
      var s' := s.(outbox := s.outbox[1..]);
      if s.outbox[0].Done? then
        s'.(remaining := s.remaining - 1, stopped := s.remaining - 1 == 0)
      else
        s'.(results := s.results + [s.outbox[0]])
  }

  predicate CanMove(s: Pool, worker: Worker) {
    !worker.Exited? && !worker.Crashed? && (worker.Receiving? ==> s.queue != [])
  }

  /** Some action is enabled: whether one is, is decided by looking at each worker and the result channel. */
  predicate CanStep(s: Pool) {
    || (!s.stopped && s.outbox != [])
    || exists w | 0 <= w < |s.workers| :: CanMove(s, s.workers[w])
  }

  /** The state after a list of actions, or `None` if one of them is not enabled when its turn comes. */
  function Exec(s: Pool, actions: seq<Action>): Option<Pool> {
    if actions == [] then Some(s)
    else
      var last := actions[|actions| - 1];
      match Exec(s, actions[..|actions| - 1])
      case Some(m) => if Enabled(m, last) then Some(Apply(m, last)) else None
      case None => None
  }

  // ----- what the pool ought to scan, said without the pool -----

  /** The length of the queue prefix that ends with the n-th empty-host entry. */
  function CutAfter(queue: seq<Target>, n: nat): (k: nat)
    ensures k <= |queue|
  {
    if n == 0 || queue == [] then 0
    else 1 + CutAfter(queue[1..], if IsSentinel(queue[0]) then n - 1 else n)
  }

  function EmptyHosts(queue: seq<Target>): nat {
    if queue == [] then 0
    else EmptyHosts(queue[..|queue| - 1]) + if IsSentinel(queue[|queue| - 1]) then 1 else 0
  }

  /** How often a target with a host occurs in a queue. */
  function Scannable(t: Target, queue: seq<Target>): nat {
    if queue == [] then 0
    else
      var last := queue[|queue| - 1];
      Scannable(t, queue[..|queue| - 1]) + if last == t && !IsSentinel(last) then 1 else 0
  }

  /** How many of the results report on a target. */
  function Reports(t: Target, results: seq<ScanResult>): nat {
    if results == [] then 0
    else
      var r := results[|results| - 1];
      Reports(t, results[..|results| - 1]) + if !r.Done? && r.targetspec == t then 1 else 0
  }

  function Dones(results: seq<ScanResult>): nat {
    if results == [] then 0
    else Dones(results[..|results| - 1]) + if results[|results| - 1].Done? then 1 else 0
  }

  // ----- sums over workers -----

  function InHand(w: Worker): Option<Target> {
    match w
    case Scanning(t) => Some(t)
    case Crashed(t) => Some(t)
    case Reporting(r) => if r.Done? then None else Some(r.targetspec)
    case _ => None
  }

  function Carries(t: Target): Worker -> nat {
    w => if InHand(w) == Some(t) then 1 else 0
  }

  function Sum(f: Worker -> nat, workers: seq<Worker>): nat {
    if workers == [] then 0
    else Sum(f, workers[..|workers| - 1]) + f(workers[|workers| - 1])
  }

  function HasLeft(w: Worker): nat {
    if w.Quitting? || w.Exited? then 1 else 0
  }

  function HasExited(w: Worker): nat {
    if w.Exited? then 1 else 0
  }

  function Weight(w: Worker): nat {
    match w
    case Receiving => 0
    case Scanning(_) => 3
    case Reporting(_) => 2
    case Quitting => 2
    case Exited => 0
    case Crashed(_) => 2
  }

  /** Workers that have taken a sentinel, and those that have also sent their `Done`. */
  function Left(workers: seq<Worker>): nat {
    Sum(HasLeft, workers)
  }

  function ExitedCount(workers: seq<Worker>): nat {
    Sum(HasExited, workers)
  }

  /** The number of steps left, four for a target and three for a sentinel; a crash wastes those left to its worker. */
  function Measure(s: Pool): int {
    4 * |s.queue| - EmptyHosts(s.queue) + Sum(Weight, s.workers) + |s.outbox|
  }

  lemma {:induction false} SumUpdate(f: Worker -> nat, workers: seq<Worker>, i: nat, w: Worker)
    requires i < |workers|
    ensures Sum(f, workers[i := w]) + f(workers[i]) == Sum(f, workers) + f(w)
  {
    var n := |workers| - 1;
    if i == n {
      assert workers[i := w][..n] == workers[..n];
    } else {
      assert workers[i := w][..n] == workers[..n][i := w];
      SumUpdate(f, workers[..n], i, w);
    }
  }

  /** A 0/1 count is at most the number of workers, and reaches it only when it counts them all. */
  lemma {:induction false} SumBound(f: Worker -> nat, workers: seq<Worker>)
    requires forall w :: f(w) <= 1
    ensures Sum(f, workers) <= |workers|
    ensures Sum(f, workers) == |workers| <==> forall w | w in workers :: f(w) == 1
  {
    if workers == [] {
    } else {
      var n := |workers| - 1;
      SumBound(f, workers[..n]);
      assert workers == workers[..n] + [workers[n]];
    }
  }

  lemma {:induction false} ReportsAppend(t: Target, a: seq<ScanResult>, b: seq<ScanResult>)
    ensures Reports(t, a + b) == Reports(t, a) + Reports(t, b)
    ensures Dones(a + b) == Dones(a) + Dones(b)
  {
    if b == [] {
      assert a + b == a;
    } else {
      ReportsAppend(t, a, b[..|b| - 1]);
      assert (a + b)[..|a + b| - 1] == a + b[..|b| - 1];
    }
  }

  lemma ReportsFront(t: Target, a: seq<ScanResult>)
    requires a != []
    ensures Reports(t, a) == (if !a[0].Done? && a[0].targetspec == t then 1 else 0) + Reports(t, a[1..])
    ensures Dones(a) == (if a[0].Done? then 1 else 0) + Dones(a[1..])
  {
    assert a == [a[0]] + a[1..];
    ReportsAppend(t, [a[0]], a[1..]);
  }

  // ----- the invariant -----

  ghost predicate SentByWorkers(rs: seq<ScanResult>, scanType: ScanType) {
    forall r | r in rs :: r.Done? || IsReport(r, scanType)
  }

  /** What has been taken from the target channel so far. */
  function Taken(queue0: seq<Target>, s: Pool): seq<Target> {
    if |s.queue| <= |queue0| then queue0[..|queue0| - |s.queue|] else []
  }

  /** FIFO order: the queue is a suffix, and each sentinel taken has sent one worker home, the last one last. */
  ghost predicate QueueInv(queue0: seq<Target>, threads: nat, s: Pool) {
    && |s.workers| == threads
    && queue0 == Taken(queue0, s) + s.queue
    && EmptyHosts(Taken(queue0, s)) == Left(s.workers)
    && (0 < threads == Left(s.workers) ==>
          Taken(queue0, s) != [] && IsSentinel(Taken(queue0, s)[|Taken(queue0, s)| - 1]))
  }

  /** Conservation: every target taken is with a worker (be it a crashed one), in the result channel or collected. */
  ghost predicate ConservationInv(queue0: seq<Target>, s: Pool) {
    forall t :: Scannable(t, Taken(queue0, s))
                == Sum(Carries(t), s.workers) + Reports(t, s.outbox) + Reports(t, s.results)
  }

  /** `Done` is each worker's last message, and the collector counts them down without underflow. */
  ghost predicate DoneInv(threads: nat, s: Pool) {
    && |s.workers| == threads
    && ExitedCount(s.workers) == Dones(s.outbox) + threads - s.remaining
    && (ExitedCount(s.workers) == threads && s.outbox != [] ==> s.outbox[|s.outbox| - 1].Done?)
    && 0 <= s.remaining <= threads
    && (s.stopped <==> 0 == s.remaining && 0 < threads)
  }

  ghost predicate ReportInv(s: Pool) {
    && (forall w | w in s.workers && w.Reporting? :: IsReport(w.result, s.scanType))
    && SentByWorkers(s.outbox, s.scanType)
    && (forall r | r in s.results :: IsReport(r, s.scanType))
  }

  /** What every reachable state satisfies, for the queue and thread count the pool started with. */
  ghost predicate Inv(queue0: seq<Target>, threads: nat, s: Pool) {
    QueueInv(queue0, threads, s) && ConservationInv(queue0, s) && DoneInv(threads, s) && ReportInv(s)
  }

  lemma {:induction false} SentinelsAreEmpty(n: nat)
    ensures EmptyHosts(Sentinels(n)) == n
    ensures forall t | t in Sentinels(n) :: IsSentinel(t)
  {
    if n == 0 {
    } else {
      SentinelsAreEmpty(n - 1);
      assert Sentinels(n)[..n - 1] == Sentinels(n - 1);
    }
  }

  lemma {:induction false} FreshWorkers(f: Worker -> nat, n: nat)
    requires f(Receiving) == 0
    ensures Sum(f, seq(n, _ => Receiving)) == 0
  {
    var ws := seq(n, _ => Receiving);
    if n == 0 {
    } else {
      FreshWorkers(f, n - 1);
      assert ws[..n - 1] == seq(n - 1, _ => Receiving);
    }
  }

  lemma InvInitial(targets: seq<Target>, numThreads: nat, scanType: ScanType)
    ensures var s := Initial(targets, numThreads, scanType);
            Inv(s.queue, Capped(numThreads, targets), s)
  {
    var threads := Capped(numThreads, targets);
    FreshWorkers(HasLeft, threads);
    FreshWorkers(HasExited, threads);
    forall t {
      FreshWorkers(Carries(t), threads);
    }
  }

  lemma TakenGrows(queue0: seq<Target>, s: Pool, s': Pool)
    requires queue0 == Taken(queue0, s) + s.queue && s.queue != [] && s'.queue == s.queue[1..]
    ensures Taken(queue0, s') == Taken(queue0, s) + [s.queue[0]]
    ensures queue0 == Taken(queue0, s') + s'.queue
    ensures Taken(queue0, s')[..|Taken(queue0, s)|] == Taken(queue0, s)
  {
  }

  lemma QueueStep(queue0: seq<Target>, threads: nat, s: Pool, a: Action)
    requires QueueInv(queue0, threads, s) && Enabled(s, a)
    ensures QueueInv(queue0, threads, Apply(s, a))
  {
    var s' := Apply(s, a);
    if !a.Collect? {
      SumUpdate(HasLeft, s.workers, a.w, s'.workers[a.w]);
    }
    if a.Receive? {
      TakenGrows(queue0, s, s');
      SumBound(HasLeft, s.workers);
      assert HasLeft(s.workers[a.w]) == 0;
    } else {
      assert Taken(queue0, s') == Taken(queue0, s);
    }
  }

  lemma ConservationStep(queue0: seq<Target>, threads: nat, s: Pool, a: Action)
    requires QueueInv(queue0, threads, s) && ConservationInv(queue0, s) && Enabled(s, a)
    ensures ConservationInv(queue0, Apply(s, a))
  {
    var s' := Apply(s, a);
    if a.Receive? {
      TakenGrows(queue0, s, s');
      forall t {
        SumUpdate(Carries(t), s.workers, a.w, s'.workers[a.w]);
      }
    } else {
      assert Taken(queue0, s') == Taken(queue0, s);
      forall t {
        WorkConserves(t, s, a);
      }
    }
  }

  /** Past the target channel nothing is lost or doubled. */
  lemma WorkConserves(t: Target, s: Pool, a: Action)
    requires Enabled(s, a) && !a.Receive?
    ensures var s' := Apply(s, a);
            Sum(Carries(t), s'.workers) + Reports(t, s'.outbox) + Reports(t, s'.results)
            == Sum(Carries(t), s.workers) + Reports(t, s.outbox) + Reports(t, s.results)
  {
    var s' := Apply(s, a);
    if a.Collect? {
      hide Sum, Reports;
      ReportsFront(t, s.outbox);
      ReportsSnoc(t, s.results, s.outbox[0]);
    } else {
      hide Sum, Reports;
      SumUpdate(Carries(t), s.workers, a.w, s'.workers[a.w]);
      if a.Report? || a.Quit? {
        ReportsSnoc(t, s.outbox, if a.Quit? then Done else s.workers[a.w].result);
      }
    }
  }

  lemma ReportsSnoc(t: Target, rs: seq<ScanResult>, r: ScanResult)
    ensures Reports(t, rs + [r]) == Reports(t, rs) + if !r.Done? && r.targetspec == t then 1 else 0
  {
    assert (rs + [r])[..|rs|] == rs;
  }

  lemma NoneIsNothing()
    ensures Dones([]) == 0 && EmptyHosts([]) == 0
  {
  }

  lemma DoneStep(threads: nat, s: Pool, a: Action)
    requires DoneInv(threads, s) && ReportInv(s) && Enabled(s, a)
    ensures DoneInv(threads, Apply(s, a))
  {
    if a.Collect? {
      ReportsFront(SENTINEL, s.outbox);
    } else {
      assert a.Report? ==> !s.workers[a.w].result.Done?;
      WorkerDoneStep(threads, s, a);
    }
  }

  /** A worker's step sends a `Done` exactly when the worker exits. */
  lemma WorkerDoneStep(threads: nat, s: Pool, a: Action)
    requires DoneInv(threads, s) && Enabled(s, a) && !a.Collect?
    requires a.Report? ==> !s.workers[a.w].result.Done?
    ensures DoneInv(threads, Apply(s, a))
  {
    hide Sum, Reports, Dones, ReportsOn;
    var s' := Apply(s, a);
    SumUpdate(HasExited, s.workers, a.w, s'.workers[a.w]);
    SumBound(HasExited, s.workers);
    SumBound(HasExited, s'.workers);
    assert HasExited(s.workers[a.w]) == 0 && s'.workers[a.w] in s'.workers;
    assert HasExited(s'.workers[a.w]) == if a.Quit? then 1 else 0;
    if a.Report? || a.Quit? {
      var last := s'.outbox[|s.outbox|];
      ReportsAppend(SENTINEL, s.outbox, [last]);
      ReportsFront(SENTINEL, [last]);
      NoneIsNothing();
      assert [last][1..] == [] && s'.outbox == s.outbox + [last];
    }
  }

  lemma ReportStep(s: Pool, a: Action)
    requires ReportInv(s) && Enabled(s, a)
    ensures ReportInv(Apply(s, a))
  {
  }

  lemma InvStep(queue0: seq<Target>, threads: nat, s: Pool, a: Action)
    requires Inv(queue0, threads, s) && Enabled(s, a)
    ensures Inv(queue0, threads, Apply(s, a))
  {
    QueueStep(queue0, threads, s, a);
    ConservationStep(queue0, threads, s, a);
    DoneStep(threads, s, a);
    ReportStep(s, a);
  }

  lemma {:induction false} QueueAppend(t: Target, a: seq<Target>, b: seq<Target>)
    ensures EmptyHosts(a + b) == EmptyHosts(a) + EmptyHosts(b)
    ensures Scannable(t, a + b) == Scannable(t, a) + Scannable(t, b)
  {
    if b == [] {
      assert a + b == a;
    } else {
      QueueAppend(t, a, b[..|b| - 1]);
      assert (a + b)[..|a + b| - 1] == a + b[..|b| - 1];
    }
  }

  /** A sentinel is never scanned; every other target counts as often as it is listed. */
  lemma {:induction false} ScannableCount(t: Target, queue: seq<Target>)
    ensures Scannable(t, queue) == if IsSentinel(t) then 0 else multiset(queue)[t]
    ensures EmptyHosts(queue) <= |queue|
    ensures EmptyHosts(queue) == 0 <==> forall u | u in queue :: !IsSentinel(u)
  {
    if queue == [] {
    } else {
      var n := |queue| - 1;
      ScannableCount(t, queue[..n]);
      assert queue == queue[..n] + [queue[n]];
    }
  }

  /** The n-th sentinel is where the cut is. */
  lemma {:induction false} CutIsAtSentinel(queue: seq<Target>, n: nat, k: nat)
    requires 0 < k <= |queue| && EmptyHosts(queue[..k]) == n && IsSentinel(queue[k - 1])
    ensures CutAfter(queue, n) == k
  {
    var head, rest := queue[0], queue[1..];
    var first := if IsSentinel(head) then 1 else 0;
    assert queue == [head] + rest;
    assert queue[..k] == [head] + rest[..k - 1];
    assert EmptyHosts([head]) == first;
    QueueAppend(SENTINEL, [head], rest[..k - 1]);
    hide EmptyHosts;
    if k == 1 {
      assert rest[..0] == [] && EmptyHosts([]) == 0 by { NoneIsNothing(); }
    } else {
      CutIsAtSentinel(rest, n - first, k - 1);
    }
  }

  lemma MeasureStep(s: Pool, a: Action)
    requires Enabled(s, a)
    ensures Measure(Apply(s, a)) == Measure(s) - 1
  {
    var s' := Apply(s, a);
    hide Sum, ReportsOn;
    if !a.Collect? {
      SumUpdate(Weight, s.workers, a.w, s'.workers[a.w]);
    }
    if a.Receive? {
      assert s.queue == [s.queue[0]] + s'.queue;
      QueueAppend(SENTINEL, [s.queue[0]], s'.queue);
      assert EmptyHosts([s.queue[0]]) == if IsSentinel(s.queue[0]) then 1 else 0;
    }
  }

  // ----- every run -----

  lemma {:induction false} ReachableInv(targets: seq<Target>, numThreads: nat, scanType: ScanType, actions: seq<Action>)
    requires Exec(Initial(targets, numThreads, scanType), actions).Some?
    ensures var s0 := Initial(targets, numThreads, scanType);
            var s := Exec(s0, actions).value;
            && Inv(s0.queue, Capped(numThreads, targets), s)
            && s.scanType == scanType
            && |actions| + Measure(s) == Measure(s0)
  {
    if actions == [] {
      InvInitial(targets, numThreads, scanType);
    } else {
      var front, last := actions[..|actions| - 1], actions[|actions| - 1];
      ReachableInv(targets, numThreads, scanType, front);
      var s0 := Initial(targets, numThreads, scanType);
      var m := Exec(s0, front).value;
      InvStep(s0.queue, Capped(numThreads, targets), m, last);
      MeasureStep(m, last);
    }
  }

  lemma CanStepIsEnabled(s: Pool)
    ensures CanStep(s) <==> exists a :: Enabled(s, a)
  {
    if !s.stopped && s.outbox != [] {
      assert Enabled(s, Collect);
    } else if CanStep(s) {
      var w :| 0 <= w < |s.workers| && CanMove(s, s.workers[w]);
      match s.workers[w] {
        case Receiving => assert Enabled(s, Receive(w));
        case Scanning(t) =>
          assert Enabled(s, Finish(w, match s.scanType case SshScan => Ssh(t, None, None, false, None, None)
                                      case TlsScan => Tls(t, None, None, false, None, None, None)));
        case Reporting(_) => assert Enabled(s, Report(w));
        case Quitting => assert Enabled(s, Quit(w));
      }
    }
  }

  lemma LastIsCounted(rs: seq<ScanResult>)
    ensures rs != [] && rs[|rs| - 1].Done? ==> Dones(rs) >= 1
  {
  }

  /** When the collector stops, every worker has exited and the result channel is empty. */
  lemma StoppedIsQuiet(queue0: seq<Target>, threads: nat, s: Pool)
    requires Inv(queue0, threads, s) && (s.stopped || threads == 0)
    ensures s.outbox == [] && ExitedCount(s.workers) == Left(s.workers) == threads && !CanStep(s)
    ensures forall w | w in s.workers :: w.Exited?
  {
    SumBound(HasExited, s.workers);
    SumBound(HasLeft, s.workers);
    assert forall w | w in s.workers :: HasExited(w) == 1 ==> HasLeft(w) == 1;
    LastIsCounted(s.outbox);
    assert forall i | 0 <= i < |s.workers| :: s.workers[i] in s.workers;
  }

  /** While the collector waits and no scan has panicked, some worker or the collector can move. */
  lemma NoDeadlock(queue0: seq<Target>, threads: nat, s: Pool)
    requires Inv(queue0, threads, s) && !s.stopped && 0 < threads <= EmptyHosts(queue0)
    requires forall w | w in s.workers :: !w.Crashed?
    ensures CanStep(s)
  {
    if s.outbox == [] {
      SumBound(HasExited, s.workers);
      var w :| w in s.workers && HasExited(w) != 1;
      var i :| 0 <= i < |s.workers| && s.workers[i] == w;
      SumBound(HasLeft, s.workers);
      assert w.Receiving? ==> HasLeft(w) == 0;
      assert s.queue == [] ==> Taken(queue0, s) == queue0;
    }
  }

  // ----- when a scan panics -----

  predicate Panicked(actions: seq<Action>) {
    exists a | a in actions :: a.Crash?
  }

  /** A crash is never undone: the run had one exactly when a worker is crashed now. */
  lemma {:induction false} CrashStays(targets: seq<Target>, numThreads: nat, scanType: ScanType, actions: seq<Action>)
    requires Exec(Initial(targets, numThreads, scanType), actions).Some?
    ensures Panicked(actions) <==>
            exists w | w in Exec(Initial(targets, numThreads, scanType), actions).value.workers :: w.Crashed?
  {
    if actions != [] {
      var front, last := actions[..|actions| - 1], actions[|actions| - 1];
      CrashStays(targets, numThreads, scanType, front);
      assert actions == front + [last];
      var m := Exec(Initial(targets, numThreads, scanType), front).value;
      CrashStep(m, last);
      hide Exec, Initial, Apply, Enabled;
    }
  }

  lemma CrashStep(s: Pool, a: Action)
    requires Enabled(s, a)
    ensures (exists w | w in Apply(s, a).workers :: w.Crashed?) <==> a.Crash? || exists w | w in s.workers :: w.Crashed?
  {
    var s' := Apply(s, a);
    if !a.Collect? {
      assert s'.workers[a.w] in s'.workers && s.workers[a.w] in s.workers && !s.workers[a.w].Crashed?;
      forall i | 0 <= i < |s.workers| && i != a.w ensures s'.workers[i] == s.workers[i] && s.workers[i] in s'.workers {
        assert s'.workers[i] in s'.workers;
      }
    }
  }

  /** The targets on which workers crashed. */
  function Lost(workers: seq<Worker>): seq<Target> {
    if workers == [] then []
    else
      var last := workers[|workers| - 1];
      Lost(workers[..|workers| - 1]) + if last.Crashed? then [last.target] else []
  }

  predicate Gone(w: Worker) {
    w.Exited? || w.Crashed?
  }

  lemma SumSnoc(f: Worker -> nat, front: seq<Worker>, last: Worker)
    ensures Sum(f, front + [last]) == Sum(f, front) + f(last)
  {
    assert (front + [last])[..|front|] == front;
  }

  lemma LostSnoc(t: Target, front: seq<Worker>, last: Worker)
    ensures var one := if last.Crashed? then 1 else 0;
            && |Lost(front + [last])| == |Lost(front)| + one
            && multiset(Lost(front + [last]))[t] == multiset(Lost(front))[t] + if last == Crashed(t) then 1 else 0
  {
    assert (front + [last])[..|front|] == front;
    var before := Lost(front);
    assert Lost(front + [last]) == before + if last.Crashed? then [last.target] else [];
    hide Lost;
    if last.Crashed? {
      assert multiset(before + [last.target]) == multiset(before) + multiset{last.target};
    } else {
      assert before + [] == before;
    }
  }

  /** When nobody works any more, what workers carry is what was lost. */
  predicate LostAddsUp(t: Target, workers: seq<Worker>) {
    && Sum(Carries(t), workers) == multiset(Lost(workers))[t]
    && |Lost(workers)| + ExitedCount(workers) == |workers|
    && Left(workers) == ExitedCount(workers)
  }

  lemma LostAddsUpSnoc(t: Target, front: seq<Worker>, last: Worker)
    requires LostAddsUp(t, front) && Gone(last)
    ensures LostAddsUp(t, front + [last])
  {
    SumSnoc(Carries(t), front, last);
    SumSnoc(HasLeft, front, last);
    SumSnoc(HasExited, front, last);
    LostSnoc(t, front, last);
    hide Sum, Lost;
  }

  lemma {:induction false} LostCounts(t: Target, workers: seq<Worker>)
    requires forall w | w in workers :: Gone(w)
    ensures LostAddsUp(t, workers)
  {
    hide Gone, LostAddsUp;
    if workers == [] {
      NobodyLost(t);
    } else {
      var front, last := workers[..|workers| - 1], workers[|workers| - 1];
      LostCounts(t, front);
      LostAddsUpSnoc(t, front, last);
      assert workers == front + [last];
    }
  }

  lemma NobodyLost(t: Target)
    ensures LostAddsUp(t, [])
  {
  }

  lemma {:induction false} LostOf(workers: seq<Worker>)
    ensures Lost(workers) != [] <==> exists w | w in workers :: w.Crashed?
  {
    if workers != [] {
      var front, last := workers[..|workers| - 1], workers[|workers| - 1];
      assert workers == front + [last];
      LostOf(front);
    }
  }

  /**
   A collector left waiting: every worker has exited or crashed, the result channel is empty, and each
   target taken has been collected or is one on which a worker crashed.
   */
  lemma StuckIsQuiet(queue0: seq<Target>, threads: nat, s: Pool, t: Target)
    requires Inv(queue0, threads, s) && !s.stopped && !CanStep(s) && 0 < threads <= EmptyHosts(queue0)
    ensures s.outbox == []
    ensures forall w | w in s.workers :: Gone(w)
    ensures Scannable(t, Taken(queue0, s)) == Reports(t, s.results) + multiset(Lost(s.workers))[t]
    ensures EmptyHosts(Taken(queue0, s)) + |Lost(s.workers)| == threads
  {
    if s.queue == [] {
      assert Taken(queue0, s) == queue0;
      SumBound(HasLeft, s.workers);
    }
    forall w | w in s.workers ensures Gone(w) {
      var i :| 0 <= i < |s.workers| && s.workers[i] == w;
      assert !CanMove(s, s.workers[i]);
      assert w.Receiving? ==> HasLeft(w) == 0;
    }
    LostCounts(t, s.workers);
    assert LostAddsUp(t, s.workers);
  }

  /** The targets among what was taken off the queue. */
  function TargetsIn(targets: seq<Target>, taken: seq<Target>): (front: seq<Target>)
    ensures |front| <= |targets| && |front| <= |taken| && front == targets[..|front|]
  {
    if |taken| <= |targets| then targets[..|taken|] else targets
  }

  /** Of targets with a host and sentinels behind them, a sentinel comes only after all targets. */
  lemma PrefixOfQueue(targets: seq<Target>, n: nat, taken: seq<Target>, t: Target)
    requires taken <= targets + Sentinels(n) && forall u | u in targets :: !IsSentinel(u)
    ensures EmptyHosts(taken) > 0 ==> TargetsIn(targets, taken) == targets
    ensures Scannable(t, taken) == multiset(TargetsIn(targets, taken))[t]
  {
    SentinelsAreEmpty(n);
    hide Scannable, EmptyHosts, Sentinels;
    var front := TargetsIn(targets, taken);
    var back := taken[|front|..];
    assert taken == front + back;
    assert forall u | u in back :: u in Sentinels(n);
    assert forall u | u in front :: u in targets;
    QueueAppend(t, front, back);
    ScannableCount(t, front);
    ScannableCount(t, back);
    if t in back {
      assert IsSentinel(t);
    }
  }

  /**
   The first k targets are collected or lost with a crashed worker; nobody took the others, and then
   all workers have crashed.
   */
  predicate Accounts(targets: seq<Target>, threads: nat, s: Pool, k: nat) {
    && k <= |targets|
    && (forall r | r in s.results :: !r.Done?)
    && multiset(TargetSpecs(s.results)) + multiset(Lost(s.workers)) == multiset(targets[..k])
    && (k < |targets| ==> |Lost(s.workers)| >= threads)
  }

  /** The queue of targets with a host: their only empty hosts are the sentinels. */
  lemma QueuedSentinels(targets: seq<Target>, numThreads: nat, scanType: ScanType)
    requires forall t | t in targets :: !IsSentinel(t)
    ensures EmptyHosts(Initial(targets, numThreads, scanType).queue) == Capped(numThreads, targets)
  {
    InitialQueue(targets, numThreads, scanType);
    ScannableCount(SENTINEL, targets);
  }

  /** What a waiting collector has when every target has a host. */
  lemma StuckCollects(targets: seq<Target>, numThreads: nat, scanType: ScanType, s: Pool)
    requires Inv(Initial(targets, numThreads, scanType).queue, Capped(numThreads, targets), s)
    requires !s.stopped && !CanStep(s) && targets != [] && numThreads > 0 && forall t | t in targets :: !IsSentinel(t)
    ensures exists k :: Accounts(targets, Capped(numThreads, targets), s, k)
  {
    var threads := Capped(numThreads, targets);
    var queue0 := targets + Sentinels(threads);
    var taken := Taken(queue0, s);
    QueuedSentinels(targets, numThreads, scanType);
    assert Initial(targets, numThreads, scanType).queue == queue0 && taken <= queue0;
    StuckIsQuiet(queue0, threads, s, SENTINEL);
    PrefixOfQueue(targets, threads, taken, SENTINEL);
    var front := TargetsIn(targets, taken);
    SpecsAndLost(queue0, targets, threads, s);
    hide *;
    assert Accounts(targets, threads, s, |front|) by {
      AccountsFor(targets, threads, s, front, EmptyHosts(taken));
    }
  }

  lemma AccountsFor(targets: seq<Target>, threads: nat, s: Pool, front: seq<Target>, sentinels: nat)
    requires |front| <= |targets| && front == targets[..|front|]
    requires forall r | r in s.results :: !r.Done?
    requires multiset(TargetSpecs(s.results)) + multiset(Lost(s.workers)) == multiset(front)
    requires sentinels + |Lost(s.workers)| == threads && (sentinels > 0 ==> front == targets)
    ensures Accounts(targets, threads, s, |front|)
  {
  }

  lemma SpecsAndLost(queue0: seq<Target>, targets: seq<Target>, threads: nat, s: Pool)
    requires queue0 == targets + Sentinels(threads) && Inv(queue0, threads, s)
    requires !s.stopped && !CanStep(s) && 0 < threads <= EmptyHosts(queue0) && forall t | t in targets :: !IsSentinel(t)
    ensures forall r | r in s.results :: !r.Done?
    ensures multiset(TargetSpecs(s.results)) + multiset(Lost(s.workers))
            == multiset(TargetsIn(targets, Taken(queue0, s)))
  {
    var taken := Taken(queue0, s);
    assert taken <= queue0;
    hide Sentinels, EmptyHosts, CanStep, TargetsIn, Taken, QueueInv, ConservationInv, DoneInv;
    var all := multiset(TargetSpecs(s.results)) + multiset(Lost(s.workers));
    var front := TargetsIn(targets, taken);
    forall t ensures all[t] == multiset(front)[t] {
      StuckIsQuiet(queue0, threads, s, t);
      PrefixOfQueue(targets, threads, taken, t);
      ReportsAreSpecs(t, s.results);
      hide *;
    }
  }

  lemma StoppedAccounts(targets: seq<Target>, numThreads: nat, scanType: ScanType, actions: seq<Action>)
    requires Exec(Initial(targets, numThreads, scanType), actions).Some?
    requires Exec(Initial(targets, numThreads, scanType), actions).value.stopped
    requires forall t | t in targets :: !IsSentinel(t)
    ensures Accounts(targets, Capped(numThreads, targets),
                     Exec(Initial(targets, numThreads, scanType), actions).value, |targets|)
  {
    hide Exec, Initial, Inv, CanStep, TargetSpecs, Lost;
    var s0 := Initial(targets, numThreads, scanType);
    var s := Exec(s0, actions).value;
    ReachableInv(targets, numThreads, scanType, actions);
    StoppedIsQuiet(s0.queue, Capped(numThreads, targets), s);
    LostOf(s.workers);
    CollectsEveryTarget(targets, numThreads, scanType, actions);
    assert targets[..|targets|] == targets;
    hide IsReport;
  }

  /**
   What a run that cannot go on has collected when every target has a host: the targets, less those on
   which a worker crashed; only when all workers have crashed are there targets nobody took.
   */
  lemma CrashedRunCollects(targets: seq<Target>, numThreads: nat, scanType: ScanType, actions: seq<Action>)
    requires Exec(Initial(targets, numThreads, scanType), actions).Some?
    requires !CanStep(Exec(Initial(targets, numThreads, scanType), actions).value)
    requires targets != [] && numThreads > 0 && forall t | t in targets :: !IsSentinel(t)
    ensures exists k :: Accounts(targets, Capped(numThreads, targets),
                                 Exec(Initial(targets, numThreads, scanType), actions).value, k)
  {
    hide *;
    ReachableInv(targets, numThreads, scanType, actions);
    var s := Exec(Initial(targets, numThreads, scanType), actions).value;
    if s.stopped {
      StoppedAccounts(targets, numThreads, scanType, actions);
    } else {
      StuckCollects(targets, numThreads, scanType, s);
    }
  }

  lemma InitialQueue(targets: seq<Target>, numThreads: nat, scanType: ScanType)
    ensures var threads := Capped(numThreads, targets);
            var queue := Initial(targets, numThreads, scanType).queue;
            && EmptyHosts(queue) == EmptyHosts(targets) + threads
            && (0 < threads ==> IsSentinel(queue[|queue| - 1]))
            && forall t :: Scannable(t, queue) == Scannable(t, targets)
  {
    var threads := Capped(numThreads, targets);
    SentinelsAreEmpty(threads);
    forall t
      ensures Scannable(t, targets + Sentinels(threads)) == Scannable(t, targets)
    {
      QueueAppend(t, targets, Sentinels(threads));
      ScannableCount(t, Sentinels(threads));
    }
    QueueAppend(SENTINEL, targets, Sentinels(threads));
  }

  /**
   How a run ends: it cannot be extended once the collector has stopped; and a run that cannot be
   extended has stopped exactly when there was a target, a thread and no scan that panicked. Otherwise
   the collector waits for ever.
   */
  lemma RunsEndStopped(targets: seq<Target>, numThreads: nat, scanType: ScanType, actions: seq<Action>)
    requires Exec(Initial(targets, numThreads, scanType), actions).Some?
    ensures var s := Exec(Initial(targets, numThreads, scanType), actions).value;
            && (s.stopped ==> !exists a :: Enabled(s, a))
            && ((exists a :: Enabled(s, a)) || (s.stopped <==> targets != [] && numThreads > 0 && !Panicked(actions)))
  {
    ReachableInv(targets, numThreads, scanType, actions);
    InitialQueue(targets, numThreads, scanType);
    CrashStays(targets, numThreads, scanType, actions);
    var s0 := Initial(targets, numThreads, scanType);
    var s := Exec(s0, actions).value;
    CanStepIsEnabled(s);
    if s.stopped || Capped(numThreads, targets) == 0 {
      StoppedIsQuiet(s0.queue, Capped(numThreads, targets), s);
    } else if !Panicked(actions) {
      NoDeadlock(s0.queue, Capped(numThreads, targets), s);
    }
  }

  /** No run is longer than four steps for a target and three for a worker. */
  lemma RunsAreBounded(targets: seq<Target>, numThreads: nat, scanType: ScanType, actions: seq<Action>)
    requires Exec(Initial(targets, numThreads, scanType), actions).Some?
    ensures |actions| <= 4 * |targets| + 3 * Capped(numThreads, targets)
  {
    ReachableInv(targets, numThreads, scanType, actions);
    InitialQueue(targets, numThreads, scanType);
    FreshWorkers(Weight, Capped(numThreads, targets));
    ScannableCount(SENTINEL, Exec(Initial(targets, numThreads, scanType), actions).value.queue);
  }

  /** The remaining-thread counter never underflows, and the collector counts a worker only after it has exited. */
  lemma CounterNeverUnderflows(targets: seq<Target>, numThreads: nat, scanType: ScanType, actions: seq<Action>)
    requires Exec(Initial(targets, numThreads, scanType), actions).Some?
    ensures var s := Exec(Initial(targets, numThreads, scanType), actions).value;
            && 0 <= s.remaining <= Capped(numThreads, targets)
            && s.remaining == Capped(numThreads, targets) - ExitedCount(s.workers) + Dones(s.outbox)
            && (s.outbox != [] && s.outbox[0].Done? ==> s.remaining >= 1)
  {
    ReachableInv(targets, numThreads, scanType, actions);
    var s := Exec(Initial(targets, numThreads, scanType), actions).value;
    SumBound(HasExited, s.workers);
    if s.outbox != [] {
      ReportsFront(SENTINEL, s.outbox);
    }
  }

  /** What the collector has when it stops: the scannable targets queued before the last sentinel a worker can take. */
  lemma StoppedResults(targets: seq<Target>, numThreads: nat, scanType: ScanType, actions: seq<Action>, t: Target)
    requires Exec(Initial(targets, numThreads, scanType), actions).Some?
    requires Exec(Initial(targets, numThreads, scanType), actions).value.stopped
    ensures var s0 := Initial(targets, numThreads, scanType);
            var s := Exec(s0, actions).value;
            var cut := CutAfter(s0.queue, Capped(numThreads, targets));
            && s.outbox == []
            && s.queue == s0.queue[cut..]
            && Reports(t, s.results) == Scannable(t, s0.queue[..cut])
  {
    ReachableInv(targets, numThreads, scanType, actions);
    var s0 := Initial(targets, numThreads, scanType);
    var threads := Capped(numThreads, targets);
    var s := Exec(s0, actions).value;
    StoppedIsQuiet(s0.queue, threads, s);
    SumBound(HasLeft, s.workers);
    var taken := Taken(s0.queue, s);
    assert s0.queue[..|taken|] == taken;
    CutIsAtSentinel(s0.queue, threads, |taken|);
    NoneCarried(t, s.workers);
  }

  lemma {:induction false} NoneCarried(t: Target, workers: seq<Worker>)
    requires Left(workers) == |workers|
    ensures Sum(Carries(t), workers) == 0
  {
    if workers == [] {
    } else {
      SumBound(HasLeft, workers[..|workers| - 1]);
      NoneCarried(t, workers[..|workers| - 1]);
    }
  }

  function TargetSpecs(results: seq<ScanResult>): (specs: seq<Target>)
    requires forall r | r in results :: !r.Done?
    ensures |specs| == |results|
  {
    seq(|results|, i requires 0 <= i < |results| => results[i].targetspec)
  }

  lemma {:induction false} ReportsAreSpecs(t: Target, results: seq<ScanResult>)
    requires forall r | r in results :: !r.Done?
    ensures multiset(TargetSpecs(results))[t] == Reports(t, results)
  {
    if results == [] {
    } else {
      var n := |results| - 1;
      ReportsAreSpecs(t, results[..n]);
      assert TargetSpecs(results) == TargetSpecs(results[..n]) + [results[n].targetspec];
    }
  }

  /**
   Exactly when every target has a host (an empty one is taken for a sentinel), each interleaving that
   stops the collector has collected one result per target, none lost and none doubled, and has emptied
   the target channel.
   */
  lemma CollectsEveryTarget(targets: seq<Target>, numThreads: nat, scanType: ScanType, actions: seq<Action>)
    requires Exec(Initial(targets, numThreads, scanType), actions).Some?
    requires Exec(Initial(targets, numThreads, scanType), actions).value.stopped
    ensures var s := Exec(Initial(targets, numThreads, scanType), actions).value;
            && s.outbox == []
            && (forall r | r in s.results :: IsReport(r, scanType))
            && (multiset(TargetSpecs(s.results)) == multiset(targets) <==> forall t | t in targets :: t.host != "")
            && (s.queue == [] <==> forall t | t in targets :: t.host != "")
  {
    hide Reports, Scannable, EmptyHosts, CutAfter, Exec, TargetSpecs;
    OnlyEmptyHosts(targets);
    ReachableInv(targets, numThreads, scanType, actions);
    var s0 := Initial(targets, numThreads, scanType);
    var s := Exec(s0, actions).value;
    var cut := CutAfter(s0.queue, Capped(numThreads, targets));
    StoppedResults(targets, numThreads, scanType, actions, SENTINEL);
    WholeQueueIsCut(targets, numThreads, scanType, actions);
    ScannableCount(SENTINEL, targets);
    forall t
      ensures EmptyHosts(targets) == 0 ==> multiset(TargetSpecs(s.results))[t] == multiset(targets)[t]
      ensures IsSentinel(t) ==> multiset(TargetSpecs(s.results))[t] == 0
    {
      StoppedResults(targets, numThreads, scanType, actions, t);
      ReportsAreSpecs(t, s.results);
      InitialQueue(targets, numThreads, scanType);
      ScannableCount(t, targets);
      ScannableCount(t, s0.queue[..cut]);
    }
  }

  /** A sentinel is a target with an empty host, whatever its port. */
  lemma OnlyEmptyHosts(targets: seq<Target>)
    ensures (forall t | t in targets :: !IsSentinel(t)) <==> forall t | t in targets :: t.host != ""
  {
  }

  /** The workers take the whole queue exactly when no target has an empty host. */
  lemma WholeQueueIsCut(targets: seq<Target>, numThreads: nat, scanType: ScanType, actions: seq<Action>)
    requires Exec(Initial(targets, numThreads, scanType), actions).Some?
    requires Exec(Initial(targets, numThreads, scanType), actions).value.stopped
    ensures var s0 := Initial(targets, numThreads, scanType);
            var s := Exec(s0, actions).value;
            && (s.queue == [] <==> EmptyHosts(targets) == 0)
            && (EmptyHosts(targets) == 0 ==> s0.queue[..CutAfter(s0.queue, Capped(numThreads, targets))] == s0.queue)
  {
    hide Reports, Scannable, Exec;
    ReachableInv(targets, numThreads, scanType, actions);
    InitialQueue(targets, numThreads, scanType);
    StoppedResults(targets, numThreads, scanType, actions, SENTINEL);
    var s0 := Initial(targets, numThreads, scanType);
    var threads := Capped(numThreads, targets);
    var s := Exec(s0, actions).value;
    assert s0.queue[..|s0.queue|] == s0.queue;
    if EmptyHosts(targets) == 0 {
      CutIsAtSentinel(s0.queue, threads, |s0.queue|);
    } else {
      StoppedIsQuiet(s0.queue, threads, s);
      assert s.queue == [] ==> Taken(s0.queue, s) == s0.queue;
    }
  }

  lemma ReachedReports(targets: seq<Target>, numThreads: nat, scanType: ScanType, actions: seq<Action>)
    requires Exec(Initial(targets, numThreads, scanType), actions).Some?
    ensures var s := Exec(Initial(targets, numThreads, scanType), actions).value;
            && (forall w | w in s.workers && w.Reporting? :: IsReport(w.result, s.scanType))
            && (forall r | r in s.results :: IsReport(r, scanType) && !r.Done?)
  {
    ReachableInv(targets, numThreads, scanType, actions);
    hide Exec, Initial, QueueInv, ConservationInv, DoneInv;
  }

  // ----- a target with an empty host -----

  lemma OneStep(s0: Pool, actions: seq<Action>, s: Pool, a: Action)
    requires Exec(s0, actions) == Some(s) && Enabled(s, a)
    ensures Exec(s0, actions + [a]) == Some(Apply(s, a))
  {
    assert (actions + [a])[..|actions|] == actions;
  }

  /** `:22` gives an empty host: with one thread its worker leaves, and the target behind it is not scanned. */
  lemma EmptyHostEndsWorker()
    ensures var targets := [Target("", 22), Target("a", 22)];
            exists actions ::
              var run := Exec(Initial(targets, 1, SshScan), actions);
              run.Some? && run.value.stopped && run.value.results == [] && Target("a", 22) in run.value.queue
  {
    var targets := [Target("", 22), Target("a", 22)];
    var s0 := Initial(targets, 1, SshScan);
    assert s0.queue[0] == targets[0] && s0.queue[1] == targets[1];
    var s1 := Apply(s0, Receive(0));
    var s2 := Apply(s1, Quit(0));
    hide Exec, Initial;
    assert Exec(s0, []) == Some(s0) by { NoStep(s0); }
    OneStep(s0, [], s0, Receive(0));
    OneStep(s0, [] + [Receive(0)], s1, Quit(0));
    OneStep(s0, [] + [Receive(0)] + [Quit(0)], s2, Collect);
  }

  lemma NoStep(s0: Pool)
    ensures Exec(s0, []) == Some(s0)
  {
  }
}
