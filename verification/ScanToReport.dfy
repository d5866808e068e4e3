/** From the targets of one scan to the rows of its report: the worker pool and the report put together. */
module ScanToReport {
  import opened Common
  import opened ScanTypes
  import opened ScanPool
  import opened ScanLedger
  import opened ScanProgram
  import opened ScanReport
  import opened Csv
  import opened ReportCsv

  /** Two orders of the same results: the last of one stands somewhere in the other. */
  lemma LastElsewhere(a: seq<ScanResult>, b: seq<ScanResult>) returns (k: nat)
    requires a != [] && multiset(a) == multiset(b)
    ensures k < |b| && b[k] == a[|a| - 1] && b == b[..k] + [b[k]] + b[k + 1..]
    ensures multiset(a[..|a| - 1]) == multiset(b[..k] + b[k + 1..])
  {
    var last := a[|a| - 1];
    assert last in multiset(a);
    k :| 0 <= k < |b| && b[k] == last;
    Without(a, |a| - 1);
    Without(b, k);
    assert a[|a|..] == [] && a[..|a| - 1] + [] == a[..|a| - 1];
  }

  lemma Without(s: seq<ScanResult>, k: nat)
    requires k < |s|
    ensures s == s[..k] + [s[k]] + s[k + 1..]
    ensures multiset(s[..k] + s[k + 1..]) == multiset(s) - multiset{s[k]}
  {
    assert s == s[..k] + [s[k]] + s[k + 1..];
  }

  lemma {:induction false} ReportsOfMultiset(t: Target, a: seq<ScanResult>, b: seq<ScanResult>)
    requires multiset(a) == multiset(b)
    ensures Reports(t, a) == Reports(t, b)
  {
    if a == [] {
      assert b == [] by { assert |multiset(b)| == |b|; }
    } else {
      var k := LastElsewhere(a, b);
      var n := |a| - 1;
      ReportsOfMultiset(t, a[..n], b[..k] + b[k + 1..]);
      hide *;
      assert a == a[..n] + [a[n]];
      ReportsAppend(t, a[..n], [a[n]]);
      ReportsAppend(t, b[..k], b[k + 1..]);
      ReportsAppend(t, b[..k], [b[k]]);
      ReportsAppend(t, b[..k] + [b[k]], b[k + 1..]);
    }
  }

  lemma SpecsOfMultiset(a: seq<ScanResult>, b: seq<ScanResult>)
    requires multiset(a) == multiset(b) && forall r | r in a || r in b :: !r.Done?
    ensures multiset(TargetSpecs(a)) == multiset(TargetSpecs(b))
  {
    hide TargetSpecs, Reports;
    forall t ensures multiset(TargetSpecs(a))[t] == multiset(TargetSpecs(b))[t] {
      ReportsOfMultiset(t, a, b);
      ReportsAreSpecs(t, a);
      ReportsAreSpecs(t, b);
    }
  }

  /** The target a row of the report names. */
  function RowTarget(row: seq<string>): Target {
    if |row| > 2 && Number(row[2]) < 0x1_0000 then Target(row[1], Number(row[2])) else Target("", 0)
  }

  function RowTargets(rows: seq<seq<string>>): (targets: seq<Target>)
    ensures |targets| == |rows|
  {
    seq(|rows|, i requires 0 <= i < |rows| => RowTarget(rows[i]))
  }

  lemma RowsNameTargets(rs: seq<ScanResult>)
    requires forall r | r in rs :: !r.Done?
    ensures RowTargets(Rows(rs)) == TargetSpecs(rs)
  {
    forall i | 0 <= i < |rs| ensures RowTarget(Rows(rs)[i]) == rs[i].targetspec {
      assert rs[i] in rs;
      RowIsReadable(rs[i]);
      hide Number;
    }
  }

  lemma SortedSpecs(results: seq<ScanResult>, sorted: seq<ScanResult>)
    requires (forall r | r in results :: !r.Done?) && IsStableSort(sorted, results)
    ensures forall r | r in sorted :: !r.Done?
    ensures multiset(TargetSpecs(sorted)) == multiset(TargetSpecs(results))
  {
    hide Where, HostsAscend, TargetSpecs;
    assert forall r | r in sorted :: r in multiset(sorted);
    SpecsOfMultiset(sorted, results);
  }

  lemma SortOfNone(sorted: seq<ScanResult>)
    requires IsStableSort(sorted, [])
    ensures sorted == []
  {
  }

  /** The results of one kind and those of the other in a file of one scan. */
  lemma ResultsOfScan(results: seq<ScanResult>, scanType: ScanType, version: string)
    requires forall r | r in results :: IsReport(r, scanType)
    ensures Verdict([Scan(version, results)], version).Ok?
    ensures var all := AllResults([Scan(version, results)]);
            && Where(OfType(SshScan), all) == (if scanType.SshScan? then results else [])
            && Where(OfType(TlsScan), all) == (if scanType.TlsScan? then results else [])
  {
    var scan := Scan(version, results);
    AcceptedExactly([scan], version);
    assert AllResults([scan]) == results by { assert [scan][..0] == []; }
    hide Verdict, AllResults, Where;
    match scanType {
      case SshScan =>
        WhereAll(OfType(SshScan), results);
        WhereNone(OfType(TlsScan), results);
      case TlsScan =>
        WhereAll(OfType(TlsScan), results);
        WhereNone(OfType(SshScan), results);
    }
  }

  lemma OnlyRows(ssh: seq<ScanResult>, tls: seq<ScanResult>)
    ensures Rows([]) == []
    ensures ssh == [] ==> ([HEADER] + Rows(ssh) + Rows(tls))[1..] == Rows(tls)
    ensures tls == [] ==> ([HEADER] + Rows(ssh) + Rows(tls))[1..] == Rows(ssh)
    ensures ([HEADER] + Rows(ssh) + Rows(tls))[0] == HEADER
  {
    assert |Rows([])| == 0;
    hide Rows;
  }

  /** The report of one scan names the targets its results are about, one a row. */
  lemma ReportOfScan(results: seq<ScanResult>, scanType: ScanType, version: string, text: string)
    requires forall r | r in results :: IsReport(r, scanType)
    requires IsReportOf(text, [Scan(version, results)])
    ensures Verdict([Scan(version, results)], version).Ok?
    ensures var records := ReadCsv(text);
            && records.Some? && records.value != [] && records.value[0] == HEADER
            && multiset(RowTargets(records.value[1..])) == multiset(TargetSpecs(results))
  {
    ResultsOfScan(results, scanType, version);
    var all := AllResults([Scan(version, results)]);
    var ssh, tls :| IsStableSort(ssh, Where(OfType(SshScan), all)) && IsStableSort(tls, Where(OfType(TlsScan), all))
                    && ReadCsv(text) == Some([HEADER] + Rows(ssh) + Rows(tls));
    hide Verdict, AllResults, Where, IsStableSort, TargetSpecs, RowTargets, Rows, ReadCsv, OfType, IsReportOf;
    SortOfNone(if scanType.SshScan? then tls else ssh);
    var sorted := if scanType.SshScan? then ssh else tls;
    SortedSpecs(results, sorted);
    RowsNameTargets(sorted);
    OnlyRows(ssh, tls);
    hide IsReport;
  }

  /**
   However the workers were interleaved, the report of the finished scan is accepted, and a reader of its
   text finds the header and rows that name every target once, exactly when no target had an empty host.
   */
  lemma EveryTargetHasItsRow(targets: seq<Target>, numThreads: nat, scanType: ScanType, actions: seq<Action>,
                             version: string, text: string)
    requires Exec(Initial(targets, numThreads, scanType), actions).Some?
    requires Exec(Initial(targets, numThreads, scanType), actions).value.stopped
    requires var results := Exec(Initial(targets, numThreads, scanType), actions).value.results;
             IsReportOf(text, [Scan(version, results)])
    ensures var results := Exec(Initial(targets, numThreads, scanType), actions).value.results;
            Verdict([Scan(version, results)], version).Ok?
    ensures var records := ReadCsv(text);
            && records.Some? && records.value != [] && records.value[0] == HEADER
            && (multiset(RowTargets(records.value[1..])) == multiset(targets)
                <==> forall t | t in targets :: t.host != "")
  {
    hide *;
    CollectsEveryTarget(targets, numThreads, scanType, actions);
    ReportOfScan(Exec(Initial(targets, numThreads, scanType), actions).value.results, scanType, version, text);
  }

  /**
   A scan by any scheduler and then its report, unless the scan hangs; `lost` are the targets of panicked
   scans. The report is of what the scans returned, unchanged.
   */
  method ScanAndReport(targets: seq<Target>, numThreads: nat, scanType: ScanType, schedule: Pool -> Action,
                       version: string)
    returns (text: Option<string>, lost: seq<Target>, ghost actions: seq<Action>)
    requires forall s :: CanStep(s) ==> Enabled(s, schedule(s))
    ensures text.Some? <==> targets != [] && numThreads > 0 && lost == []
    ensures text.Some? ==>
              var records := ReadCsv(text.value);
              && records.Some? && records.value != [] && records.value[0] == HEADER
              && (multiset(RowTargets(records.value[1..])) == multiset(targets)
                  <==> forall t | t in targets :: t.host != "")
    ensures text.Some? ==>
              && Exec(Initial(targets, numThreads, scanType), actions).Some?
              && IsReportOf(text.value, [Scan(version, Sent(actions))])
              && multiset(Sent(actions)) == multiset(Finished(actions))
  {
    hide *;
    var results, hung;
    results, lost, hung, actions := ScanRunner(targets, numThreads, scanType, schedule);
    if hung {
      return None, lost, actions;
    }
    ResultsOfScan(results, scanType, version);
    var report := CsvReport([Scan(version, results)], version);
    ReportOfScan(results, scanType, version, report.value);
    text := Some(report.value);
    RunIsRun(targets, numThreads, scanType, actions, results);
  }

  lemma RunIsRun(targets: seq<Target>, numThreads: nat, scanType: ScanType, actions: seq<Action>,
                 results: seq<ScanResult>)
    requires IsRunOf(targets, numThreads, scanType, actions, results)
    ensures Exec(Initial(targets, numThreads, scanType), actions).Some?
  {
  }
}
