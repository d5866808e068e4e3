/** How pqcscan folds scan files into one report and prints it as CSV (pqcscan/src/main.rs). */
module ScanReport {
  import opened Common
  import opened ScanTypes

  /** One input file: the version of the program that wrote it and its results. */
  datatype Scan = Scan(version: string, results: seq<ScanResult>)

  // ----- hosts in a `BTreeSet` -----

  /** The order of `String`. */
  predicate LexLess(a: string, b: string) {
    b != "" && (a == "" || a[0] < b[0] || (a[0] == b[0] && LexLess(a[1..], b[1..])))
  }

  lemma {:induction false} LexTotal(a: string, b: string)
    ensures LexLess(a, b) || a == b || LexLess(b, a)
    ensures !(LexLess(a, b) && LexLess(b, a)) && !LexLess(a, a)
  {
    if a != "" {
      if b != "" {
        LexTotal(a[1..], b[1..]);
        assert a == [a[0]] + a[1..] && b == [b[0]] + b[1..];
      }
      LexTotal(a[1..], a[1..]);
    }
  }

  lemma {:induction false} LexTransitive(a: string, b: string, c: string)
    requires LexLess(a, b) && LexLess(b, c)
    ensures LexLess(a, c)
  {
    if a != "" && a[0] == b[0] == c[0] {
      LexTransitive(a[1..], b[1..], c[1..]);
    }
  }

  /** The order said by the first place at which two texts differ; a text comes before what it begins. */
  lemma {:induction false} LexLessExactly(a: string, b: string)
    ensures LexLess(a, b) <==> exists i: nat :: DiffersAt(a, b, i)
  {
    if LexLess(a, b) {
      var i := FirstDifference(a, b);
      assert DiffersAt(a, b, i);
    }
    if i: nat :| DiffersAt(a, b, i) {
      DifferenceTells(a, b, i);
    }
  }

  predicate DiffersAt(a: string, b: string, i: nat) {
    && i <= |a| && i < |b| && a[..i] == b[..i]
    && (i == |a| || a[i] < b[i])
  }

  lemma {:induction false} FirstDifference(a: string, b: string) returns (i: nat)
    requires LexLess(a, b)
    ensures DiffersAt(a, b, i)
  {
    if a == "" || a[0] < b[0] {
      i := 0;
    } else {
      i := FirstDifference(a[1..], b[1..]);
      i := i + 1;
      assert a[..i] == [a[0]] + a[1..][..i - 1] && b[..i] == [b[0]] + b[1..][..i - 1];
    }
  }

  lemma {:induction false} DifferenceTells(a: string, b: string, i: nat)
    requires DiffersAt(a, b, i)
    ensures LexLess(a, b)
  {
    if i > 0 {
      assert a[0] == a[..i][0] && b[0] == b[..i][0];
      assert a[1..][..i - 1] == a[..i][1..] && b[1..][..i - 1] == b[..i][1..];
      DifferenceTells(a[1..], b[1..], i - 1);
    }
  }

  predicate Ascending(hosts: seq<string>) {
    forall i, j | 0 <= i < j < |hosts| :: LexLess(hosts[i], hosts[j])
  }

  /** `insert` of an ordered set, kept as the list of its elements in order. */
  function Inserted(hosts: seq<string>, host: string): seq<string> {
    if hosts == [] then [host]
    else if hosts[0] == host then hosts
    else if LexLess(host, hosts[0]) then [host] + hosts
    else [hosts[0]] + Inserted(hosts[1..], host)
  }

  lemma AscendingCons(first: string, rest: seq<string>)
    ensures Ascending([first] + rest) <==> Ascending(rest) && forall h | h in rest :: LexLess(first, h)
  {
    hide LexLess;
    var all := [first] + rest;
    forall i, j | Ascending(rest) && (forall h | h in rest :: LexLess(first, h)) && 0 <= i < j < |all|
      ensures LexLess(all[i], all[j])
    {
      assert all[j] == rest[j - 1] && rest[j - 1] in rest;
      assert i > 0 ==> all[i] == rest[i - 1];
    }
    if Ascending(all) {
      forall i, j | 0 <= i < j < |rest| ensures LexLess(rest[i], rest[j]) {
        assert LexLess(all[i + 1], all[j + 1]);
      }
      forall h | h in rest ensures LexLess(first, h) {
        var j :| 0 <= j < |rest| && rest[j] == h;
        assert LexLess(all[0], all[j + 1]);
      }
    }
  }

  lemma {:induction false} InsertedKeepsOrder(hosts: seq<string>, host: string)
    requires Ascending(hosts)
    ensures Ascending(Inserted(hosts, host))
    ensures forall h :: h in Inserted(hosts, host) <==> h in hosts || h == host
  {
    if hosts == [] {
    } else {
      var first, rest := hosts[0], hosts[1..];
      assert hosts == [first] + rest;
      AscendingCons(first, rest);
      LexTotal(first, host);
      if first != host {
        if LexLess(host, first) {
          forall h | h in hosts ensures LexLess(host, h) {
            if h != first {
              LexTransitive(host, first, h);
            }
          }
          AscendingCons(host, hosts);
        } else {
          InsertedKeepsOrder(rest, host);
          AscendingCons(first, Inserted(rest, host));
        }
      }
      hide LexLess, Ascending;
    }
  }

  // ----- results of one kind -----

  predicate Succeeded(r: ScanResult) {
    !r.Done? && r.error == None
  }

  predicate Failed(r: ScanResult) {
    !r.Done? && r.error.Some?
  }

  predicate Pqc(r: ScanResult) {
    !r.Done? && r.pqcSupported
  }

  function Count(p: ScanResult -> bool, rs: seq<ScanResult>): (n: nat)
    ensures n <= |rs|
  {
    if rs == [] then 0 else Count(p, rs[..|rs| - 1]) + if p(rs[|rs| - 1]) then 1 else 0
  }

  /** The results that satisfy a predicate, in their order. */
  function Where(p: ScanResult -> bool, rs: seq<ScanResult>): seq<ScanResult> {
    if rs == [] then []
    else
      var r := rs[|rs| - 1];
      Where(p, rs[..|rs| - 1]) + if p(r) then [r] else []
  }

  function OnHost(host: string): ScanResult -> bool {
    (r: ScanResult) => !r.Done? && r.targetspec.host == host
  }

  function OfType(scanType: ScanType): ScanResult -> bool {
    (r: ScanResult) => IsReport(r, scanType)
  }

  lemma {:induction false} WhereIsFilter(p: ScanResult -> bool, rs: seq<ScanResult>)
    ensures forall r :: r in Where(p, rs) <==> r in rs && p(r)
  {
    if rs != [] {
      WhereIsFilter(p, rs[..|rs| - 1]);
      assert rs == rs[..|rs| - 1] + [rs[|rs| - 1]];
    }
  }

  lemma {:induction false} WhereAll(p: ScanResult -> bool, rs: seq<ScanResult>)
    requires forall r | r in rs :: p(r)
    ensures Where(p, rs) == rs
  {
    if rs != [] {
      WhereAll(p, rs[..|rs| - 1]);
      assert rs == rs[..|rs| - 1] + [rs[|rs| - 1]];
    }
  }

  lemma {:induction false} WhereNone(p: ScanResult -> bool, rs: seq<ScanResult>)
    requires forall r | r in rs :: !p(r)
    ensures Where(p, rs) == []
  {
    if rs != [] {
      WhereNone(p, rs[..|rs| - 1]);
    }
  }

  lemma WhereSnoc(p: ScanResult -> bool, rs: seq<ScanResult>, r: ScanResult)
    ensures Where(p, rs + [r]) == Where(p, rs) + if p(r) then [r] else []
    ensures Count(p, rs + [r]) == Count(p, rs) + if p(r) then 1 else 0
  {
    assert (rs + [r])[..|rs|] == rs;
  }

  /** Every host with a result is a key, and its value is its results in their order. */
  ghost predicate Groups(byHost: map<string, seq<ScanResult>>, rs: seq<ScanResult>) {
    forall h :: (if h in byHost then byHost[h] else []) == Where(OnHost(h), rs) && (h in byHost ==> byHost[h] != [])
  }

  lemma GroupsSnoc(byHost: map<string, seq<ScanResult>>, rs: seq<ScanResult>, r: ScanResult)
    requires Groups(byHost, rs) && !r.Done?
    ensures var h := r.targetspec.host;
            Groups(byHost[h := (if h in byHost then byHost[h] else []) + [r]], rs + [r])
  {
    hide Where;
    forall h ensures Where(OnHost(h), rs + [r]) == Where(OnHost(h), rs) + if h == r.targetspec.host then [r] else [] {
      WhereSnoc(OnHost(h), rs, r);
    }
  }

  predicate Tallies(success: nat, pqc: nat, total: nat, rs: seq<ScanResult>) {
    success == Count(Succeeded, rs) && pqc == Count(Pqc, rs) && total == |rs|
  }

  lemma TalliesSnoc(success: nat, pqc: nat, total: nat, rs: seq<ScanResult>, r: ScanResult)
    requires Tallies(success, pqc, total, rs) && !r.Done?
    ensures Tallies(success + (if r.error == None then 1 else 0), pqc + (if r.pqcSupported then 1 else 0), total + 1,
                    rs + [r])
  {
    WhereSnoc(Succeeded, rs, r);
    WhereSnoc(Pqc, rs, r);
    hide Count;
  }

  /** The results of one kind as the report holds them: the maps and counters `create_report` fills. */
  class Section {
    var byHost: map<string, seq<ScanResult>>
    var sortedHosts: seq<string>
    var success: nat
    var pqc: nat
    var total: nat
    ghost var results: seq<ScanResult>

    /** What the section says about the results added to it. */
    ghost predicate Valid()
      reads this
    {
      && Groups(byHost, results)
      && Ascending(sortedHosts) && (forall h :: h in sortedHosts <==> h in byHost)
      && Tallies(success, pqc, total, results)
    }

    constructor ()
      ensures Valid() && results == []
    {
      byHost, sortedHosts, success, pqc, total, results := map[], [], 0, 0, 0, [];
    }

    method Add(r: ScanResult)
      requires Valid() && !r.Done?
      modifies this
      ensures Valid() && results == old(results) + [r]
    {
      hide Groups, Ascending, Tallies, Inserted;
      var host := r.targetspec.host;
      InsertedKeepsOrder(sortedHosts, host);
      GroupsSnoc(byHost, results, r);
      TalliesSnoc(success, pqc, total, results, r);
      sortedHosts := Inserted(sortedHosts, host);
      Tally(r);
      Group(r);
      results := results + [r];
    }

    method Tally(r: ScanResult)
      requires !r.Done?
      modifies this`success, this`pqc, this`total
      ensures success == old(success) + (if r.error == None then 1 else 0)
      ensures pqc == old(pqc) + (if r.pqcSupported then 1 else 0)
      ensures total == old(total) + 1
    {
      if r.error == None {
        success := success + 1;
      }
      if r.pqcSupported {
        pqc := pqc + 1;
      }
      total := total + 1;
    }

    method Group(r: ScanResult)
      requires !r.Done?
      modifies this`byHost
      ensures var host := r.targetspec.host;
              byHost == old(byHost[host := (if host in byHost then byHost[host] else []) + [r]])
    {
      var host := r.targetspec.host;
      if host !in byHost {
        byHost := byHost[host := []];
      }
      byHost := byHost[host := byHost[host] + [r]];
    }

    method FailCount() returns (fail: nat)
      requires Valid() && forall r | r in results :: !r.Done?
      ensures fail == Count(Failed, results) && success + fail == total
    {
      SucceededOrFailed(results);
      fail := total - success;
    }
  }

  lemma {:induction false} SucceededOrFailed(rs: seq<ScanResult>)
    requires forall r | r in rs :: !r.Done?
    ensures Count(Succeeded, rs) + Count(Failed, rs) == |rs|
  {
    if rs != [] {
      SucceededOrFailed(rs[..|rs| - 1]);
    }
  }

  // ----- `create_report`: from the scan files to two sections -----

  /** Whether the files are accepted: in order, a foreign version is an error and a stray `Done` a panic. */
  function Verdict(scans: seq<Scan>, version: string): Outcome<(), string> {
    if scans == [] then Outcome.Ok(())
    else
      var last := scans[|scans| - 1];
      var before := Verdict(scans[..|scans| - 1], version);
      if !before.Ok? then before
      else if last.version != version then Err(last.version)
      else if exists r | r in last.results :: r.Done? then Panic
      else Outcome.Ok(())
  }

  function AllResults(scans: seq<Scan>): seq<ScanResult> {
    if scans == [] then [] else AllResults(scans[..|scans| - 1]) + scans[|scans| - 1].results
  }

  datatype ReportResults = ReportResults(ssh: Section, tls: Section, sshFail: nat, tlsFail: nat)

  method CreateReport(scans: seq<Scan>, version: string) returns (report: Outcome<ReportResults, string>)
    ensures report.Ok? <==> Verdict(scans, version).Ok?
    ensures report.IsFailure() ==> report.PropagateFailure<()>() == Verdict(scans, version)
    ensures report.Ok? ==>
              var ReportResults(ssh, tls, sshFail, tlsFail) := report.value;
              && fresh(ssh) && fresh(tls) && ssh.Valid() && tls.Valid()
              && ssh.results == Where(OfType(SshScan), AllResults(scans))
              && tls.results == Where(OfType(TlsScan), AllResults(scans))
              && sshFail == Count(Failed, ssh.results) && ssh.success + sshFail == ssh.total
              && tlsFail == Count(Failed, tls.results) && tls.success + tlsFail == tls.total
  {
    hide Where, Verdict, AllResults, Count;
    NoFiles(version);
    WhereNone(OfType(SshScan), []);
    WhereNone(OfType(TlsScan), []);
    assert scans[..0] == [];
    var ssh := new Section();
    var tls := new Section();
    for i := 0 to |scans|
      invariant ssh.Valid() && tls.Valid()
      invariant Verdict(scans[..i], version) == Outcome.Ok(())
      invariant ssh.results == Where(OfType(SshScan), AllResults(scans[..i]))
      invariant tls.results == Where(OfType(TlsScan), AllResults(scans[..i]))
    {
      NextFile(scans[..i], scans[i], version);
      assert scans[..i] + [scans[i]] == scans[..i + 1];
      if scans[i].version != version {
        VerdictStays(scans, i + 1, version);
        return Err(scans[i].version);
      }
      var panicked := AddResults(scans[i].results, ssh, tls, AllResults(scans[..i]));
      if panicked {
        VerdictStays(scans, i + 1, version);
        return Panic;
      }
    }
    assert scans[..|scans|] == scans;
    WhereIsFilter(OfType(SshScan), AllResults(scans));
    WhereIsFilter(OfType(TlsScan), AllResults(scans));
    hide Section.Valid;
    var tlsFail := tls.FailCount();
    var sshFail := ssh.FailCount();
    report := Outcome.Ok(ReportResults(ssh, tls, sshFail, tlsFail));
  }

  lemma NoFiles(version: string)
    ensures Verdict([], version) == Outcome.Ok(()) && AllResults([]) == []
  {
  }

  lemma NextFile(scans: seq<Scan>, last: Scan, version: string)
    ensures AllResults(scans + [last]) == AllResults(scans) + last.results
    ensures Verdict(scans, version).Ok? ==>
              Verdict(scans + [last], version) ==
                if last.version != version then Err(last.version)
                else if exists r | r in last.results :: r.Done? then Panic
                else Outcome.Ok(())
  {
    assert (scans + [last])[..|scans|] == scans;
  }

  /** The inner loop of `create_report`; it panics at the first `Done`. */
  method AddResults(results: seq<ScanResult>, ssh: Section, tls: Section, ghost before: seq<ScanResult>)
      returns (panicked: bool)
    requires ssh.Valid() && tls.Valid() && ssh != tls
    requires ssh.results == Where(OfType(SshScan), before) && tls.results == Where(OfType(TlsScan), before)
    modifies ssh, tls
    ensures ssh.Valid() && tls.Valid()
    ensures panicked <==> exists r | r in results :: r.Done?
    ensures !panicked ==> ssh.results == Where(OfType(SshScan), before + results)
    ensures !panicked ==> tls.results == Where(OfType(TlsScan), before + results)
  {
    hide Where, Groups, Ascending, Tallies;
    assert before + results[..0] == before;
    for j := 0 to |results|
      invariant ssh.Valid() && tls.Valid()
      invariant forall k | 0 <= k < j :: !results[k].Done?
      invariant ssh.results == Where(OfType(SshScan), before + results[..j])
      invariant tls.results == Where(OfType(TlsScan), before + results[..j])
    {
      var result := results[j];
      assert before + results[..j + 1] == (before + results[..j]) + [result];
      WhereSnoc(OfType(SshScan), before + results[..j], result);
      WhereSnoc(OfType(TlsScan), before + results[..j], result);
      match result {
        case Ssh(_, _, _, _, _, _) => ssh.Add(result);
        case Tls(_, _, _, _, _, _, _) => tls.Add(result);
        case Done => return true;
      }
    }
    assert results[..|results|] == results;
    panicked := false;
  }

  lemma {:induction false} VerdictStays(scans: seq<Scan>, n: nat, version: string)
    requires n <= |scans| && !Verdict(scans[..n], version).Ok?
    ensures Verdict(scans, version) == Verdict(scans[..n], version)
  {
    if n == |scans| {
      assert scans[..n] == scans;
    } else {
      assert scans[..|scans| - 1][..n] == scans[..n];
      VerdictStays(scans[..|scans| - 1], n, version);
    }
  }

  /** A file of this version without stray `Done`. */
  predicate IsAcceptable(scan: Scan, version: string) {
    scan.version == version && forall r | r in scan.results :: !r.Done?
  }

  lemma VerdictSnoc(scans: seq<Scan>, last: Scan, version: string)
    ensures Verdict(scans + [last], version).Ok? <==> Verdict(scans, version).Ok? && IsAcceptable(last, version)
  {
    assert (scans + [last])[..|scans|] == scans;
  }

  /** Reports exist exactly for files of this version without stray `Done`. */
  lemma {:induction false} AcceptedExactly(scans: seq<Scan>, version: string)
    ensures Verdict(scans, version).Ok? <==> forall s | s in scans :: IsAcceptable(s, version)
  {
    if scans != [] {
      var front, last := scans[..|scans| - 1], scans[|scans| - 1];
      hide Verdict, IsAcceptable;
      assert scans == front + [last];
      AcceptedExactly(front, version);
      VerdictSnoc(front, last, version);
    }
  }

  /** The first file that is not acceptable decides: a foreign version is reported, a stray `Done` a panic. */
  lemma FirstFailureDecides(scans: seq<Scan>, version: string, i: nat)
    requires i < |scans| && !IsAcceptable(scans[i], version)
    requires forall s | s in scans[..i] :: IsAcceptable(s, version)
    ensures Verdict(scans, version) == if scans[i].version != version then Err(scans[i].version) else Panic
  {
    AcceptedExactly(scans[..i], version);
    NextFile(scans[..i], scans[i], version);
    assert scans[..i] + [scans[i]] == scans[..i + 1];
    hide Verdict;
    VerdictStays(scans, i + 1, version);
  }

  // ----- the order of the rows -----

  /** The results of some hosts, host by host. */
  function Grouped(hosts: seq<string>, rs: seq<ScanResult>): seq<ScanResult> {
    if hosts == [] then []
    else Grouped(hosts[..|hosts| - 1], rs) + Where(OnHost(hosts[|hosts| - 1]), rs)
  }

  function OnHosts(hosts: seq<string>): ScanResult -> bool {
    (r: ScanResult) => !r.Done? && r.targetspec.host in hosts
  }

  lemma WhereSnocMultiset(p: ScanResult -> bool, rs: seq<ScanResult>, r: ScanResult)
    ensures multiset(Where(p, rs + [r])) == multiset(Where(p, rs)) + if p(r) then multiset{r} else multiset{}
  {
    WhereSnoc(p, rs, r);
  }

  /** One more host adds its own results and no others. */
  lemma {:induction false} HostsSnoc(hosts: seq<string>, host: string, rs: seq<ScanResult>)
    requires host !in hosts
    ensures multiset(Where(OnHosts(hosts + [host]), rs)) ==
              multiset(Where(OnHosts(hosts), rs)) + multiset(Where(OnHost(host), rs))
  {
    if rs != [] {
      var front, r := rs[..|rs| - 1], rs[|rs| - 1];
      var among, here := OnHosts(hosts)(r), OnHost(host)(r);
      assert OnHosts(hosts + [host])(r) == (among || here) && !(among && here);
      hide *;
      assert rs == front + [r];
      HostsSnoc(hosts, host, front);
      WhereSnocMultiset(OnHosts(hosts + [host]), front, r);
      WhereSnocMultiset(OnHosts(hosts), front, r);
      WhereSnocMultiset(OnHost(host), front, r);
    }
  }

  lemma {:induction false} GroupedIsWhere(hosts: seq<string>, rs: seq<ScanResult>)
    requires Ascending(hosts)
    ensures multiset(Grouped(hosts, rs)) == multiset(Where(OnHosts(hosts), rs))
  {
    hide Where, LexLess;
    if hosts == [] {
      WhereNone(OnHosts(hosts), rs);
    } else {
      var n := |hosts| - 1;
      GroupedIsWhere(hosts[..n], rs);
      LastIsNew(hosts);
      assert hosts == hosts[..n] + [hosts[n]];
      HostsSnoc(hosts[..n], hosts[n], rs);
    }
  }

  lemma {:induction false} WhereAppend(p: ScanResult -> bool, a: seq<ScanResult>, b: seq<ScanResult>)
    ensures Where(p, a + b) == Where(p, a) + Where(p, b)
  {
    if b == [] {
      assert a + b == a;
    } else {
      var n := |b| - 1;
      WhereAppend(p, a, b[..n]);
      WhereSnoc(p, a + b[..n], b[n]);
      WhereSnoc(p, b[..n], b[n]);
      hide Where;
      assert a + b == a + b[..n] + [b[n]] && b == b[..n] + [b[n]];
    }
  }

  lemma LastIsNew(hosts: seq<string>)
    requires Ascending(hosts) && hosts != []
    ensures hosts[|hosts| - 1] !in hosts[..|hosts| - 1]
  {
    var n := |hosts| - 1;
    forall i | 0 <= i < n ensures hosts[i] != hosts[n] {
      LexTotal(hosts[i], hosts[n]);
    }
  }

  lemma {:induction false} GroupedOnHost(hosts: seq<string>, rs: seq<ScanResult>, host: string)
    requires Ascending(hosts)
    ensures Where(OnHost(host), Grouped(hosts, rs)) == if host in hosts then Where(OnHost(host), rs) else []
  {
    hide Where, LexLess;
    if hosts == [] {
      WhereNone(OnHost(host), []);
    } else {
      var n := |hosts| - 1;
      var last := Where(OnHost(hosts[n]), rs);
      GroupedOnHost(hosts[..n], rs, host);
      LastIsNew(hosts);
      WhereAppend(OnHost(host), Grouped(hosts[..n], rs), last);
      WhereIsFilter(OnHost(hosts[n]), rs);
      if host == hosts[n] {
        WhereAll(OnHost(host), last);
      } else {
        WhereNone(OnHost(host), last);
      }
    }
  }

  predicate HostsAscend(rs: seq<ScanResult>) {
    forall i, j | 0 <= i < j < |rs| && !rs[i].Done? && !rs[j].Done? ::
      LexLess(rs[i].targetspec.host, rs[j].targetspec.host) || rs[i].targetspec.host == rs[j].targetspec.host
  }

  lemma {:induction false} GroupedAscends(hosts: seq<string>, rs: seq<ScanResult>)
    requires Ascending(hosts)
    ensures HostsAscend(Grouped(hosts, rs))
    ensures forall r | r in Grouped(hosts, rs) :: !r.Done? && r.targetspec.host in hosts
  {
    hide Where, LexLess;
    if hosts != [] {
      var n := |hosts| - 1;
      GroupedAscends(hosts[..n], rs);
      WhereIsFilter(OnHost(hosts[n]), rs);
      var front, last := Grouped(hosts[..n], rs), Where(OnHost(hosts[n]), rs);
      forall i, j | 0 <= i < |front| && 0 <= j < |last|
        ensures !front[i].Done? && !last[j].Done? && LexLess(front[i].targetspec.host, last[j].targetspec.host)
      {
        assert front[i] in front && last[j] in last;
      }
      hide Ascending, Grouped;
      assert forall r | r in last :: !r.Done? && r.targetspec.host == hosts[n];
    }
  }

  /** The same results, hosts ascending, input order kept per host. */
  ghost predicate IsStableSort(sorted: seq<ScanResult>, rs: seq<ScanResult>) {
    && multiset(sorted) == multiset(rs) && |sorted| == |rs|
    && HostsAscend(sorted)
    && forall host :: Where(OnHost(host), sorted) == Where(OnHost(host), rs)
  }

  /** The hosts of a section in order, each with its results, list the results in their stable order by host. */
  lemma GroupedIsStableSort(hosts: seq<string>, byHost: map<string, seq<ScanResult>>, rs: seq<ScanResult>)
    requires Groups(byHost, rs) && Ascending(hosts) && forall h :: h in hosts <==> h in byHost
    requires forall r | r in rs :: !r.Done?
    ensures IsStableSort(Grouped(hosts, rs), rs) && forall r | r in Grouped(hosts, rs) :: !r.Done?
  {
    hide Where, Grouped, LexLess, Ascending, HostsAscend;
    forall r | r in rs ensures r.targetspec.host in hosts {
      WhereIsFilter(OnHost(r.targetspec.host), rs);
    }
    hide Groups;
    GroupedIsWhere(hosts, rs);
    WhereAll(OnHosts(hosts), rs);
    assert |multiset(Grouped(hosts, rs))| == |Grouped(hosts, rs)|;
    GroupedAscends(hosts, rs);
    forall host ensures Where(OnHost(host), Grouped(hosts, rs)) == Where(OnHost(host), rs) {
      GroupedOnHost(hosts, rs, host);
      if host !in hosts {
        WhereNone(OnHost(host), rs);
      }
    }
  }

  lemma LastHostBounds(a: seq<ScanResult>, b: seq<ScanResult>)
    requires a != [] && b != [] && HostsAscend(b)
    requires !a[|a| - 1].Done? && !b[|b| - 1].Done?
    requires Where(OnHost(a[|a| - 1].targetspec.host), a) == Where(OnHost(a[|a| - 1].targetspec.host), b)
    ensures var ha, hb := a[|a| - 1].targetspec.host, b[|b| - 1].targetspec.host;
            LexLess(ha, hb) || ha == hb
  {
    hide Where, LexLess;
    var x := a[|a| - 1];
    WhereIsFilter(OnHost(x.targetspec.host), a);
    WhereIsFilter(OnHost(x.targetspec.host), b);
    assert x in b;
  }

  lemma SnocIsInjective<T>(u: seq<T>, x: T, v: seq<T>, y: T)
    requires u + [x] == v + [y]
    ensures u == v && x == y
  {
    assert (u + [x])[..|u|] == u && (v + [y])[..|v|] == v;
    assert (u + [x])[|u|] == x && (v + [y])[|v|] == y;
  }

  lemma SameUpToLast(a: seq<ScanResult>, b: seq<ScanResult>, x: ScanResult, y: ScanResult, host: string)
    requires HostsAscend(a + [x]) && HostsAscend(b + [y]) && !x.Done? && !y.Done?
    requires forall h :: Where(OnHost(h), a + [x]) == Where(OnHost(h), b + [y])
    ensures x == y && Where(OnHost(host), a) == Where(OnHost(host), b)
  {
    hide Where, LexLess, HostsAscend;
    LastHostBounds(a + [x], b + [y]);
    LastHostBounds(b + [y], a + [x]);
    LexTotal(x.targetspec.host, y.targetspec.host);
    var h := x.targetspec.host;
    WhereSnoc(OnHost(h), a, x);
    WhereSnoc(OnHost(h), b, y);
    SnocIsInjective(Where(OnHost(h), a), x, Where(OnHost(h), b), y);
    WhereSnoc(OnHost(host), a, x);
    WhereSnoc(OnHost(host), b, y);
    if host == h {
      assert OnHost(host) == OnHost(h);
    } else {
      assert Where(OnHost(host), a) + [] == Where(OnHost(host), a);
    }
  }

  lemma SomeOnHost(a: seq<ScanResult>, x: ScanResult)
    requires !x.Done?
    ensures Where(OnHost(x.targetspec.host), a + [x]) != Where(OnHost(x.targetspec.host), [])
  {
    WhereSnoc(OnHost(x.targetspec.host), a, x);
  }

  /** Nothing but the stable sort lists the results in that order. */
  lemma {:induction false} StableSortIsUnique(a: seq<ScanResult>, b: seq<ScanResult>)
    requires HostsAscend(a) && HostsAscend(b)
    requires forall r | r in a || r in b :: !r.Done?
    requires forall host :: Where(OnHost(host), a) == Where(OnHost(host), b)
    ensures a == b
  {
    hide Where, LexLess, OnHost;
    var m, n := |a| - 1, |b| - 1;
    if a != [] {
      assert a == a[..m] + [a[m]];
      SomeOnHost(a[..m], a[m]);
    }
    if b != [] {
      assert b == b[..n] + [b[n]];
      SomeOnHost(b[..n], b[n]);
    }
    if a != [] && b != [] {
      assert HostsAscend(a[..m]) && HostsAscend(b[..n]);
      hide HostsAscend;
      forall host ensures a[m] == b[n] && Where(OnHost(host), a[..m]) == Where(OnHost(host), b[..n]) {
        SameUpToLast(a[..m], b[..n], a[m], b[n], host);
      }
      StableSortIsUnique(a[..m], b[..n]);
    }
  }
}
