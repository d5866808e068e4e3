/** The rows of the CSV report, and what a reader gets back from the written text (pqcscan/src/main.rs). */
module ReportCsv {
  import opened Common
  import opened ScanTypes
  import opened Csv
  import opened ScanReport

  const HEADER := ["scan_type", "host", "port", "address", "status", "pqc_supported", "pqc_algorithms",
                   "hybrid_algorithms", "non_pqc_algorithms", "error"]

  // ----- one row -----

  const DIGITS := "0123456789"

  /** `to_string` of an unsigned number. */
  function Decimal(n: nat): string {
    (if n < 10 then "" else Decimal(n / 10)) + [DIGITS[n % 10]]
  }

  function DigitValue(c: char): nat {
    if '0' <= c <= '9' then (c - '0') as nat else 0
  }

  function Number(s: string): nat {
    if s == "" then 0 else 10 * Number(s[..|s| - 1]) + DigitValue(s[|s| - 1])
  }

  /** A number is printed in digits, without leading zeros, and reads back. */
  lemma {:induction false} NumberOfDecimal(n: nat)
    ensures Number(Decimal(n)) == n
    ensures Decimal(n) != "" && (forall c | c in Decimal(n) :: '0' <= c <= '9')
    ensures n > 0 ==> Decimal(n)[0] != '0'
  {
    var d := n % 10;
    assert DigitValue(DIGITS[d]) == d && '0' <= DIGITS[d] <= '9' && (d > 0 ==> DIGITS[d] != '0');
    if n < 10 {
      assert Decimal(n) == [DIGITS[d]] && Decimal(n)[..0] == "";
    } else {
      NumberOfDecimal(n / 10);
      assert Decimal(n) == Decimal(n / 10) + [DIGITS[d]];
      assert Decimal(n)[..|Decimal(n)| - 1] == Decimal(n / 10);
    }
  }

  function OrEmpty(text: Option<string>): string {
    if text.Some? then text.value else ""
  }

  function Status(error: Option<string>): string {
    if error.Some? then "error" else "success"
  }

  function Truth(b: bool): string {
    if b then "true" else "false"
  }

  function JoinAlgorithms(algorithms: Option<seq<string>>): string {
    if algorithms.Some? then Joined(algorithms.value) else ""
  }

  /** `join(";")` */
  function Joined(names: seq<string>): string {
    if names == [] then "" else if |names| == 1 then names[0] else names[0] + ";" + Joined(names[1..])
  }

  function Kind(r: ScanResult): string {
    if r.Ssh? then "ssh" else "tls"
  }

  /** A `Done` has no row. */
  function RowOf(r: ScanResult): (row: seq<string>)
    ensures !r.Done? ==> |row| == |HEADER|
  {
    match r
    case Ssh(t, addr, error, pqcSupported, pqcAlgos, nonpqcAlgos) =>
      [Kind(r), t.host, Decimal(t.port), OrEmpty(addr), Status(error), Truth(pqcSupported),
       JoinAlgorithms(pqcAlgos), "", JoinAlgorithms(nonpqcAlgos), OrEmpty(error)]
    case Tls(t, addr, error, pqcSupported, pqcAlgos, hybridAlgos, nonpqcAlgos) =>
      [Kind(r), t.host, Decimal(t.port), OrEmpty(addr), Status(error), Truth(pqcSupported),
       JoinAlgorithms(pqcAlgos), JoinAlgorithms(hybridAlgos), JoinAlgorithms(nonpqcAlgos), OrEmpty(error)]
    case Done => []
  }

  lemma StatusTells(error: Option<string>)
    ensures Status(error) == "success" <==> error == None
    ensures Status(error) == "error" <==> error.Some?
  {
    assert "error"[0] != "success"[0];
  }

  lemma TruthTells(b: bool)
    ensures Truth(b) == "true" <==> b
    ensures Truth(b) == "false" <==> !b
  {
    assert "true"[0] != "false"[0];
  }

  lemma KindTells(r: ScanResult)
    requires !r.Done?
    ensures (Kind(r) == "ssh" <==> r.Ssh?) && (Kind(r) == "tls" <==> r.Tls?)
  {
    assert "ssh"[0] != "tls"[0];
  }

  lemma HeaderColumns()
    ensures HEADER == ["scan_type", "host", "port", "address", "status", "pqc_supported", "pqc_algorithms",
                       "hybrid_algorithms", "non_pqc_algorithms", "error"]
  {
  }

  // ----- lists of names in a cell -----

  /** The pieces between semicolons. */
  function SplitNames(cell: string): (names: seq<string>)
    ensures names != []
  {
    if cell == "" then [""]
    else
      var later := SplitNames(cell[1..]);
      if cell[0] == ';' then [""] + later else [[cell[0]] + later[0]] + later[1..]
  }

  lemma {:induction false} SplitAfterName(name: string, tail: string)
    requires ';' !in name
    ensures SplitNames(name + ";" + tail) == [name] + SplitNames(tail)
    ensures SplitNames(name) == [name]
  {
    if name == "" {
      assert ("" + ";" + tail)[1..] == tail;
    } else {
      SplitAfterName(name[1..], tail);
      assert (name + ";" + tail)[1..] == name[1..] + ";" + tail;
      assert ([name[1..]] + SplitNames(tail))[1..] == SplitNames(tail);
      assert [name[0]] + name[1..] == name;
    }
  }

  lemma {:induction false} JoinedIsSplit(names: seq<string>)
    requires names != [] && forall i | 0 <= i < |names| :: ';' !in names[i]
    ensures SplitNames(Joined(names)) == names
  {
    if |names| == 1 {
      SplitAfterName(names[0], "");
      assert names == [names[0]];
    } else {
      JoinedIsSplit(names[1..]);
      SplitAfterName(names[0], Joined(names[1..]));
      assert names == [names[0]] + names[1..];
    }
  }

  predicate ArePlain(names: seq<string>) {
    names != [] && forall i | 0 <= i < |names| :: ';' !in names[i]
  }

  /** The cell tells the list: every list of names without semicolons but the empty one, which looks like none. */
  predicate TellsNames(cell: string, algorithms: Option<seq<string>>) {
    && (algorithms == None || algorithms == Some([]) ==> cell == "")
    && (algorithms.Some? && ArePlain(algorithms.value) ==> SplitNames(cell) == algorithms.value)
  }

  lemma CellTellsNames(algorithms: Option<seq<string>>)
    ensures TellsNames(JoinAlgorithms(algorithms), algorithms)
  {
    if algorithms.Some? && ArePlain(algorithms.value) {
      JoinedIsSplit(algorithms.value);
    }
    hide SplitNames;
  }

  lemma Cells(r: ScanResult)
    requires !r.Done?
    ensures var row := RowOf(r);
            && |row| == 10
            && row[0] == Kind(r) && row[1] == r.targetspec.host && row[2] == Decimal(r.targetspec.port)
            && row[3] == OrEmpty(r.addr) && row[4] == Status(r.error) && row[5] == Truth(r.pqcSupported)
            && row[6] == JoinAlgorithms(r.pqcAlgos)
            && row[7] == (if r.Tls? then JoinAlgorithms(r.hybridAlgos) else "")
            && row[8] == JoinAlgorithms(r.nonpqcAlgos) && row[9] == OrEmpty(r.error)
  {
    hide Kind, Decimal, Status, Truth, JoinAlgorithms, OrEmpty;
  }

  /** Every cell of a row, by its column: what it tells of the result. */
  lemma RowIsReadable(r: ScanResult)
    requires !r.Done?
    ensures var row := RowOf(r);
            && |row| == 10
            && (row[0] == "ssh" <==> r.Ssh?) && (row[0] == "tls" <==> r.Tls?)
            && row[1] == r.targetspec.host && Number(row[2]) == r.targetspec.port
            && row[3] == (if r.addr.Some? then r.addr.value else "")
            && (row[4] == "success" <==> r.error == None) && (row[4] == "error" <==> r.error.Some?)
            && (row[5] == "true" <==> r.pqcSupported) && (row[5] == "false" <==> !r.pqcSupported)
            && TellsNames(row[6], r.pqcAlgos)
            && (if r.Tls? then TellsNames(row[7], r.hybridAlgos) else row[7] == "")
            && TellsNames(row[8], r.nonpqcAlgos)
            && row[9] == (if r.error.Some? then r.error.value else "")
  {
    hide Number, Decimal, Kind, Status, Truth, RowOf, JoinAlgorithms, TellsNames;
    Cells(r);
    KindTells(r);
    NumberOfDecimal(r.targetspec.port);
    StatusTells(r.error);
    TruthTells(r.pqcSupported);
    CellTellsNames(r.pqcAlgos);
    CellTellsNames(r.nonpqcAlgos);
    if r.Tls? {
      CellTellsNames(r.hybridAlgos);
    }
  }

  function Rows(rs: seq<ScanResult>): (rows: seq<seq<string>>)
    ensures |rows| == |rs|
    ensures forall i | 0 <= i < |rs| :: rows[i] == RowOf(rs[i])
  {
    seq(|rs|, i requires 0 <= i < |rs| => RowOf(rs[i]))
  }

  // ----- the report -----

  /** The rows of one host. */
  method WriteHost(w: Writer, rs: seq<ScanResult>, scanType: ScanType)
    requires forall r | r in rs :: IsReport(r, scanType)
    modifies w
    ensures w.text == old(w.text) + EncodeRecords(Rows(rs))
  {
    hide EncodeRecord, EncodeRecords, RowOf;
    NoRows(rs);
    assert rs[..0] == [];
    for i := 0 to |rs|
      invariant w.text == old(w.text) + EncodeRecords(Rows(rs[..i]))
    {
      if IsReport(rs[i], scanType) {
        w.WriteCsvRecord(RowOf(rs[i]));
      }
      assert Rows(rs[..i + 1]) == Rows(rs[..i]) + [RowOf(rs[i])];
      EncodeSnoc(Rows(rs[..i]), RowOf(rs[i]));
    }
    assert rs[..|rs|] == rs;
  }

  /** The rows of one section: its hosts in order, its results of each host in theirs. */
  method WriteSection(w: Writer, hosts: seq<string>, byHost: map<string, seq<ScanResult>>, scanType: ScanType,
                      ghost rs: seq<ScanResult>)
    requires Groups(byHost, rs) && forall h | h in hosts :: h in byHost
    requires forall r | r in rs :: IsReport(r, scanType)
    modifies w
    ensures w.text == old(w.text) + EncodeRecords(Rows(Grouped(hosts, rs)))
  {
    hide *;
    NoRows(rs);
    assert hosts[..0] == [];
    for i := 0 to |hosts|
      invariant w.text == old(w.text) + EncodeRecords(Rows(Grouped(hosts[..i], rs)))
    {
      GroupedStep(hosts, i, rs);
      HostIsGrouped(byHost, rs, hosts[i]);
      if hosts[i] in byHost {
        WriteHost(w, byHost[hosts[i]], scanType);
      }
      RowsAppend(Grouped(hosts[..i], rs), Where(OnHost(hosts[i]), rs));
    }
    assert hosts[..|hosts|] == hosts;
  }

  lemma HostIsGrouped(byHost: map<string, seq<ScanResult>>, rs: seq<ScanResult>, host: string)
    requires Groups(byHost, rs) && host in byHost
    ensures byHost[host] == Where(OnHost(host), rs)
    ensures forall r | r in byHost[host] :: r in rs
  {
    WhereIsFilter(OnHost(host), rs);
  }

  lemma NoRows(rs: seq<ScanResult>)
    ensures EncodeRecords(Rows(Grouped([], rs))) == ""
    ensures EncodeRecords(Rows([])) == ""
  {
  }

  lemma GroupedStep(hosts: seq<string>, i: nat, rs: seq<ScanResult>)
    requires i < |hosts|
    ensures Grouped(hosts[..i + 1], rs) == Grouped(hosts[..i], rs) + Where(OnHost(hosts[i]), rs)
  {
    assert hosts[..i + 1][..i] == hosts[..i];
  }

  lemma RowsAppend(a: seq<ScanResult>, b: seq<ScanResult>)
    ensures EncodeRecords(Rows(a + b)) == EncodeRecords(Rows(a)) + EncodeRecords(Rows(b))
  {
    hide EncodeRecords, RowOf;
    EncodeAppend(Rows(a), Rows(b));
    assert Rows(a + b) == Rows(a) + Rows(b);
  }

  /**
   What a reader finds in the text of a report: the header, then the SSH results and then the TLS results
   of the files, one row each, in the stable order by host.
   */
  ghost predicate IsReportOf(text: string, scans: seq<Scan>) {
    exists ssh, tls ::
      && IsStableSort(ssh, Where(OfType(SshScan), AllResults(scans)))
      && IsStableSort(tls, Where(OfType(TlsScan), AllResults(scans)))
      && ReadCsv(text) == Some([HEADER] + Rows(ssh) + Rows(tls))
  }

  /**
   The whole report: a reader gets the header, one row per SSH result and one row per TLS result, each
   kind in the stable order by host.
   */
  method CsvReport(scans: seq<Scan>, version: string) returns (text: Outcome<string, string>)
    ensures text.Ok? <==> Verdict(scans, version).Ok?
    ensures text.IsFailure() ==> text.PropagateFailure<()>() == Verdict(scans, version)
    ensures text.Ok? ==> IsReportOf(text.value, scans)
  {
    hide Where, EncodeRecord, EncodeRecords, Rows, Grouped, IsStableSort, ReadCsv;
    WhereIsFilter(OfType(SshScan), AllResults(scans));
    WhereIsFilter(OfType(TlsScan), AllResults(scans));
    var report :- CreateReport(scans, version);
    hide AllResults, Verdict;
    var w := new Writer();
    WriteCsvReport(w, report);
    text := Outcome.Ok(w.text);
    var ssh, tls := report.ssh, report.tls;
    GroupedIsStableSort(ssh.sortedHosts, ssh.byHost, ssh.results);
    GroupedIsStableSort(tls.sortedHosts, tls.byHost, tls.results);
    WrittenIsRead(Grouped(ssh.sortedHosts, ssh.results), Grouped(tls.sortedHosts, tls.results));
    assert "" + EncodeRecord(HEADER) == EncodeRecord(HEADER);
  }

  method WriteCsvReport(w: Writer, report: ReportResults)
    requires report.ssh.Valid() && forall r | r in report.ssh.results :: IsReport(r, SshScan)
    requires report.tls.Valid() && forall r | r in report.tls.results :: IsReport(r, TlsScan)
    modifies w
    ensures w.text == old(w.text) + EncodeRecord(HEADER)
                      + EncodeRecords(Rows(Grouped(report.ssh.sortedHosts, report.ssh.results)))
                      + EncodeRecords(Rows(Grouped(report.tls.sortedHosts, report.tls.results)))
  {
    hide EncodeRecord, EncodeRecords, Rows, Grouped, Groups, Ascending, IsReport;
    w.WriteCsvRecord(HEADER);
    WriteSection(w, report.ssh.sortedHosts, report.ssh.byHost, SshScan, report.ssh.results);
    WriteSection(w, report.tls.sortedHosts, report.tls.byHost, TlsScan, report.tls.results);
  }

  lemma WrittenIsRead(ssh: seq<ScanResult>, tls: seq<ScanResult>)
    requires forall r | r in ssh || r in tls :: !r.Done?
    ensures ReadCsv(EncodeRecord(HEADER) + EncodeRecords(Rows(ssh)) + EncodeRecords(Rows(tls)))
              == Some([HEADER] + Rows(ssh) + Rows(tls))
  {
    var records := [HEADER] + Rows(ssh) + Rows(tls);
    assert forall i | 0 <= i < |ssh| :: ssh[i] in ssh;
    assert forall i | 0 <= i < |tls| :: tls[i] in tls;
    assert forall i | 0 <= i < |records| :: records[i] != [];
    hide ReadCsv, RowOf, Rows;
    assert EncodeRecords([HEADER]) == EncodeRecord(HEADER) by {
      assert [HEADER][..0] == [];
    }
    hide EncodeRecord, EncodeRecords;
    EncodeAppend([HEADER], Rows(ssh));
    EncodeAppend([HEADER] + Rows(ssh), Rows(tls));
    CsvRoundTrip(records);
  }
}
