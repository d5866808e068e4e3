/** What a scan is asked for and what it reports (pqcscan/src/scan.rs, pqcscan/src/utils.rs). */
module ScanTypes {
  import opened Common

  datatype Target = Target(host: string, port: u16)

  datatype ScanType = SshScan | TlsScan

  datatype ScanResult =
    | Ssh(targetspec: Target, addr: Option<string>, error: Option<string>, pqcSupported: bool,
          pqcAlgos: Option<seq<string>>, nonpqcAlgos: Option<seq<string>>)
    | Tls(targetspec: Target, addr: Option<string>, error: Option<string>, pqcSupported: bool,
          pqcAlgos: Option<seq<string>>, hybridAlgos: Option<seq<string>>, nonpqcAlgos: Option<seq<string>>)
    | Done

  /** A report in the variant of the scan type; `Done` is not one. */
  predicate IsReport(r: ScanResult, scanType: ScanType) {
    match scanType
    case SshScan => r.Ssh?
    case TlsScan => r.Tls?
  }

  /** A scan of one target reports on that target. */
  predicate ReportsOn(r: ScanResult, t: Target, scanType: ScanType) {
    IsReport(r, scanType) && r.targetspec == t
  }
}
