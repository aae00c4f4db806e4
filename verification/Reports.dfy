/** The parts of a host report, and of its findings, that the fleet run decides on. */
module Reports {
  import opened Wrappers

  datatype Category = Security | Reliability | Hygiene

  newtype u8 = x: int | 0 <= x < 256

  /** `suppressed` carries the reason a finding does not count. */
  datatype Finding = Finding(id: string, category: Category, weight: u8, suppressed: Option<string>)

  /** `findings` is what evaluating the report yields, before any acceptance policy. */
  datatype Report = Report(
    hostname: string,
    findings: seq<Finding>,
    failedScanners: seq<string>,
    isRoot: bool,
    scanWarnings: seq<string>,
    inputAddress: Option<string>)
}
