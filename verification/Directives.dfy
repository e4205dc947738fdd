/** Action directives, as the analyzer issues them and the executor carries them out. */
module Directives {
  import opened Common

  datatype ActionType =
    | Alert
    | Renew
    | Protect(pinnedFingerprint: Fingerprint, hostname: string)
    | Isolate(targetFingerprint: Fingerprint)

  datatype Severity = Low | Medium | High | Critical
  {
    /** The enum's discriminant: its rank, and its encoding in the kernel's maps. */
    function Rank(): nat {
      match this
      case Low => 0
      case Medium => 1
      case High => 2
      case Critical => 3
    }
  }

  /** createdNs is None when the creation time has no 64-bit nanosecond timestamp. */
  datatype ActionDirective = ActionDirective(
    id: string,
    certFingerprint: Fingerprint,
    actionType: ActionType,
    severity: Severity,
    createdNs: Option<int>)
}
