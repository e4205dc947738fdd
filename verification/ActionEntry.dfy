/** The entry userspace writes into the kernel's action maps, keyed by fingerprint. */
module ActionEntry {
  import opened Common

  /** Bit 0 of the flags is "active", bit 1 "failed". */
  const FLAG_ACTIVE := 1

  datatype BpfActionEntry = BpfActionEntry(
    fingerprint: Fingerprint,
    action: nat,
    severity: nat,
    createdTs: nat,
    pinnedFp: Fingerprint,
    flags: nat)
  {
    predicate IsActive() {
      flags % 2 == 1
    }
  }

  type ActionTable = map<Fingerprint, BpfActionEntry>
}
