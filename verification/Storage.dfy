/** The tables of the SQLite store, as maps from primary key to row. Storage calls succeed;
    the order in which a query without ORDER BY returns its rows is left open. */
module Storage {
  import opened Common

  // --- Rows -------------------------------------------------------------------------------

  /** The columns of `certificates` that some operation below reads or writes. */
  datatype CertRow = CertRow(
    firstSeen: int,
    lastSeen: int,
    connectionCount: nat,
    sourceIp: Option<string>,
    destinationIp: Option<string>)

  /** Certificate metadata as the collector hands it to the store. */
  datatype CertificateMetadata = CertificateMetadata(fingerprint: Fingerprint, row: CertRow)

  datatype Status = Pending | Active | Executed | Failed | Expired | Replaced | OtherStatus(text: string)

  datatype DirectiveRow = DirectiveRow(
    certFingerprint: Fingerprint,
    actionType: string,
    severity: string,
    status: Status,
    createdAt: int,
    executedAt: Option<int>,
    failureReason: Option<string>)

  datatype RiskLevel = Low | Medium | High | Critical
  {
    function Rank(): nat {
      match this
      case Low => 0
      case Medium => 1
      case High => 2
      case Critical => 3
    }

    /** One tier up, capped at Critical. */
    function Escalate(): RiskLevel {
      match this
      case Low => Medium
      case Medium => High
      case High => Critical
      case Critical => Critical
    }
  }

  datatype ShadowRow = ShadowRow(
    riskLevel: RiskLevel,
    firstClassified: int,
    lastEscalated: Option<int>,
    escalationCount: int,
    sourceIp: Option<string>,
    destinationIp: Option<string>,
    firstSeen: int,
    isResolved: bool,
    resolvedAt: Option<int>)

  datatype InventoryRow = InventoryRow(
    subject: string,
    source: string,
    importedAt: int,
    lastRefreshId: string)

  type CertTable = map<Fingerprint, CertRow>
  type DirectiveTable = map<string, DirectiveRow>
  type ShadowTable = map<Fingerprint, ShadowRow>
  type InventoryTable = map<Fingerprint, InventoryRow>

  // --- Statements -------------------------------------------------------------------------

  /** INSERT ... ON CONFLICT(fingerprint): an existing row keeps everything but its last-seen
      stamp and its count. */
  function Upserted(t: CertTable, cert: CertificateMetadata): CertTable {
    var fp := cert.fingerprint;
    if fp in t then
      t[fp := t[fp].(lastSeen := cert.row.lastSeen, connectionCount := t[fp].connectionCount + 1)]
    else t[fp := cert.row]
  }

  /** UPDATE ... WHERE fingerprint: no row, no effect. */
  function Touched(t: CertTable, fp: Fingerprint, lastSeen: int): CertTable {
    if fp in t then
      t[fp := t[fp].(lastSeen := lastSeen, connectionCount := t[fp].connectionCount + 1)]
    else t
  }

  /** UPDATE action_directives SET status, executed_at, failure_reason WHERE id. */
  function StatusUpdated(t: DirectiveTable, id: string, status: Status, now: int, reason: Option<string>)
    : DirectiveTable
  {
    if id in t then t[id := t[id].(status := status, executedAt := Some(now), failureReason := reason)]
    else t
  }

  /** Shadow upsert: on conflict the classification time, the addresses and first_seen stay. */
  function ShadowUpserted(t: ShadowTable, fp: Fingerprint, row: ShadowRow): ShadowTable {
    if fp in t then
      t[fp := t[fp].(riskLevel := row.riskLevel, lastEscalated := row.lastEscalated,
                     escalationCount := row.escalationCount, isResolved := row.isResolved,
                     resolvedAt := row.resolvedAt)]
    else t[fp := row]
  }

  // --- Queries ----------------------------------------------------------------------------

  /** keys lists the given set, each member once, in some order. */
  ghost predicate Lists<K(!new)>(keys: seq<K>, s: set<K>) {
    NoDup(keys) && SetOf(keys) == s
  }

  /** A possible answer to ORDER BY last_seen DESC LIMIT limit: ties may come in any order. */
  ghost predicate IsRecentListing(t: CertTable, limit: nat, l: seq<Fingerprint>) {
    && NoDup(l)
    && |l| == Min(limit, |t|)
    && (forall x :: x in l ==> x in t)
    && (forall i, j :: 0 <= i < j < |l| ==> t[l[i]].lastSeen >= t[l[j]].lastSeen)
    && (forall x, y :: x in l && y in t && y !in l ==> t[x].lastSeen >= t[y].lastSeen)
  }

  function Unresolved(t: ShadowTable): set<Fingerprint> {
    set fp | fp in t && !t[fp].isResolved
  }

  function WithStatus(t: DirectiveTable, status: Status): set<string> {
    set id | id in t && t[id].status == status
  }

  function PendingAmong(t: DirectiveTable, fps: set<Fingerprint>): set<string> {
    set id | id in t && t[id].certFingerprint in fps && t[id].status == Pending
  }

  function PendingFor(t: DirectiveTable, fp: Fingerprint): set<string> {
    PendingAmong(t, {fp})
  }

  lemma {:induction false} LatestExists(t: CertTable, s: set<Fingerprint>) returns (fp: Fingerprint)
    requires s != {} && s <= t.Keys
    ensures fp in s && forall x :: x in s ==> t[x].lastSeen <= t[fp].lastSeen
    decreases |s|
  {
    fp :| fp in s;
    if s != {fp} {
      assert s == {fp} + (s - {fp});
      var other := LatestExists(t, s - {fp});
      if t[other].lastSeen > t[fp].lastSeen {
        fp := other;
      }
    } else {
      assert forall x :: x in s ==> x == fp;
    }
  }

  /** l holds the rows outside rest, latest first, none earlier than any in rest. */
  ghost predicate LatestSoFar(t: CertTable, l: seq<Fingerprint>, rest: set<Fingerprint>) {
    && NoDup(l)
    && (forall x :: x in l ==> x in t && x !in rest)
    && (forall x :: x in t && x !in rest ==> x in l)
    && (forall i, j :: 0 <= i < j < |l| ==> t[l[i]].lastSeen >= t[l[j]].lastSeen)
    && (forall x, y :: x in l && y in t && y in rest ==> t[x].lastSeen >= t[y].lastSeen)
  }

  lemma AppendLatest(t: CertTable, l: seq<Fingerprint>, rest: set<Fingerprint>, fp: Fingerprint)
    requires LatestSoFar(t, l, rest) && fp in rest && rest <= t.Keys
    requires forall x :: x in rest ==> t[x].lastSeen <= t[fp].lastSeen
    ensures LatestSoFar(t, l + [fp], rest - {fp})
  {
  }

  method ListSet<K(==,!new)>(s: set<K>) returns (keys: seq<K>)
    ensures Lists(keys, s)
  {
    keys := [];
    var rest := s;
    while rest != {}
      invariant rest <= s
      invariant Lists(keys, s - rest)
    {
      var k :| k in rest;
      assert SetOf(keys + [k]) == SetOf(keys) + {k};
      assert k !in SetOf(keys);
      keys, rest := keys + [k], rest - {k};
    }
  }

  // --- The store as an object -------------------------------------------------------------

  class Storage {
    var certificates: CertTable
    var directives: DirectiveTable
    var shadows: ShadowTable
    var inventory: InventoryTable

    method UpsertCertificate(cert: CertificateMetadata)
      modifies this`certificates
      ensures certificates == Upserted(old(certificates), cert)
    {
      var fp := cert.fingerprint;
      if fp in certificates {
        var row := certificates[fp];
        certificates := certificates[fp := row.(lastSeen := cert.row.lastSeen,
                                                connectionCount := row.connectionCount + 1)];
      } else {
        certificates := certificates[fp := cert.row];
      }
    }

    method TouchCertificate(fp: Fingerprint, lastSeen: int)
      modifies this`certificates
      ensures certificates == Touched(old(certificates), fp, lastSeen)
    {
      if fp in certificates {
        var row := certificates[fp];
        certificates := certificates[fp := row.(lastSeen := lastSeen, connectionCount := row.connectionCount + 1)];
      }
    }

    method ListRecentFingerprints(limit: nat) returns (l: seq<Fingerprint>)
      ensures IsRecentListing(certificates, limit, l)
    {
      l := [];
      var rest := certificates.Keys;
      while |l| < limit && rest != {}
        invariant rest <= certificates.Keys && |l| <= limit
        invariant |l| + |rest| == |certificates|
        invariant LatestSoFar(certificates, l, rest)
        decreases rest
      {
        ghost var latest := LatestExists(certificates, rest);
        var fp :| fp in rest && forall x :: x in rest ==> certificates[x].lastSeen <= certificates[fp].lastSeen;
        AppendLatest(certificates, l, rest, fp);
        l, rest := l + [fp], rest - {fp};
      }
    }

    method UpdateDirectiveStatus(id: string, status: Status, now: int, reason: Option<string>)
      modifies this`directives
      ensures directives == StatusUpdated(old(directives), id, status, now, reason)
    {
      if id in directives {
        directives := directives[id := directives[id].(status := status, executedAt := Some(now),
                                                       failureReason := reason)];
      }
    }

    method InsertDirective(id: string, row: DirectiveRow)
      requires id !in directives
      modifies this`directives
      ensures directives == old(directives)[id := row]
    {
      directives := directives[id := row];
    }

    method ListDirectivesByStatus(status: Status) returns (ids: seq<string>)
      ensures Lists(ids, WithStatus(directives, status))
    {
      ids := ListSet(WithStatus(directives, status));
    }

    method ListPendingDirectivesByFingerprint(fp: Fingerprint) returns (ids: seq<string>)
      ensures Lists(ids, PendingFor(directives, fp))
    {
      ids := ListSet(PendingFor(directives, fp));
    }

    method UpsertShadowCertificate(fp: Fingerprint, row: ShadowRow)
      modifies this`shadows
      ensures shadows == ShadowUpserted(old(shadows), fp, row)
    {
      if fp in shadows {
        var was := shadows[fp];
        shadows := shadows[fp := was.(riskLevel := row.riskLevel, lastEscalated := row.lastEscalated,
                                      escalationCount := row.escalationCount,
                                      isResolved := row.isResolved, resolvedAt := row.resolvedAt)];
      } else {
        shadows := shadows[fp := row];
      }
    }

    method ListUnresolvedShadowCertificates() returns (fps: seq<Fingerprint>)
      ensures Lists(fps, Unresolved(shadows))
    {
      fps := ListSet(Unresolved(shadows));
    }
  }

  // --- Settling what is pending -----------------------------------------------------------

  /** Every pending directive for one of the given certificates gets a new status. */
  function Settled(t: DirectiveTable, fps: set<Fingerprint>, status: Status, now: int, reason: Option<string>)
    : DirectiveTable
  {
    map id | id in t :: SettledRow(t[id], fps, status, now, reason)
  }

  function SettledRow(row: DirectiveRow, fps: set<Fingerprint>, status: Status, now: int, reason: Option<string>)
    : DirectiveRow
  {
    if row.certFingerprint in fps && row.status == Pending
    then row.(status := status, executedAt := Some(now), failureReason := reason)
    else row
  }

  /** t' is t with only the listed directives settled. */
  ghost predicate SettledSoFar(t: DirectiveTable, t': DirectiveTable, done: seq<string>, fp: Fingerprint,
                               status: Status,
                               now: int, reason: Option<string>)
  {
    && t'.Keys == t.Keys
    && forall id :: id in t ==> t'[id] == if id in done then SettledRow(t[id], {fp}, status, now, reason) else t[id]
  }

  lemma SettleOne(t: DirectiveTable, t': DirectiveTable, done: seq<string>, id: string, fp: Fingerprint, status: Status,
                  now: int, reason: Option<string>)
    requires SettledSoFar(t, t', done, fp, status, now, reason) && id in PendingFor(t, fp) && id !in done
    ensures SettledSoFar(t, StatusUpdated(t', id, status, now, reason), done + [id], fp, status, now, reason)
  {
  }

  lemma AllSettled(t: DirectiveTable, t': DirectiveTable, done: seq<string>, fp: Fingerprint, status: Status, now: int,
                   reason: Option<string>)
    requires SettledSoFar(t, t', done, fp, status, now, reason) && Lists(done, PendingFor(t, fp))
    ensures t' == Settled(t, {fp}, status, now, reason) && |done| == |PendingFor(t, fp)|
  {
    NoDupCardinality(done);
    forall id | id in t ensures t'[id] == SettledRow(t[id], {fp}, status, now, reason) {
      assert id in PendingFor(t, fp) <==> id in SetOf(done);
    }
  }

  /** List a certificate's pending directives and update them one by one. */
  method SettlePendingDirectives(store: Storage, fp: Fingerprint, status: Status, now: int, reason: Option<string>)
    returns (n: nat)
    modifies store`directives
    ensures store.directives == Settled(old(store.directives), {fp}, status, now, reason)
    ensures n == |PendingFor(old(store.directives), fp)|
  {
    var ids := store.ListPendingDirectivesByFingerprint(fp);
    var i := 0;
    while i < |ids|
      invariant 0 <= i <= |ids|
      invariant SettledSoFar(old(store.directives), store.directives, ids[..i], fp, status, now, reason)
    {
      assert ids[..i + 1] == ids[..i] + [ids[i]];
      assert ids[i] in SetOf(ids);
      SettleOne(old(store.directives), store.directives, ids[..i], ids[i], fp, status, now, reason);
      store.UpdateDirectiveStatus(ids[i], status, now, reason);
      i := i + 1;
    }
    assert ids[..i] == ids;
    AllSettled(old(store.directives), store.directives, ids, fp, status, now, reason);
    return |ids|;
  }
}
