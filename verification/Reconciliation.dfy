/** Reconciling shadows with a refreshed inventory: shadows that turned out to be known are
    resolved and their pending directives expired; certificates dropped from the inventory but
    still seen become shadows. */
module Reconciliation {
  import opened Common
  import opened Storage

  const DAY_MS: nat := 86_400_000

  const RESOLVED_REASON := Some("Certificate appeared in inventory; shadow resolved")

  // --- Specification ----------------------------------------------------------------------

  /** The shadows to resolve. */
  function Known(t: ShadowTable, inventory: InventoryTable): set<Fingerprint> {
    set fp | fp in t && !t[fp].isResolved && fp in inventory
  }

  function ResolvedRow(row: ShadowRow, now: int): ShadowRow {
    row.(isResolved := true, resolvedAt := Some(now))
  }

  function Resolved(t: ShadowTable, fps: set<Fingerprint>, now: int): ShadowTable {
    map fp | fp in t :: if fp in fps then ResolvedRow(t[fp], now) else t[fp]
  }

  predicate StillSeen(certs: CertTable, fp: Fingerprint, now: int) {
    fp in certs && certs[fp].lastSeen >= now - DAY_MS
  }

  /** The certificates to turn into shadows. */
  function Reappearing(t: ShadowTable, certs: CertTable, removed: seq<Fingerprint>, now: int): set<Fingerprint> {
    set fp | fp in removed && StillSeen(certs, fp, now) && fp !in t
  }

  function NewShadow(cert: CertRow, now: int): ShadowRow {
    ShadowRow(Low, now, None, 0, cert.sourceIp, cert.destinationIp, cert.firstSeen, false, None)
  }

  function WithNewShadows(t: ShadowTable, certs: CertTable, fps: set<Fingerprint>, now: int): ShadowTable
    requires fps <= certs.Keys
  {
    map fp | fp in t.Keys + fps :: if fp in t then t[fp] else NewShadow(certs[fp], now)
  }

  datatype ReconciliationResult = ReconciliationResult(
    shadowsResolved: nat,
    directivesCancelled: nat,
    newShadowsFromRemoval: nat)

  /** The shadows after a pass. */
  function ReconciledShadows(t: ShadowTable, inventory: InventoryTable, certs: CertTable, removed: seq<Fingerprint>,
                             now: int): ShadowTable
  {
    WithNewShadows(Resolved(t, Known(t, inventory), now), certs, Reappearing(t, certs, removed, now), now)
  }

  /** The directives after a pass. */
  function ReconciledDirectives(d: DirectiveTable, t: ShadowTable, inventory: InventoryTable,
                                now: int): DirectiveTable
  {
    Settled(d, Known(t, inventory), Expired, now, RESOLVED_REASON)
  }

  /** The counters a pass returns. */
  function Counters(d: DirectiveTable, t: ShadowTable, inventory: InventoryTable, certs: CertTable,
                    removed: seq<Fingerprint>, now: int): ReconciliationResult
  {
    ReconciliationResult(
      |Known(t, inventory)|, |PendingAmong(d, Known(t, inventory))|, |Reappearing(t, certs, removed, now)|)
  }

  // --- Properties of a pass ---------------------------------------------------------------

  /** Something both listed as removed and in the inventory is about to become a shadow. */
  predicate RemovedYetListed(t: ShadowTable, inventory: InventoryTable, certs: CertTable, removed: seq<Fingerprint>,
                             now: int)
  {
    exists fp ::
      fp in removed && fp in inventory && fp !in t && fp in certs && certs[fp].lastSeen >= now - 24 * 3_600_000
  }

  /** Main result: after a pass no unresolved shadow is in the inventory, exactly if nothing
      removed is listed after all; in particular whenever the two are disjoint. */
  lemma NoKnownShadowLeftIff(t: ShadowTable, inventory: InventoryTable, certs: CertTable, removed: seq<Fingerprint>,
                             now: int)
    ensures var t' := ReconciledShadows(t, inventory, certs, removed, now);
            (forall fp :: fp in t' && !t'[fp].isResolved ==> fp !in inventory) <==>
            !RemovedYetListed(t, inventory, certs, removed, now)
    ensures Known(ReconciledShadows(t, inventory, certs, removed, now), inventory) == {} <==>
            !RemovedYetListed(t, inventory, certs, removed, now)
    ensures (forall fp :: fp in removed ==> fp !in inventory) ==> !RemovedYetListed(t, inventory, certs, removed, now)
  {
    var t' := ReconciledShadows(t, inventory, certs, removed, now);
    if RemovedYetListed(t, inventory, certs, removed, now) {
      var fp :|
        fp in removed && fp in inventory && fp !in t && fp in certs && certs[fp].lastSeen >= now - 24 * 3_600_000;
      assert fp in Known(t', inventory);
    }
    if fp :| fp in t' && !t'[fp].isResolved && fp in inventory {
      assert fp !in t;
      assert fp in Reappearing(t, certs, removed, now);
    }
    if fp :| fp in Known(t', inventory) {
      assert fp in t' && !t'[fp].isResolved && fp in inventory;
    }
  }

  /** A second pass at the same time changes nothing, neither shadows nor directives, and counts
      nothing, exactly in that same case; otherwise it resolves what the first pass created. */
  lemma SecondPassIsIdleIff(d: DirectiveTable, t: ShadowTable, inventory: InventoryTable, certs: CertTable,
                            removed: seq<Fingerprint>, now: int)
    ensures var t' := ReconciledShadows(t, inventory, certs, removed, now);
            var d' := ReconciledDirectives(d, t, inventory, now);
            && (ReconciledShadows(t', inventory, certs, removed, now) == t'
                && ReconciledDirectives(d', t', inventory, now) == d' <==>
                !RemovedYetListed(t, inventory, certs, removed, now))
            && (Counters(d', t', inventory, certs, removed, now) == ReconciliationResult(0, 0, 0) <==>
                !RemovedYetListed(t, inventory, certs, removed, now))
  {
    var t' := ReconciledShadows(t, inventory, certs, removed, now);
    var d' := ReconciledDirectives(d, t, inventory, now);
    NoKnownShadowLeftIff(t, inventory, certs, removed, now);
    assert Reappearing(t', certs, removed, now) == {};
    if Known(t', inventory) != {} {
      var fp :| fp in Known(t', inventory);
      assert ReconciledShadows(t', inventory, certs, removed, now)[fp].isResolved;
      assert !t'[fp].isResolved;
    } else {
      NothingToSettle(d', now);
    }
  }

  lemma NothingToSettle(d: DirectiveTable, now: int)
    ensures Settled(d, {}, Expired, now, RESOLVED_REASON) == d && PendingAmong(d, {}) == {}
  {
  }

  /** What a pass does to every row, in full. An unresolved shadow in the inventory is resolved, and what
      is pending for it expires with the reason given. A certificate dropped from the inventory, seen
      within 24 hours and without a shadow row gets one, Low and with the certificate's own data.
      Nothing else changes, goes or comes. */
  lemma PassInFull(d: DirectiveTable, t: ShadowTable, inventory: InventoryTable, certs: CertTable,
                   removed: seq<Fingerprint>, now: int, id: string, fp: Fingerprint)
    ensures var d' := ReconciledDirectives(d, t, inventory, now);
            && (id in d' <==> id in d)
            && (id in d ==>
                  var cert := d[id].certFingerprint;
                  d'[id] ==
                  if d[id].status == Pending && cert in t && !t[cert].isResolved && cert in inventory
                  then d[id].(status := Expired, executedAt := Some(now),
                              failureReason := Some("Certificate appeared in inventory; shadow resolved"))
                  else d[id])
    ensures var t' := ReconciledShadows(t, inventory, certs, removed, now);
            if fp in t then
              fp in t' && t'[fp] == if !t[fp].isResolved && fp in inventory
                                    then t[fp].(isResolved := true, resolvedAt := Some(now)) else t[fp]
            else
              && (fp in t' <==> fp in removed && fp in certs && certs[fp].lastSeen >= now - 24 * 3_600_000)
              && (fp in t' ==> t'[fp] == ShadowRow(Low, now, None, 0, certs[fp].sourceIp, certs[fp].destinationIp,
                                                   certs[fp].firstSeen, false, None))
  {
  }

  /** The counters, in the same terms: each is the size of the set it stands for. */
  lemma CountersInFull(d: DirectiveTable, t: ShadowTable, inventory: InventoryTable, certs: CertTable,
                       removed: seq<Fingerprint>, now: int, resolved: set<Fingerprint>, cancelled: set<string>,
                       created: set<Fingerprint>)
    requires forall fp :: fp in resolved <==> fp in t && !t[fp].isResolved && fp in inventory
    requires forall id :: id in cancelled <==> id in d && d[id].status == Pending && d[id].certFingerprint in resolved
    requires forall fp :: fp in created <==>
               fp in removed && fp in certs && certs[fp].lastSeen >= now - 24 * 3_600_000 && fp !in t
    ensures Counters(d, t, inventory, certs, removed, now) ==
            ReconciliationResult(|resolved|, |cancelled|, |created|)
  {
    assert Known(t, inventory) == resolved;
    assert PendingAmong(d, resolved) == cancelled;
    assert Reappearing(t, certs, removed, now) == created;
  }

  // --- The pass ---------------------------------------------------------------------------

  function KnownAmong(t: ShadowTable, inventory: InventoryTable, done: seq<Fingerprint>): set<Fingerprint> {
    set fp | fp in done && fp in Known(t, inventory)
  }

  lemma SettledTwice(d: DirectiveTable, a: set<Fingerprint>, fp: Fingerprint, status: Status, now: int,
                     reason: Option<string>)
    requires status != Pending
    ensures Settled(Settled(d, a, status, now, reason), {fp}, status, now, reason) ==
            Settled(d, a + {fp}, status, now, reason)
  {
  }

  lemma SettledElsewhere(d: DirectiveTable, a: set<Fingerprint>, fp: Fingerprint, status: Status, now: int,
                         reason: Option<string>)
    requires fp !in a
    ensures PendingAmong(Settled(d, a, status, now, reason), {fp}) == PendingAmong(d, {fp})
  {
  }

  lemma PendingSplits(d: DirectiveTable, a: set<Fingerprint>, fp: Fingerprint)
    requires fp !in a
    ensures |PendingAmong(d, a + {fp})| == |PendingAmong(d, a)| + |PendingAmong(d, {fp})|
  {
    var x, y := PendingAmong(d, a), PendingAmong(d, {fp});
    forall id | id in x ensures id !in y {
    }
    assert PendingAmong(d, a + {fp}) == x + y;
  }

  /** What the first phase has done once the shadows in known are resolved. */
  ghost predicate ResolvedSoFar(d: DirectiveTable, t: ShadowTable, d': DirectiveTable, t': ShadowTable,
                                known: set<Fingerprint>, now: int, resolved: nat, cancelled: nat)
  {
    && t' == Resolved(t, known, now)
    && d' == Settled(d, known, Expired, now, RESOLVED_REASON)
    && resolved == |known|
    && cancelled == |PendingAmong(d, known)|
  }

  lemma ResolveOne(d: DirectiveTable, t: ShadowTable, d': DirectiveTable, t': ShadowTable, known: set<Fingerprint>,
                   fp: Fingerprint, now: int, resolved: nat, cancelled: nat)
    requires ResolvedSoFar(d, t, d', t', known, now, resolved, cancelled) && fp !in known && fp in t
    ensures ResolvedSoFar(d, t, Settled(d', {fp}, Expired, now, RESOLVED_REASON), t'[fp := ResolvedRow(t[fp], now)],
                          known + {fp}, now, resolved + 1, cancelled + |PendingAmong(d', {fp})|)
  {
    SettledTwice(d, known, fp, Expired, now, RESOLVED_REASON);
    SettledElsewhere(d, known, fp, Expired, now, RESOLVED_REASON);
    PendingSplits(d, known, fp);
  }

  /** Phase 1: shadows that are in the inventory now. */
  method ResolveKnownShadows(store: Storage, now: int) returns (resolved: nat, cancelled: nat)
    modifies store`shadows, store`directives
    ensures ResolvedSoFar(old(store.directives), old(store.shadows), store.directives, store.shadows,
                          Known(old(store.shadows), store.inventory), now, resolved, cancelled)
  {
    var unresolved := store.ListUnresolvedShadowCertificates();
    var t := store.shadows;
    ghost var d, inventory := store.directives, store.inventory;
    resolved, cancelled := 0, 0;
    assert PendingAmong(d, {}) == {};
    var i := 0;
    while i < |unresolved|
      invariant 0 <= i <= |unresolved|
      invariant ResolvedSoFar(d, t, store.directives, store.shadows, KnownAmong(t, inventory, unresolved[..i]), now,
                              resolved, cancelled)
    {
      var fp := unresolved[i];
      assert fp in SetOf(unresolved);
      assert unresolved[..i + 1] == unresolved[..i] + [fp];
      if fp in store.inventory {
        assert KnownAmong(t, inventory, unresolved[..i + 1]) == KnownAmong(t, inventory, unresolved[..i]) + {fp};
        ResolveOne(d, t, store.directives, store.shadows, KnownAmong(t, inventory, unresolved[..i]), fp, now,
            resolved, cancelled);
        store.UpsertShadowCertificate(fp, t[fp].(isResolved := true, resolvedAt := Some(now)));
        var n := SettlePendingDirectives(store, fp, Expired, now, RESOLVED_REASON);
        resolved, cancelled := resolved + 1, cancelled + n;
      } else {
        assert KnownAmong(t, inventory, unresolved[..i + 1]) == KnownAmong(t, inventory, unresolved[..i]);
      }
      i := i + 1;
    }
    assert unresolved[..i] == unresolved;
    assert forall fp :: fp in Known(t, inventory) ==> fp in SetOf(unresolved);
    assert KnownAmong(t, inventory, unresolved) == Known(t, inventory);
  }

  /** What the second phase has done once the certificates in found have shadow rows. */
  ghost predicate ClassifiedSoFar(t: ShadowTable, certs: CertTable, t': ShadowTable, found: set<Fingerprint>, now: int,
                                  created: nat)
  {
    found <= certs.Keys && t' == WithNewShadows(t, certs, found, now) && created == |found|
  }

  lemma InWithNewShadows(t: ShadowTable, certs: CertTable, found: set<Fingerprint>, fp: Fingerprint, now: int)
    requires found <= certs.Keys
    ensures fp in WithNewShadows(t, certs, found, now) <==> fp in t || fp in found
  {
  }

  lemma WithOneMoreShadow(t: ShadowTable, certs: CertTable, found: set<Fingerprint>, fp: Fingerprint, now: int)
    requires found <= certs.Keys && fp in certs && fp !in WithNewShadows(t, certs, found, now)
    ensures WithNewShadows(t, certs, found, now)[fp := NewShadow(certs[fp], now)] ==
            WithNewShadows(t, certs, found + {fp}, now)
  {
  }

  lemma ClassifyOne(t: ShadowTable, certs: CertTable, t': ShadowTable, found: set<Fingerprint>, fp: Fingerprint,
                    now: int,
                    created: nat)
    requires ClassifiedSoFar(t, certs, t', found, now, created) && fp in certs && fp !in t'
    ensures ClassifiedSoFar(t, certs, t'[fp := NewShadow(certs[fp], now)], found + {fp}, now, created + 1)
  {
    hide NewShadow, WithNewShadows;
    WithOneMoreShadow(t, certs, found, fp, now);
    assert fp !in found by { InWithNewShadows(t, certs, found, fp, now); }
  }

  lemma ReappearingOneMore(t: ShadowTable, certs: CertTable, done: seq<Fingerprint>, fp: Fingerprint, now: int)
    ensures Reappearing(t, certs, done + [fp], now) ==
            Reappearing(t, certs, done, now) + if StillSeen(certs, fp, now) && fp !in t then {fp} else {}
  {
  }

  /** Phase 2: removed certificates that are still in traffic. */
  method ClassifyRemoved(store: Storage, removed: seq<Fingerprint>, now: int) returns (created: nat)
    modifies store`shadows
    ensures ClassifiedSoFar(old(store.shadows), store.certificates, store.shadows,
                            Reappearing(old(store.shadows), store.certificates, removed, now), now, created)
  {
    ghost var t, certs := store.shadows, store.certificates;
    created := 0;
    var i := 0;
    while i < |removed|
      invariant 0 <= i <= |removed|
      invariant ClassifiedSoFar(t, certs, store.shadows, Reappearing(t, certs, removed[..i], now), now, created)
    {
      var fp := removed[i];
      assert removed[..i + 1] == removed[..i] + [fp];
      ReappearingOneMore(t, certs, removed[..i], fp, now);
      ghost var found := Reappearing(t, certs, removed[..i], now);
      if fp in store.certificates && store.certificates[fp].lastSeen >= now - DAY_MS && fp !in store.shadows {
        ClassifyOne(t, certs, store.shadows, found, fp, now, created);
        var cert := store.certificates[fp];
        var row := ShadowRow(Low, now, None, 0, cert.sourceIp, cert.destinationIp, cert.firstSeen, false, None);
        store.UpsertShadowCertificate(fp, row);
        created := created + 1;
      } else {
        assert found + (if StillSeen(certs, fp, now) && fp !in t then {fp} else {}) == found;
      }
      i := i + 1;
    }
    assert removed[..i] == removed;
  }

  /** Both phases. The counters are exact, however often a fingerprint is listed as removed. */
  method ReconcileInventory(store: Storage, removed: seq<Fingerprint>, now: int) returns (r: ReconciliationResult)
    modifies store`shadows, store`directives
    ensures store.shadows == ReconciledShadows(old(store.shadows), store.inventory, store.certificates, removed, now)
    ensures store.directives == ReconciledDirectives(old(store.directives), old(store.shadows), store.inventory, now)
    ensures r == Counters(old(store.directives), old(store.shadows), store.inventory, store.certificates, removed, now)
  {
    ghost var t := store.shadows;
    var resolved, cancelled := ResolveKnownShadows(store, now);
    assert Reappearing(store.shadows, store.certificates, removed, now) ==
        Reappearing(t, store.certificates, removed, now);
    var created := ClassifyRemoved(store, removed, now);
    return ReconciliationResult(resolved, cancelled, created);
  }
}
