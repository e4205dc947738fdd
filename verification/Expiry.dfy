/** The expiry sweep: directives for certificates that traffic has not shown for too long are
    taken out of the kernel map and marked expired. */
module Expiry {
  import opened Common
  import opened Storage
  import opened ActionEntry
  import MapWriter

  // --- Specification ----------------------------------------------------------------------

  /** The certificate is unknown, or was last seen before the cutoff. */
  predicate Stale(certs: CertTable, fp: Fingerprint, cutoff: int) {
    fp !in certs || certs[fp].lastSeen < cutoff
  }

  predicate Live(row: DirectiveRow) {
    row.status == Active || row.status == Pending
  }

  predicate Doomed(row: DirectiveRow, certs: CertTable, cutoff: int) {
    Live(row) && Stale(certs, row.certFingerprint, cutoff)
  }

  function ExpiredRow(row: DirectiveRow, now: int): DirectiveRow {
    row.(status := Expired, executedAt := Some(now), failureReason := None)
  }

  function Swept(d: DirectiveTable, certs: CertTable, cutoff: int, now: int): DirectiveTable {
    map id | id in d :: if Doomed(d[id], certs, cutoff) then ExpiredRow(d[id], now) else d[id]
  }

  function DoomedIds(d: DirectiveTable, certs: CertTable, cutoff: int): set<string> {
    set id | id in d && Doomed(d[id], certs, cutoff)
  }

  // --- Properties -------------------------------------------------------------------------

  /** What a sweep does to every directive, in full: an active or pending one expires exactly if its
      certificate is unknown or was last seen before the cutoff; nothing else changes. */
  lemma SweepInFull(d: DirectiveTable, certs: CertTable, cutoff: int, now: int, id: string)
    ensures var d', expires := Swept(d, certs, cutoff, now),
              id in d && (d[id].status == Active || d[id].status == Pending)
              && (d[id].certFingerprint !in certs || certs[d[id].certFingerprint].lastSeen < cutoff);
            && (id in d' <==> id in d)
            && (id in DoomedIds(d, certs, cutoff) <==> expires)
            && (id in d ==>
                  d'[id] == if expires then d[id].(status := Expired, executedAt := Some(now), failureReason := None)
                            else d[id])
  {
  }

  /** Main result: whatever is still live after a sweep is for a certificate seen since the
      cutoff; all else is as it was; and sweeping again changes nothing. */
  lemma SweepLeavesOnlyFresh(d: DirectiveTable, certs: CertTable, cutoff: int, now: int)
    ensures var d' := Swept(d, certs, cutoff, now);
            && d'.Keys == d.Keys
            && (forall id :: id in d' && Live(d'[id]) ==> !Stale(certs, d'[id].certFingerprint, cutoff))
            && (forall id :: id in d ==> (d'[id] == d[id] <==> !Doomed(d[id], certs, cutoff)))
            && Swept(d', certs, cutoff, now) == d'
            && DoomedIds(d', certs, cutoff) == {}
  {
  }

  /** A later sweep with a later cutoff subsumes an earlier one, stamps aside: it expires exactly
      what the earlier one left that has gone stale since. */
  lemma SweepsCompose(d: DirectiveTable, certs: CertTable, c1: int, t1: int, c2: int, t2: int)
    requires c1 <= c2
    ensures var d' := Swept(Swept(d, certs, c1, t1), certs, c2, t2);
            && DoomedIds(d, certs, c2) == DoomedIds(d, certs, c1) + DoomedIds(Swept(d, certs, c1, t1), certs, c2)
            && forall id :: id in d ==> d'[id].status == Swept(d, certs, c2, t2)[id].status
  {
  }

  /** What a sweep may do to the kernel map, given which removals fail: it loses entries of stale
      certificates with a doomed directive, all of them if no removal fails, and nothing else. */
  ghost predicate MapSwept(d: DirectiveTable, certs: CertTable, cutoff: int, before: ActionTable, after: ActionTable,
                           allSucceed: bool)
  {
    && (forall fp :: fp in after ==> fp in before && after[fp] == before[fp])
    && (forall fp :: fp in before && fp !in after ==>
          exists id :: id in DoomedIds(d, certs, cutoff) && d[id].certFingerprint == fp)
    && (allSucceed ==> forall id :: id in DoomedIds(d, certs, cutoff) ==> d[id].certFingerprint !in after)
  }

  /** No certificate that lost its map entry keeps a live directive. */
  lemma RemovedHasNoLiveDirective(d: DirectiveTable, certs: CertTable, cutoff: int, now: int, before: ActionTable,
                                  after: ActionTable, allSucceed: bool, fp: Fingerprint, id: string)
    requires MapSwept(d, certs, cutoff, before, after, allSucceed)
    requires fp in before && fp !in after && id in d && d[id].certFingerprint == fp
    ensures !Live(Swept(d, certs, cutoff, now)[id])
  {
  }

  // --- The sweep --------------------------------------------------------------------------

  datatype ExpiryResult = ExpiryResult(expiredCount: nat, expiredIds: seq<string>)

  /** The first i of the candidates have been dealt with. */
  ghost predicate SweptSoFar(d: DirectiveTable, certs: CertTable, cutoff: int, now: int, done: seq<string>,
                             d': DirectiveTable, expired: seq<string>)
  {
    && d'.Keys == d.Keys
    && (forall id :: id in d ==> d'[id] == if id in done && Stale(certs, d[id].certFingerprint, cutoff)
                                           then ExpiredRow(d[id], now) else d[id])
    && NoDup(expired)
    && (forall id :: id in expired <==> id in done && id in d && Stale(certs, d[id].certFingerprint, cutoff))
  }

  /** The map after removing the entries of the expired directives, as far as that worked. */
  ghost predicate RemovedSoFar(d: DirectiveTable, before: ActionTable, after: ActionTable, expired: seq<string>,
                               allSucceed: bool)
  {
    && (forall fp :: fp in after ==> fp in before && after[fp] == before[fp])
    && (forall fp :: fp in before && fp !in after ==>
          exists id :: id in expired && id in d && d[id].certFingerprint == fp)
    && (allSucceed ==> forall id :: id in expired && id in d ==> d[id].certFingerprint !in after)
  }

  lemma RemoveOne(d: DirectiveTable, before: ActionTable, after: ActionTable, expired: seq<string>, allSucceed: bool,
                  id: string, removed: bool)
    requires RemovedSoFar(d, before, after, expired, allSucceed) && id in d && (allSucceed ==> removed)
    ensures RemovedSoFar(d, before, if removed then after - {d[id].certFingerprint} else after, expired + [id],
            allSucceed)
  {
  }

  lemma ExpireOne(d: DirectiveTable, certs: CertTable, cutoff: int, now: int, done: seq<string>, d': DirectiveTable,
                  expired: seq<string>, id: string)
    requires SweptSoFar(d, certs, cutoff, now, done, d', expired) && id in d && id !in done
    ensures if Stale(certs, d[id].certFingerprint, cutoff)
            then SweptSoFar(d, certs, cutoff, now, done + [id], StatusUpdated(d', id, Expired, now, None),
                expired + [id])
            else SweptSoFar(d, certs, cutoff, now, done + [id], d', expired)
  {
  }

  /** Candidates are the active directives, then the pending ones. */
  lemma CandidatesAreLive(d: DirectiveTable, active: seq<string>, pending: seq<string>)
    requires Lists(active, WithStatus(d, Active)) && Lists(pending, WithStatus(d, Pending))
    ensures NoDup(active + pending)
    ensures forall id :: id in active + pending <==> id in d && Live(d[id])
  {
    forall id ensures id in active <==> id in WithStatus(d, Active) {
      assert id in active <==> id in SetOf(active);
    }
    forall id ensures id in pending <==> id in WithStatus(d, Pending) {
      assert id in pending <==> id in SetOf(pending);
    }
    forall i, j | 0 <= i < |active| && 0 <= j < |pending| ensures active[i] != pending[j] {
      assert active[i] in active && pending[j] in pending;
    }
  }

  /** That many hours ago. */
  function Cutoff(now: int, expiryHours: nat): int {
    now - expiryHours * 3_600_000
  }

  /** faults(i) is the error, if any, of the i-th removal from the map. */
  method ExpireStaleDirectives(store: Storage, target: MapWriter.ActionMap, now: int, expiryHours: nat,
                               faults: nat -> Option<string>, ghost allSucceed: bool)
    returns (r: ExpiryResult)
    requires allSucceed ==> forall i :: faults(i).None?
    modifies store`directives, target
    ensures store.directives == Swept(old(store.directives), store.certificates, Cutoff(now, expiryHours), now)
    ensures Lists(r.expiredIds, DoomedIds(old(store.directives), store.certificates, Cutoff(now, expiryHours)))
    ensures r.expiredCount == |DoomedIds(old(store.directives), store.certificates, Cutoff(now, expiryHours))|
    ensures MapSwept(old(store.directives), store.certificates, Cutoff(now, expiryHours),
                     old(target.entries), target.entries, allSucceed)
  {
    hide Swept, MapSwept, StatusUpdated;
    var cutoff := now - expiryHours * 3_600_000;
    var d := store.directives;
    var active := store.ListDirectivesByStatus(Active);
    var pending := store.ListDirectivesByStatus(Pending);
    var candidates := active + pending;
    CandidatesAreLive(d, active, pending);
    var expiredIds := [];
    var i := 0;
    while i < |candidates|
      invariant 0 <= i <= |candidates|
      invariant SweptSoFar(d, store.certificates, cutoff, now, candidates[..i], store.directives, expiredIds)
      invariant RemovedSoFar(d, old(target.entries), target.entries, expiredIds, allSucceed)
    {
      var id := candidates[i];
      assert id in candidates && id !in candidates[..i];
      assert candidates[..i + 1] == candidates[..i] + [id];
      ExpireOne(d, store.certificates, cutoff, now, candidates[..i], store.directives, expiredIds, id);
      var fp := d[id].certFingerprint;
      var shouldExpire := if fp in store.certificates then store.certificates[fp].lastSeen < cutoff else true;
      if shouldExpire {
        RemoveOne(d, old(target.entries), target.entries, expiredIds, allSucceed, id, faults(|expiredIds|).None?);
        var _ := target.RemoveEntry(fp, faults(|expiredIds|));
        store.UpdateDirectiveStatus(id, Expired, now, None);
        expiredIds := expiredIds + [id];
      }
      i := i + 1;
    }
    assert candidates[..i] == candidates;
    AllExpired(d, store.certificates, cutoff, now, candidates, store.directives, expiredIds,
               old(target.entries), target.entries, allSucceed);
    r := ExpiryResult(|expiredIds|, expiredIds);
  }

  lemma AllExpired(d: DirectiveTable, certs: CertTable, cutoff: int, now: int, candidates: seq<string>,
                   d': DirectiveTable,
                   expired: seq<string>, before: ActionTable, after: ActionTable, allSucceed: bool)
    requires SweptSoFar(d, certs, cutoff, now, candidates, d', expired)
    requires RemovedSoFar(d, before, after, expired, allSucceed)
    requires forall id :: id in candidates <==> id in d && Live(d[id])
    ensures d' == Swept(d, certs, cutoff, now)
    ensures Lists(expired, DoomedIds(d, certs, cutoff)) && |expired| == |DoomedIds(d, certs, cutoff)|
    ensures MapSwept(d, certs, cutoff, before, after, allSucceed)
  {
    forall id ensures id in expired <==> id in DoomedIds(d, certs, cutoff) {
    }
    assert SetOf(expired) == DoomedIds(d, certs, cutoff);
    NoDupCardinality(expired);
  }
}
