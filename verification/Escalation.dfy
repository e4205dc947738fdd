/** Escalation of shadow certificates: one tier for every full day without resolution, and at the
    top tier a critical alert that replaces whatever was pending. */
module Escalation {
  import opened Common
  import opened Storage

  const ESCALATION_INTERVAL_MS: nat := 86_400_000

  // --- Specification of a sweep -----------------------------------------------------------

  function ReferenceTime(row: ShadowRow): int {
    row.lastEscalated.UnwrapOr(row.firstClassified)
  }

  predicate Due(row: ShadowRow, now: int) {
    now - ReferenceTime(row) >= ESCALATION_INTERVAL_MS && row.riskLevel != Critical
  }

  function Escalated(row: ShadowRow, now: int): ShadowRow {
    row.(riskLevel := row.riskLevel.Escalate(), lastEscalated := Some(now), escalationCount := row.escalationCount + 1)
  }

  function SweptRow(row: ShadowRow, now: int): ShadowRow {
    if !row.isResolved && Due(row, now) then Escalated(row, now) else row
  }

  /** A sweep treats every unresolved row on its own, whatever order the store lists them in. */
  function SweptShadows(t: ShadowTable, now: int): ShadowTable {
    map fp | fp in t :: SweptRow(t[fp], now)
  }

  /** The certificates a sweep brings to Critical. */
  function Reached(t: ShadowTable, now: int): set<Fingerprint> {
    set fp | fp in t && !t[fp].isResolved && Due(t[fp], now) && t[fp].riskLevel.Escalate() == Critical
  }

  function CriticalAlert(fp: Fingerprint, now: int): DirectiveRow {
    DirectiveRow(fp, "alert", "critical", Pending, now, None, None)
  }

  /** The directives a sweep creates, in order: their ids and their certificates. */
  datatype Issue = Issue(id: string, fp: Fingerprint)

  function Ids(issued: seq<Issue>): (ids: seq<string>)
    ensures |ids| == |issued|
  {
    seq(|issued|, i requires 0 <= i < |issued| => issued[i].id)
  }

  function Fps(issued: seq<Issue>): (fps: seq<Fingerprint>)
    ensures |fps| == |issued|
  {
    seq(|issued|, i requires 0 <= i < |issued| => issued[i].fp)
  }

  /** d' is d with what was pending for the reached certificates replaced, and one new critical
      alert under a new id for each of them. */
  ghost predicate DirectivesSwept(d: DirectiveTable, d': DirectiveTable, reached: set<Fingerprint>, issued: seq<Issue>,
                                  now: int)
  {
    && Lists(Fps(issued), reached)
    && NoDup(Ids(issued))
    && (forall i :: 0 <= i < |issued| ==> issued[i].id !in d)
    && (forall id :: id in d' ==> id in d || id in Ids(issued))
    && (forall id :: id in d ==> id in d' && d'[id] == SettledRow(d[id], reached, Replaced, now, None))
    && (forall i :: 0 <= i < |issued| ==> issued[i].id in d' && d'[issued[i].id] == CriticalAlert(issued[i].fp, now))
  }

  // --- Properties of one sweep ------------------------------------------------------------

  /** Main result on a sweep: an unresolved row below Critical climbs, by exactly one tier, exactly if
      24 hours have passed since its last climb, or since its classification if it never climbed.
      The climb is stamped and counted; every other row, and every other column, is as it was. */
  lemma ClimbsAfterADay(t: ShadowTable, now: int, fp: Fingerprint)
    requires fp in t
    ensures var row, row' := t[fp], SweptShadows(t, now)[fp];
            var since := if row.lastEscalated.Some? then row.lastEscalated.value else row.firstClassified;
            if !row.isResolved && row.riskLevel != Critical && now - since >= 24 * 3_600_000 then
              && row' == row.(riskLevel := row'.riskLevel, lastEscalated := Some(now),
                              escalationCount := row.escalationCount + 1)
              && (row.riskLevel == Low ==> row'.riskLevel == Medium)
              && (row.riskLevel == Medium ==> row'.riskLevel == High)
              && (row.riskLevel == High ==> row'.riskLevel == Critical)
            else row' == row
    ensures SweptShadows(t, now).Keys == t.Keys
    ensures fp in Reached(t, now) <==> t[fp].riskLevel != Critical && SweptShadows(t, now)[fp].riskLevel == Critical
  {
  }

  /** Sweeping again at the same time changes no shadow and issues nothing. */
  lemma SecondSweepIsIdle(t: ShadowTable, now: int)
    ensures SweptShadows(SweptShadows(t, now), now) == SweptShadows(t, now)
    ensures Reached(SweptShadows(t, now), now) == {}
  {
  }

  /** A certificate brought to Critical has one directive pending: its new alert, of critical severity. */
  lemma AlertIsTheOnlyPending(d: DirectiveTable, d': DirectiveTable, reached: set<Fingerprint>, issued: seq<Issue>,
                              now: int, i: nat)
    requires DirectivesSwept(d, d', reached, issued, now) && i < |issued|
    ensures var id, fp := issued[i].id, issued[i].fp;
            && id !in d && id in d' && d'[id] == DirectiveRow(fp, "alert", "critical", Pending, now, None, None)
            && forall k :: k in d' && d'[k].certFingerprint == fp && d'[k].status == Pending ==> k == id
  {
    var fp := issued[i].fp;
    assert Fps(issued)[i] in SetOf(Fps(issued));
    forall k | k in d ensures !(d'[k].certFingerprint == fp && d'[k].status == Pending) {
      assert d'[k] == SettledRow(d[k], reached, Replaced, now, None);
    }
    forall k | k in d' && k !in d && d'[k].certFingerprint == fp ensures k == issued[i].id {
      var j :| 0 <= j < |issued| && Ids(issued)[j] == k;
      assert d'[issued[j].id] == CriticalAlert(issued[j].fp, now);
      assert Fps(issued)[j] == Fps(issued)[i];
    }
    assert d'[issued[i].id] == CriticalAlert(fp, now);
  }

  /** What was pending for such a certificate is replaced; no other directive changes, none goes, and
      none comes but the alerts, one for each certificate brought to Critical. */
  lemma OthersStayOrAreReplaced(d: DirectiveTable, d': DirectiveTable, reached: set<Fingerprint>, issued: seq<Issue>,
                                now: int, id: string)
    requires DirectivesSwept(d, d', reached, issued, now)
    ensures id in d ==>
              && id in d'
              && d'[id] == if d[id].certFingerprint in reached && d[id].status == Pending
                           then d[id].(status := Replaced, executedAt := Some(now), failureReason := None) else d[id]
    ensures id in d' && id !in d ==> d'[id].certFingerprint in reached
    ensures |issued| == |reached|
  {
    NoDupCardinality(Fps(issued));
    if id in d' && id !in d {
      var j :| 0 <= j < |issued| && Ids(issued)[j] == id;
      assert d'[issued[j].id] == CriticalAlert(issued[j].fp, now);
      assert Fps(issued)[j] in SetOf(Fps(issued));
    }
  }

  // --- The sweep --------------------------------------------------------------------------

  lemma NothingSwept(d: DirectiveTable, now: int)
    ensures DirectivesSwept(d, d, {}, [], now)
  {
  }

  lemma OneMoreSwept(d: DirectiveTable, d': DirectiveTable, reached: set<Fingerprint>, issued: seq<Issue>, now: int,
                     id: string, fp: Fingerprint)
    requires DirectivesSwept(d, d', reached, issued, now)
    requires fp !in reached && id !in d'
    ensures DirectivesSwept(d, Settled(d', {fp}, Replaced, now, None)[id := CriticalAlert(fp, now)], reached + {fp},
                            issued + [Issue(id, fp)], now)
  {
    var more := issued + [Issue(id, fp)];
    var d'' := Settled(d', {fp}, Replaced, now, None)[id := CriticalAlert(fp, now)];
    assert Fps(more) == Fps(issued) + [fp] && Ids(more) == Ids(issued) + [id];
    assert SetOf(Fps(more)) == SetOf(Fps(issued)) + {fp};
    assert fp !in SetOf(Fps(issued));
    forall i | 0 <= i < |issued|
      ensures issued[i].id in d'' && d''[issued[i].id] == CriticalAlert(issued[i].fp, now)
    {
      assert Fps(issued)[i] in SetOf(Fps(issued));
      assert Ids(issued)[i] in Ids(issued);
    }
    forall k | k in d ensures k in d'' && d''[k] == SettledRow(d[k], reached + {fp}, Replaced, now, None) {
      assert k in d' && d'[k] == SettledRow(d[k], reached, Replaced, now, None);
    }
  }

  /** Update one due row; at Critical, replace what is pending and issue the alert. */
  method EscalateRow(store: Storage, fp: Fingerprint, row: ShadowRow, now: int, freshId: string)
    returns (issued: Option<Issue>)
    requires fp in store.shadows && store.shadows[fp] == row && freshId !in store.directives
    modifies store`shadows, store`directives
    ensures store.shadows == old(store.shadows)[fp := Escalated(row, now)]
    ensures if row.riskLevel.Escalate() == Critical
            then issued == Some(Issue(freshId, fp)) && store.directives ==
                 Settled(old(store.directives), {fp}, Replaced, now, None)[freshId := CriticalAlert(fp, now)]
            else issued == None && store.directives == old(store.directives)
  {
    var newLevel := row.riskLevel.Escalate();
    var updated := row.(riskLevel := newLevel, lastEscalated := Some(now), escalationCount := row.escalationCount + 1);
    store.UpsertShadowCertificate(fp, updated);
    if newLevel == Critical {
      var _ := SettlePendingDirectives(store, fp, Replaced, now, None);
      store.InsertDirective(freshId, CriticalAlert(fp, now));
      return Some(Issue(freshId, fp));
    }
    return None;
  }

  /** t with only the rows listed in done swept. */
  ghost predicate SweptSoFar(t: ShadowTable, t': ShadowTable, done: seq<Fingerprint>, now: int) {
    && t'.Keys == t.Keys
    && forall fp :: fp in t ==> t'[fp] == if fp in done then SweptRow(t[fp], now) else t[fp]
  }

  function ReachedAmong(t: ShadowTable, done: seq<Fingerprint>, now: int): set<Fingerprint> {
    set fp | fp in done && fp in Reached(t, now)
  }

  lemma ReachedOneMore(t: ShadowTable, done: seq<Fingerprint>, fp: Fingerprint, now: int)
    ensures ReachedAmong(t, done + [fp], now) ==
            ReachedAmong(t, done, now) + if fp in Reached(t, now) then {fp} else {}
  {
  }

  lemma AllSwept(t: ShadowTable, t': ShadowTable, done: seq<Fingerprint>, now: int)
    requires SweptSoFar(t, t', done, now) && Lists(done, Unresolved(t))
    ensures t' == SweptShadows(t, now) && ReachedAmong(t, done, now) == Reached(t, now)
  {
    forall fp | fp in t ensures t'[fp] == SweptRow(t[fp], now) && (fp in Unresolved(t) <==> fp in done) {
      assert fp in Unresolved(t) <==> fp in SetOf(done);
    }
    forall fp | fp in Reached(t, now) ensures fp in done {
      assert fp in Unresolved(t);
      assert fp in SetOf(done);
    }
  }

  lemma SweepOne(t: ShadowTable, t': ShadowTable, done: seq<Fingerprint>, fp: Fingerprint, now: int)
    requires SweptSoFar(t, t', done, now) && fp in t
    ensures SweptSoFar(t, t'[fp := SweptRow(t[fp], now)], done + [fp], now)
  {
  }

  /** freshIds are the random ids the sweep will draw, each new to the table. */
  method EscalateStaleShadows(store: Storage, now: int, freshIds: seq<string>) returns (issued: seq<Issue>)
    requires NoDup(freshIds) && |freshIds| >= |Unresolved(store.shadows)|
    requires forall i :: 0 <= i < |freshIds| ==> freshIds[i] !in store.directives
    modifies store`shadows, store`directives
    ensures store.shadows == SweptShadows(old(store.shadows), now)
    ensures DirectivesSwept(old(store.directives), store.directives, Reached(old(store.shadows), now), issued, now)
  {
    hide DirectivesSwept;
    var unresolved := store.ListUnresolvedShadowCertificates();
    var t := store.shadows;
    ghost var d := store.directives;
    NoDupCardinality(unresolved);
    issued := [];
    NothingSwept(d, now);
    assert ReachedAmong(t, [], now) == {};
    var i := 0;
    while i < |unresolved|
      invariant 0 <= i <= |unresolved| && |issued| <= i
      invariant SweptSoFar(t, store.shadows, unresolved[..i], now)
      invariant DirectivesSwept(d, store.directives, ReachedAmong(t, unresolved[..i], now), issued, now)
      invariant forall j :: |issued| <= j < |freshIds| ==> freshIds[j] !in store.directives
    {
      var fp := unresolved[i];
      assert fp in SetOf(unresolved);
      assert fp !in unresolved[..i];
      assert unresolved[..i + 1] == unresolved[..i] + [fp];
      ReachedOneMore(t, unresolved[..i], fp, now);
      ghost var reached := ReachedAmong(t, unresolved[..i], now);
      assert reached + {} == reached;
      SweepOne(t, store.shadows, unresolved[..i], fp, now);
      assert store.shadows[fp] == t[fp];
      var row := t[fp];
      if Due(row, now) {
        if row.riskLevel.Escalate() == Critical {
          OneMoreSwept(d, store.directives, ReachedAmong(t, unresolved[..i], now), issued, now, freshIds[|issued|], fp);
        }
        var issue := EscalateRow(store, fp, row, now, freshIds[|issued|]);
        if issue.Some? {
          issued := issued + [issue.value];
        }
      }
      i := i + 1;
    }
    assert unresolved[..i] == unresolved;
    AllSwept(t, store.shadows, unresolved, now);
  }
}
