/** Conflict resolution: of all directives for one certificate, the most severe stays, and of
    equally severe ones the first. */
module Conflicts {
  import opened Common
  import Storage
  import D = Directives
  import Escalation

  /** A directive row with its id. */
  datatype Candidate = Candidate(id: string, row: Storage.DirectiveRow)
  {
    function Fp(): Fingerprint {
      row.certFingerprint
    }

    function Rank(): nat {
      ParseSeverity(row.severity).Rank()
    }
  }

  datatype Discarded = Discarded(id: string, severity: string, winnerSeverity: D.Severity)

  // --- Severity ---------------------------------------------------------------------------

  /** Names in any case; anything else counts as low. */
  function ParseSeverity(s: string): D.Severity {
    var l := AsciiLower(s);
    if l == "critical" then D.Critical
    else if l == "high" then D.High
    else if l == "medium" then D.Medium
    else D.Low
  }

  /** How severities are stored. */
  function SeverityName(s: D.Severity): string {
    match s
    case Low => "low"
    case Medium => "medium"
    case High => "high"
    case Critical => "critical"
  }

  /** Parsing inverts printing in any case, and whatever is no severity's name is low. */
  lemma SeverityParsesByName(s: string, severity: D.Severity)
    ensures AsciiLower(s) == SeverityName(severity) ==> ParseSeverity(s) == severity
    ensures ParseSeverity(s) == severity ==>
              AsciiLower(s) == SeverityName(severity) ||
              (severity == D.Low && forall other :: AsciiLower(s) != SeverityName(other))
  {
    assert "critical"[0] != "high"[0] && "critical"[0] != "medium"[0] && "critical"[0] != "low"[0];
    assert "high"[0] != "medium"[0] && "high"[0] != "low"[0] && "medium"[0] != "low"[0];
  }

  /** Severity is ordered by name: critical over high over medium over all else. */
  lemma RankByName(c: Candidate)
    ensures var name := AsciiLower(c.row.severity);
            c.Rank() == if name == "critical" then 3
                        else if name == "high" then 2
                        else if name == "medium" then 1
                        else 0
  {
    SeverityParsesByName(c.row.severity, ParseSeverity(c.row.severity));
  }

  // --- Specification ----------------------------------------------------------------------

  /** The candidate that stays for a certificate: each new one must be strictly more severe. */
  function Champion(ds: seq<Candidate>, fp: Fingerprint): Option<Candidate> {
    if ds == [] then None
    else
      var best, d := Champion(ds[..|ds| - 1], fp), ds[|ds| - 1];
      if d.Fp() == fp && (best.None? || d.Rank() > best.value.Rank()) then Some(d) else best
  }

  /** One winner for each certificate, in any order. */
  ghost predicate IsResolution(ds: seq<Candidate>, winners: seq<Candidate>) {
    && (forall i, j :: 0 <= i < j < |winners| ==> winners[i].Fp() != winners[j].Fp())
    && (forall i :: 0 <= i < |winners| ==> Champion(ds, winners[i].Fp()) == Some(winners[i]))
    && (forall fp :: Champion(ds, fp).Some? ==> Champion(ds, fp).value in winners)
  }

  function Group(ds: seq<Candidate>, fp: Fingerprint): seq<Candidate> {
    if ds == [] then []
    else
      var d := ds[|ds| - 1];
      Group(ds[..|ds| - 1], fp) + if d.Fp() == fp then [d] else []
  }

  // --- Properties -------------------------------------------------------------------------

  /** ds[i] is the earliest of the most severe candidates for its certificate. */
  ghost predicate EarliestOfHighest(ds: seq<Candidate>, i: nat) {
    i < |ds| &&
    forall j :: 0 <= j < |ds| && ds[j].Fp() == ds[i].Fp() ==>
      ds[j].Rank() <= ds[i].Rank() && (j < i ==> ds[j].Rank() < ds[i].Rank())
  }

  lemma {:induction false} ChampionExists(ds: seq<Candidate>, i: nat)
    requires i < |ds|
    ensures var best := Champion(ds, ds[i].Fp()); best.Some? && best.value.Rank() >= ds[i].Rank()
  {
    if i < |ds| - 1 {
      ChampionExists(ds[..|ds| - 1], i);
    }
  }

  lemma {:induction false} ChampionIsEarliestOfHighest(ds: seq<Candidate>, fp: Fingerprint) returns (i: nat)
    requires Champion(ds, fp).Some?
    ensures i < |ds| && Champion(ds, fp) == Some(ds[i]) && ds[i].Fp() == fp && EarliestOfHighest(ds, i)
  {
    var n := |ds| - 1;
    var best, d := Champion(ds[..n], fp), ds[n];
    if d.Fp() == fp && (best.None? || d.Rank() > best.value.Rank()) {
      i := n;
      forall j | 0 <= j < n && ds[j].Fp() == fp ensures ds[j].Rank() < ds[n].Rank() {
        ChampionExists(ds[..n], j);
      }
    } else {
      i := ChampionIsEarliestOfHighest(ds[..n], fp);
      assert forall j :: 0 <= j < n ==> ds[..n][j] == ds[j];
    }
  }

  /** Main result on winners: the winners are exactly the candidates that are the earliest of the
      most severe for their certificate. */
  lemma WinnersAreEarliestOfHighest(ds: seq<Candidate>, winners: seq<Candidate>, i: nat)
    requires IsResolution(ds, winners) && EarliestOfHighest(ds, i)
    ensures ds[i] in winners
    ensures forall w :: w in winners && w.Fp() == ds[i].Fp() ==> w == ds[i]
  {
    ChampionExists(ds, i);
    var k := ChampionIsEarliestOfHighest(ds, ds[i].Fp());
    assert k == i;
  }

  lemma WinnersAreUnique(ds: seq<Candidate>, w1: seq<Candidate>, w2: seq<Candidate>)
    requires IsResolution(ds, w1) && IsResolution(ds, w2)
    ensures multiset(w1) == multiset(w2)
  {
    forall c ensures multiset(w1)[c] == multiset(w2)[c] {
      CountInResolution(ds, w1, c);
      CountInResolution(ds, w2, c);
    }
  }

  /** The record a candidate leaves behind when it loses. */
  function RecordOf(ds: seq<Candidate>, loser: Candidate): Discarded {
    var best := Champion(ds, loser.Fp());
    Discard(loser, if best.None? then D.Low else ParseSeverity(best.value.row.severity))
  }

  function RecordsOf(ds: seq<Candidate>, losers: seq<Candidate>): (r: seq<Discarded>)
    ensures |r| == |losers|
  {
    if losers == [] then [] else RecordsOf(ds, losers[..|losers| - 1]) + [RecordOf(ds, losers[|losers| - 1])]
  }

  lemma {:induction false} DiscardedAreRecords(ds: seq<Candidate>, losers: seq<Candidate>, discarded: seq<Discarded>)
    requires DiscardedRightly(ds, losers, discarded)
    ensures discarded == RecordsOf(ds, losers)
  {
    if losers == [] {
    } else {
      hide Champion, ParseSeverity;
      var n := |losers| - 1;
      DiscardedAreRecords(ds, losers[..n], discarded[..n]);
      assert discarded == discarded[..n] + [discarded[n]];
    }
  }

  lemma {:induction false} RecordsOfJoin(ds: seq<Candidate>, a: seq<Candidate>, b: seq<Candidate>)
    ensures RecordsOf(ds, a + b) == RecordsOf(ds, a) + RecordsOf(ds, b)
  {
    hide RecordOf;
    if b == [] {
      assert a + b == a;
    } else {
      RecordsOfJoin(ds, a, b[..|b| - 1]);
      assert (a + b)[..|a + b| - 1] == a + b[..|b| - 1];
    }
  }

  lemma RecordsWithout(ds: seq<Candidate>, before: seq<Candidate>, x: Candidate, after: seq<Candidate>)
    ensures multiset(RecordsOf(ds, before + [x] + after)) ==
            multiset(RecordsOf(ds, before + after)) + multiset{RecordOf(ds, x)}
  {
    hide RecordOf;
    RecordsOfJoin(ds, before + [x], after);
    RecordsOfJoin(ds, before, [x]);
    RecordsOfJoin(ds, before, after);
    assert [x][..0] == [];
    assert RecordsOf(ds, [x]) == [RecordOf(ds, x)];
    var p, q := RecordsOf(ds, before), RecordsOf(ds, after);
    assert multiset(p + [RecordOf(ds, x)] + q) == multiset(p + q) + multiset{RecordOf(ds, x)};
  }

  lemma SameButOne(a: seq<Candidate>, x: Candidate, before: seq<Candidate>, after: seq<Candidate>)
    requires multiset(a + [x]) == multiset(before + [x] + after)
    ensures multiset(a) == multiset(before + after)
  {
    var m, n := multiset(a), multiset(before + after);
    assert multiset(a + [x]) == m + multiset{x};
    assert multiset(before + [x] + after) == n + multiset{x};
    assert m == m + multiset{x} - multiset{x} == n;
  }

  /** Records of the same losers, in whatever order, are the same records. */
  lemma {:induction false} RecordsPermute(ds: seq<Candidate>, a: seq<Candidate>, b: seq<Candidate>)
    requires multiset(a) == multiset(b)
    ensures multiset(RecordsOf(ds, a)) == multiset(RecordsOf(ds, b))
  {
    hide RecordOf, RecordsOf;
    if a == [] {
      assert |multiset(b)| == 0;
    } else {
      var init, x := a[..|a| - 1], a[|a| - 1];
      assert a == init + [x] + [];
      assert x in multiset(b);
      var j :| 0 <= j < |b| && b[j] == x;
      var before, after := b[..j], b[j + 1..];
      assert b == before + [x] + after;
      SameButOne(init, x, before, after);
      RecordsPermute(ds, init, before + after);
      RecordsWithout(ds, before, x, after);
      RecordsWithout(ds, init, x, []);
      assert init + [] == init;
    }
  }

  /** What a resolution returns: the contract of ResolveConflicts. */
  ghost predicate IsOutcome(ds: seq<Candidate>, winners: seq<Candidate>, losers: seq<Candidate>,
                            discarded: seq<Discarded>)
  {
    && IsResolution(ds, winners)
    && multiset(winners) + multiset(losers) == multiset(ds)
    && DiscardedRightly(ds, losers, discarded)
  }

  /** The order in which certificates are visited does not matter: any two outcomes hold the same
      winners and the same discarded records. */
  lemma ResolutionIsUnique(ds: seq<Candidate>, w1: seq<Candidate>, l1: seq<Candidate>, d1: seq<Discarded>,
                           w2: seq<Candidate>, l2: seq<Candidate>, d2: seq<Discarded>)
    requires IsOutcome(ds, w1, l1, d1) && IsOutcome(ds, w2, l2, d2)
    ensures multiset(w1) == multiset(w2)
    ensures multiset(d1) == multiset(d2)
  {
    hide IsResolution, DiscardedRightly;
    WinnersAreUnique(ds, w1, w2);
    assert multiset(l1) == multiset(ds) - multiset(w1) && multiset(l2) == multiset(ds) - multiset(w2);
    DiscardedAreRecords(ds, l1, d1);
    DiscardedAreRecords(ds, l2, d2);
    RecordsPermute(ds, l1, l2);
  }

  /** A discarded record carries its loser's own id and severity, and the severity of the winner for the
      same certificate, which is no lower. */
  lemma DiscardedSayWhoLost(ds: seq<Candidate>, winners: seq<Candidate>, losers: seq<Candidate>,
                            discarded: seq<Discarded>, i: nat)
    requires IsOutcome(ds, winners, losers, discarded) && i < |losers|
    ensures |discarded| == |losers|
    ensures discarded[i].id == losers[i].id && discarded[i].severity == losers[i].row.severity
    ensures exists w :: w in winners && w.Fp() == losers[i].Fp() && losers[i].Rank() <= w.Rank()
              && discarded[i].winnerSeverity == ParseSeverity(w.row.severity)
  {
    hide ParseSeverity;
    assert losers[i] in multiset(winners) + multiset(losers);
    assert losers[i] in multiset(ds);
    var k :| 0 <= k < |ds| && ds[k] == losers[i];
    ChampionExists(ds, k);
    var j := ChampionIsEarliestOfHighest(ds, losers[i].Fp());
    assert ds[j] in winners;
  }

  /** An escalation's critical alert loses to nothing but an equally critical directive. */
  lemma EscalationAlertPrevails(ds: seq<Candidate>, i: nat, fp: Fingerprint, now: int)
    requires i < |ds| && ds[i].row == Escalation.CriticalAlert(fp, now)
    ensures Champion(ds, fp).Some? && ParseSeverity(Champion(ds, fp).value.row.severity) == D.Critical
  {
    ChampionExists(ds, i);
    assert AsciiLower("critical") == "critical";
  }

  lemma {:induction false} CountDistinct(w: seq<Candidate>, c: Candidate)
    requires forall i, j :: 0 <= i < j < |w| ==> w[i].Fp() != w[j].Fp()
    ensures multiset(w)[c] == if c in w then 1 else 0
  {
    if w == [] {
    } else {
      var init := w[..|w| - 1];
      CountDistinct(init, c);
      assert w == init + [w[|w| - 1]];
      assert w[|w| - 1] !in init;
    }
  }

  lemma CountInResolution(ds: seq<Candidate>, w: seq<Candidate>, c: Candidate)
    requires IsResolution(ds, w)
    ensures multiset(w)[c] == if Champion(ds, c.Fp()) == Some(c) then 1 else 0
  {
    CountDistinct(w, c);
  }

  lemma {:induction false} ChampionContinues(a: seq<Candidate>, a': seq<Candidate>, b: seq<Candidate>, fp: Fingerprint)
    requires Champion(a, fp) == Champion(a', fp)
    ensures Champion(a + b, fp) == Champion(a' + b, fp)
  {
    if b == [] {
      assert a + b == a && a' + b == a';
    } else {
      var init := b[..|b| - 1];
      ChampionContinues(a, a', init, fp);
      assert (a + b)[..|a + b| - 1] == a + init && (a' + b)[..|a' + b| - 1] == a' + init;
    }
  }

  lemma {:induction false} ChampionOfWinners(ws: seq<Candidate>, fp: Fingerprint)
    requires forall i, j :: 0 <= i < j < |ws| ==> ws[i].Fp() != ws[j].Fp()
    ensures forall i :: 0 <= i < |ws| && ws[i].Fp() == fp ==> Champion(ws, fp) == Some(ws[i])
    ensures (forall i :: 0 <= i < |ws| ==> ws[i].Fp() != fp) ==> Champion(ws, fp) == None
  {
    if ws == [] {
    } else {
      var n := |ws| - 1;
      ChampionOfWinners(ws[..n], fp);
      assert forall i :: 0 <= i < n ==> ws[..n][i] == ws[i];
    }
  }

  lemma ResolvedHasSameChampions(ds: seq<Candidate>, winners: seq<Candidate>, fp: Fingerprint)
    requires IsResolution(ds, winners)
    ensures Champion(winners, fp) == Champion(ds, fp)
  {
    ChampionOfWinners(winners, fp);
    if Champion(ds, fp).Some? {
      var k := ChampionIsEarliestOfHighest(ds, fp);
      var i :| 0 <= i < |winners| && winners[i] == Champion(ds, fp).value;
    } else {
      assert forall i :: 0 <= i < |winners| ==> winners[i].Fp() != fp;
    }
  }

  /** Resolution is incremental: new directives can be resolved against the winners alone. */
  lemma ResolvingIsIncremental(a: seq<Candidate>, winners: seq<Candidate>, b: seq<Candidate>, w: seq<Candidate>)
    requires IsResolution(a, winners)
    ensures IsResolution(winners + b, w) <==> IsResolution(a + b, w)
  {
    forall fp ensures Champion(winners + b, fp) == Champion(a + b, fp) {
      ResolvedHasSameChampions(a, winners, fp);
      ChampionContinues(winners, a, b, fp);
    }
  }

  // --- The resolution ---------------------------------------------------------------------

  lemma {:induction false} GroupHasSameChampion(ds: seq<Candidate>, fp: Fingerprint)
    ensures Champion(Group(ds, fp), fp) == Champion(ds, fp)
    ensures Group(ds, fp) == [] <==> Champion(ds, fp).None?
    ensures forall c :: c in Group(ds, fp) ==> c.Fp() == fp
  {
    if ds == [] {
    } else {
      var init, d := ds[..|ds| - 1], ds[|ds| - 1];
      GroupHasSameChampion(init, fp);
      if d.Fp() == fp {
        assert (Group(init, fp) + [d])[..|Group(init, fp)|] == Group(init, fp);
      } else {
        assert Group(ds, fp) == Group(init, fp);
      }
    }
  }

  lemma {:induction false} GroupCounts(ds: seq<Candidate>, fp: Fingerprint, c: Candidate)
    ensures multiset(Group(ds, fp))[c] == if c.Fp() == fp then multiset(ds)[c] else 0
  {
    if ds == [] {
    } else {
      GroupCounts(ds[..|ds| - 1], fp, c);
      assert ds == ds[..|ds| - 1] + [ds[|ds| - 1]];
    }
  }

  method GroupByFingerprint(ds: seq<Candidate>) returns (groups: map<Fingerprint, seq<Candidate>>)
    ensures forall fp :: fp in groups <==> Group(ds, fp) != []
    ensures forall fp :: fp in groups ==> groups[fp] == Group(ds, fp)
  {
    groups := map[];
    var i := 0;
    while i < |ds|
      invariant 0 <= i <= |ds|
      invariant forall fp :: fp in groups <==> Group(ds[..i], fp) != []
      invariant forall fp :: fp in groups ==> groups[fp] == Group(ds[..i], fp)
    {
      var fp := ds[i].Fp();
      assert ds[..i + 1][..i] == ds[..i];
      groups := groups[fp := (if fp in groups then groups[fp] else []) + [ds[i]]];
      i := i + 1;
    }
    assert ds[..i] == ds;
  }

  /** The most severe member of a group, the first of equals. */
  method PickWinner(group: seq<Candidate>, fp: Fingerprint) returns (bestIdx: nat, bestSeverity: D.Severity)
    requires group != [] && forall c :: c in group ==> c.Fp() == fp
    ensures bestIdx < |group| && Champion(group, fp) == Some(group[bestIdx])
    ensures bestSeverity == ParseSeverity(group[bestIdx].row.severity)
  {
    bestIdx, bestSeverity := 0, ParseSeverity(group[0].row.severity);
    assert group[..1][..0] == [];
    var i := 1;
    while i < |group|
      invariant 1 <= i <= |group| && bestIdx < i
      invariant Champion(group[..i], fp) == Some(group[bestIdx])
      invariant bestSeverity == ParseSeverity(group[bestIdx].row.severity)
    {
      assert group[..i + 1][..i] == group[..i] && group[i] in group;
      var sev := ParseSeverity(group[i].row.severity);
      if sev.Rank() > bestSeverity.Rank() {
        bestIdx, bestSeverity := i, sev;
      }
      i := i + 1;
    }
    assert group[..i] == group;
  }

  function Discard(c: Candidate, winnerSeverity: D.Severity): Discarded {
    Discarded(c.id, c.row.severity, winnerSeverity)
  }

  method DiscardOthers(group: seq<Candidate>, bestIdx: nat, bestSeverity: D.Severity)
    returns (discarded: seq<Discarded>, ghost losers: seq<Candidate>)
    requires bestIdx < |group|
    ensures |discarded| == |group| - 1
    ensures |discarded| == |losers|
    ensures forall i :: 0 <= i < |losers| ==> losers[i] in group && discarded[i] == Discard(losers[i], bestSeverity)
    ensures multiset(losers) + multiset{group[bestIdx]} == multiset(group)
  {
    discarded, losers := [], [];
    var i := 0;
    while i < |group|
      invariant 0 <= i <= |group| && |discarded| == |losers|
      invariant forall k :: 0 <= k < |losers| ==> losers[k] in group && discarded[k] == Discard(losers[k], bestSeverity)
      invariant multiset(losers) + (if i > bestIdx then multiset{group[bestIdx]} else multiset{}) ==
              multiset(group[..i])
    {
      assert group[..i + 1] == group[..i] + [group[i]];
      if i != bestIdx {
        discarded := discarded + [Discard(group[i], bestSeverity)];
        losers := losers + [group[i]];
      }
      i := i + 1;
    }
    assert group[..i] == group;
    assert |multiset(losers) + multiset{group[bestIdx]}| == |multiset(group)|;
  }

  /** The certificates visited so far have their winners, and their losers are set apart. */
  ghost predicate ResolvedFor(ds: seq<Candidate>, done: set<Fingerprint>, winners: seq<Candidate>,
                              losers: seq<Candidate>)
  {
    && (forall i, j :: 0 <= i < j < |winners| ==> winners[i].Fp() != winners[j].Fp())
    && (forall i :: 0 <= i < |winners| ==> winners[i].Fp() in done && Champion(ds, winners[i].Fp()) == Some(winners[i]))
    && (forall fp :: fp in done ==> Champion(ds, fp).Some? && Champion(ds, fp).value in winners)
    && CountsFor(ds, done, winners, losers)
  }

  ghost predicate CountsFor(ds: seq<Candidate>, done: set<Fingerprint>, winners: seq<Candidate>,
                            losers: seq<Candidate>)
  {
    forall c :: multiset(winners)[c] + multiset(losers)[c] == if c.Fp() in done then multiset(ds)[c] else 0
  }

  lemma CountsGrow(ds: seq<Candidate>, winners: seq<Candidate>, losers: seq<Candidate>, fp: Fingerprint, w: Candidate,
                   more: seq<Candidate>, c: Candidate)
    requires multiset(more) + multiset{w} == multiset(Group(ds, fp))
    ensures multiset(winners + [w])[c] + multiset(losers + more)[c] ==
            multiset(winners)[c] + multiset(losers)[c] + if c.Fp() == fp then multiset(ds)[c] else 0
  {
    GroupCounts(ds, fp, c);
    assert (multiset(more) + multiset{w})[c] == multiset(more)[c] + multiset{w}[c];
    assert multiset(winners + [w]) == multiset(winners) + multiset{w};
    assert multiset(losers + more) == multiset(losers) + multiset(more);
  }

  lemma OneMoreCounted(ds: seq<Candidate>, done: set<Fingerprint>, winners: seq<Candidate>, losers: seq<Candidate>,
                       fp: Fingerprint, w: Candidate, more: seq<Candidate>)
    requires CountsFor(ds, done, winners, losers) && fp !in done
    requires multiset(more) + multiset{w} == multiset(Group(ds, fp))
    ensures CountsFor(ds, done + {fp}, winners + [w], losers + more)
  {
    hide Champion, Group;
    forall c
      ensures multiset(winners + [w])[c] + multiset(losers + more)[c] ==
              if c.Fp() in done + {fp} then multiset(ds)[c] else 0
    {
      CountsGrow(ds, winners, losers, fp, w, more, c);
    }
  }

  lemma OneMoreResolved(ds: seq<Candidate>, done: set<Fingerprint>, winners: seq<Candidate>, losers: seq<Candidate>,
                        fp: Fingerprint, w: Candidate, more: seq<Candidate>)
    requires ResolvedFor(ds, done, winners, losers) && fp !in done && Champion(ds, fp) == Some(w) && w.Fp() == fp
    requires multiset(more) + multiset{w} == multiset(Group(ds, fp))
    ensures ResolvedFor(ds, done + {fp}, winners + [w], losers + more)
  {
    hide Champion, Group, CountsFor;
    OneMoreCounted(ds, done, winners, losers, fp, w, more);
    var ws := winners + [w];
    assert ws[|winners|] == w && forall i :: 0 <= i < |winners| ==> ws[i] == winners[i];
    forall x | x in done + {fp} ensures Champion(ds, x).Some? && Champion(ds, x).value in ws {
      if x == fp {
        assert ws[|winners|] in ws;
      }
    }
  }

  lemma NothingCounted(ds: seq<Candidate>)
    ensures CountsFor(ds, {}, [], [])
  {
  }

  /** discarded[i] is losers[i], discarded in favour of its certificate's champion. */
  ghost predicate DiscardedRightly(ds: seq<Candidate>, losers: seq<Candidate>, discarded: seq<Discarded>) {
    |discarded| == |losers| &&
    forall i :: 0 <= i < |losers| ==>
      var best := Champion(ds, losers[i].Fp());
      best.Some? && discarded[i] == Discard(losers[i], ParseSeverity(best.value.row.severity))
  }

  lemma MoreDiscardedRightly(ds: seq<Candidate>, losers: seq<Candidate>, discarded: seq<Discarded>,
                             more: seq<Candidate>, others: seq<Discarded>)
    requires DiscardedRightly(ds, losers, discarded) && DiscardedRightly(ds, more, others)
    ensures DiscardedRightly(ds, losers + more, discarded + others)
  {
  }

  /** One certificate's winner and losers. */
  method ResolveGroup(ghost ds: seq<Candidate>, group: seq<Candidate>, fp: Fingerprint)
    returns (winner: Candidate, others: seq<Discarded>, ghost more: seq<Candidate>)
    requires group == Group(ds, fp) && group != []
    ensures Champion(ds, fp) == Some(winner) && winner.Fp() == fp
    ensures multiset(more) + multiset{winner} == multiset(group)
    ensures DiscardedRightly(ds, more, others)
  {
    GroupHasSameChampion(ds, fp);
    var bestIdx, bestSeverity := PickWinner(group, fp);
    others, more := DiscardOthers(group, bestIdx, bestSeverity);
    winner := group[bestIdx];
  }

  lemma ResolvesAll(ds: seq<Candidate>, done: set<Fingerprint>, winners: seq<Candidate>, losers: seq<Candidate>)
    requires ResolvedFor(ds, done, winners, losers)
    requires forall fp :: fp in done <==> Group(ds, fp) != []
    ensures IsResolution(ds, winners)
  {
    forall fp ensures fp in done <==> Champion(ds, fp).Some? {
      GroupHasSameChampion(ds, fp);
    }
  }

  lemma CountsAll(ds: seq<Candidate>, done: set<Fingerprint>, winners: seq<Candidate>, losers: seq<Candidate>)
    requires ResolvedFor(ds, done, winners, losers)
    requires forall fp :: fp in done <==> Group(ds, fp) != []
    ensures multiset(winners) + multiset(losers) == multiset(ds)
  {
    forall c ensures (multiset(winners) + multiset(losers))[c] == multiset(ds)[c] {
      GroupCounts(ds, c.Fp(), c);
      assert multiset(winners)[c] + multiset(losers)[c] == if c.Fp() in done then multiset(ds)[c] else 0;
    }
  }

  /** Winners and losers together are the input, each row once; and every discarded record names
      a loser and its winner's severity. */
  method ResolveConflicts(ds: seq<Candidate>)
    returns (winners: seq<Candidate>, discarded: seq<Discarded>, ghost losers: seq<Candidate>)
    ensures IsResolution(ds, winners) && |winners| + |discarded| == |ds|
    ensures IsOutcome(ds, winners, losers, discarded)
  {
    hide Champion, Group, ParseSeverity, Discard, CountsFor;
    var groups := GroupByFingerprint(ds);
    winners, discarded, losers := [], [], [];
    var rest := groups.Keys;
    ghost var done: set<Fingerprint> := {};
    assert CountsFor(ds, {}, [], []) by { NothingCounted(ds); }
    while rest != {}
      invariant forall fp :: fp in groups <==> fp in done || fp in rest
      invariant forall fp :: fp in done ==> fp !in rest
      invariant ResolvedFor(ds, done, winners, losers)
      invariant DiscardedRightly(ds, losers, discarded)
      decreases rest
    {
      var fp :| fp in rest;
      var winner, others, more := ResolveGroup(ds, groups[fp], fp);
      OneMoreResolved(ds, done, winners, losers, fp, winner, more);
      MoreDiscardedRightly(ds, losers, discarded, more, others);
      winners, discarded, losers := winners + [winner], discarded + others, losers + more;
      rest, done := rest - {fp}, done + {fp};
    }
    ResolvesAll(ds, done, winners, losers);
    CountsAll(ds, done, winners, losers);
    assert |multiset(winners) + multiset(losers)| == |multiset(ds)|;
  }
}
