/** Shadow certificates over whole runs. Escalation sweeps and inventory reconciliations are the
    only writers of the shadow table; here they come in any order, at any times, against any
    inventory and traffic. */
module ShadowLifecycle {
  import opened Common
  import opened Storage
  import opened Escalation
  import opened Reconciliation
  import Inventory

  datatype Op =
    | Sweep(now: int)
    | Reconcile(now: int, inventory: InventoryTable, certs: CertTable, removed: seq<Fingerprint>)

  /** The shadow table, and how often a critical alert was issued for each certificate. */
  datatype World = World(shadows: ShadowTable, issued: multiset<Fingerprint>)

  const NEW_WORLD := World(map[], multiset{})

  function Step(w: World, op: Op): World {
    match op
    case Sweep(now) => World(SweptShadows(w.shadows, now), w.issued + multiset(Reached(w.shadows, now)))
    case Reconcile(now, inventory, certs, removed) =>
      w.(shadows := ReconciledShadows(w.shadows, inventory, certs, removed, now))
  }

  function Exec(w: World, ops: seq<Op>): World {
    if ops == [] then w else Step(Exec(w, ops[..|ops| - 1]), ops[|ops| - 1])
  }

  // --- Climbing ---------------------------------------------------------------------------

  /** From row a to row b: never down, one escalation counted per tier, at least a day for each,
      and nothing at all once resolved. */
  ghost predicate Climbed(a: ShadowRow, b: ShadowRow) {
    && b.escalationCount >= a.escalationCount
    && b.riskLevel.Rank() - a.riskLevel.Rank() == b.escalationCount - a.escalationCount
    && ReferenceTime(b) - ReferenceTime(a) >= ESCALATION_INTERVAL_MS * (b.escalationCount - a.escalationCount)
    && b.firstClassified == a.firstClassified && b.firstSeen == a.firstSeen
    && b.sourceIp == a.sourceIp && b.destinationIp == a.destinationIp
    && (a.isResolved ==> b == a)
  }

  lemma StepClimbs(w: World, op: Op, fp: Fingerprint)
    requires fp in w.shadows
    ensures fp in Step(w, op).shadows && Climbed(w.shadows[fp], Step(w, op).shadows[fp])
  {
  }

  /** Main result on rows: whatever happens in between, every row stays and has only climbed. */
  lemma {:induction false} RowsOnlyClimb(w: World, ops: seq<Op>, fp: Fingerprint)
    requires fp in w.shadows
    ensures fp in Exec(w, ops).shadows && Climbed(w.shadows[fp], Exec(w, ops).shadows[fp])
  {
    if ops == [] {
    } else {
      RowsOnlyClimb(w, ops[..|ops| - 1], fp);
      StepClimbs(Exec(w, ops[..|ops| - 1]), ops[|ops| - 1], fp);
    }
  }

  // --- Alerts -----------------------------------------------------------------------------

  function CriticalIn(t: ShadowTable, fp: Fingerprint): nat {
    if fp in t && t[fp].riskLevel == Critical then 1 else 0
  }

  lemma StepAlerts(w: World, op: Op, fp: Fingerprint)
    ensures Step(w, op).issued[fp] + CriticalIn(w.shadows, fp) == w.issued[fp] + CriticalIn(Step(w, op).shadows, fp)
  {
  }

  /** Over any run a certificate gets one critical alert if its row has become Critical, and none
      otherwise: never two. */
  lemma {:induction false} OneAlertPerRow(w: World, ops: seq<Op>, fp: Fingerprint)
    ensures Exec(w, ops).issued[fp] + CriticalIn(w.shadows, fp) == w.issued[fp] + CriticalIn(Exec(w, ops).shadows, fp)
  {
    if ops == [] {
    } else {
      OneAlertPerRow(w, ops[..|ops| - 1], fp);
      StepAlerts(Exec(w, ops[..|ops| - 1]), ops[|ops| - 1], fp);
    }
  }

  // --- From an empty table ----------------------------------------------------------------

  /** A row's whole history: the number of escalations is its tier, the last of them came at least
      that many days after classification. */
  ghost predicate Aged(row: ShadowRow) {
    && row.escalationCount == row.riskLevel.Rank()
    && (row.lastEscalated.None? <==> row.escalationCount == 0)
    && ReferenceTime(row) - row.firstClassified >= ESCALATION_INTERVAL_MS * row.escalationCount
    && (row.isResolved <==> row.resolvedAt.Some?)
  }

  lemma StepAges(w: World, op: Op, fp: Fingerprint)
    requires fp in w.shadows ==> Aged(w.shadows[fp])
    requires fp in Step(w, op).shadows
    ensures Aged(Step(w, op).shadows[fp])
  {
  }

  lemma {:induction false} RowsAge(ops: seq<Op>, fp: Fingerprint)
    requires fp in Exec(NEW_WORLD, ops).shadows
    ensures Aged(Exec(NEW_WORLD, ops).shadows[fp])
  {
    if ops == [] {
    } else {
      if fp in Exec(NEW_WORLD, ops[..|ops| - 1]).shadows {
        RowsAge(ops[..|ops| - 1], fp);
      }
      StepAges(Exec(NEW_WORLD, ops[..|ops| - 1]), ops[|ops| - 1], fp);
    }
  }

  /** Main result on time: a shadow that is Critical was classified at least 72 hours before its
      last escalation and has had its one alert; any other has had none. */
  lemma CriticalTakesThreeDays(ops: seq<Op>, fp: Fingerprint)
    ensures var w := Exec(NEW_WORLD, ops);
            if fp in w.shadows && w.shadows[fp].riskLevel == Critical
            then var row := w.shadows[fp];
                 && row.escalationCount == 3 && w.issued[fp] == 1
                 && row.lastEscalated.Some? && row.lastEscalated.value - row.firstClassified >= 3 * 24 * 3_600_000
            else w.issued[fp] == 0
  {
    OneAlertPerRow(NEW_WORLD, ops, fp);
    if fp in Exec(NEW_WORLD, ops).shadows {
      RowsAge(ops, fp);
    }
  }

  /** And three days are enough, with a sweep each day. */
  lemma ThreeDaysSuffice(w: World, fp: Fingerprint, start: int)
    requires fp in w.shadows && !w.shadows[fp].isResolved && w.shadows[fp].riskLevel == Low
    requires ReferenceTime(w.shadows[fp]) <= start
    ensures var day := 24 * 3_600_000;
            var w' := Exec(w, [Sweep(start + day), Sweep(start + 2 * day), Sweep(start + 3 * day)]);
            fp in w'.shadows && w'.shadows[fp].riskLevel == Critical && w'.issued[fp] == w.issued[fp] + 1
  {
    var day := 24 * 3_600_000;
    var ops := [Sweep(start + day), Sweep(start + 2 * day), Sweep(start + 3 * day)];
    assert ops[..2] == [Sweep(start + day), Sweep(start + 2 * day)];
    assert ops[..2][..1] == [Sweep(start + day)] && [Sweep(start + day)][..0] == [];
    var w1 := Step(w, ops[0]);
    assert w1 == Exec(w, [ops[0]]);
    assert w1.shadows[fp].riskLevel == Medium;
    var w2 := Step(w1, ops[1]);
    assert w2 == Exec(w, ops[..2]);
    assert w2.shadows[fp].riskLevel == High;
    assert Step(w2, ops[2]) == Exec(w, ops);
    OneAlertPerRow(w, ops, fp);
  }

  // --- Refresh, then reconcile ------------------------------------------------------------

  /** Reconciling against a refreshed inventory, with exactly the certificates the refresh dropped
      as the removed ones, leaves no shadow of a listed certificate unresolved, and a shadow row
      for every dropped certificate still in traffic. */
  lemma RefreshThenReconcile(before: InventoryTable, entries: seq<Inventory.RawEntry>, r: Inventory.Refresh,
                             t: ShadowTable, certs: CertTable, removed: seq<Fingerprint>, now: int)
    requires Lists(removed, before.Keys - Inventory.Imported(entries, r).Keys)
    ensures var inventory := Inventory.Imported(entries, r);
            var t' := ReconciledShadows(t, inventory, certs, removed, now);
            && Known(t', inventory) == {}
            && forall fp :: fp in before && fp !in inventory && StillSeen(certs, fp, now) ==> fp in t'
  {
    var inventory := Inventory.Imported(entries, r);
    forall fp ensures fp in removed <==> fp in before && fp !in inventory {
      assert fp in removed <==> fp in SetOf(removed);
    }
    NoKnownShadowLeftIff(t, inventory, certs, removed, now);
  }
}
