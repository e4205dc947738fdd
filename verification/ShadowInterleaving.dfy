/** Escalation sweeps and reconciliation passes as they share the shadow table: statement by
    statement. Each lists the unresolved rows first and then writes back rows derived from that
    listing, one statement at a time, so the other's writes can come in between. */
module ShadowInterleaving {
  import opened Common
  import opened Storage
  import opened Escalation
  import opened Reconciliation
  import opened ShadowLifecycle

  // --- Statements -------------------------------------------------------------------------

  /** A sweep or pass under way: its clock, the rows it listed, and those it has yet to visit. */
  datatype Work = Work(now: int, listed: ShadowTable, todo: set<Fingerprint>)

  const DONE := Work(0, map[], {})

  datatype State = State(shadows: ShadowTable, sweep: Work, pass: Work)

  /** One statement of the sweep or of the pass. Visiting a row writes it back if the sweep finds
      it due, or the pass finds its certificate in the inventory. Classify is phase two's insert. */
  datatype Statement =
    | ListSweep(now: int)
    | VisitSweep(fp: Fingerprint)
    | ListPass(now: int)
    | VisitPass(fp: Fingerprint, known: bool)
    | Classify(fp: Fingerprint, cert: CertRow, now: int)

  function Listing(t: ShadowTable, now: int): Work {
    Work(now, map fp | fp in Unresolved(t) :: t[fp], Unresolved(t))
  }

  /** The row a statement writes, if it writes one: derived from the row as listed. */
  function Written(s: State, a: Statement): Option<(Fingerprint, ShadowRow)> {
    match a
    case VisitSweep(fp) =>
      if fp in s.sweep.todo && fp in s.sweep.listed && Due(s.sweep.listed[fp], s.sweep.now)
      then Some((fp, Escalated(s.sweep.listed[fp], s.sweep.now))) else None
    case VisitPass(fp, known) =>
      if fp in s.pass.todo && fp in s.pass.listed && known
      then Some((fp, ResolvedRow(s.pass.listed[fp], s.pass.now))) else None
    case Classify(fp, cert, now) => if fp in s.shadows then None else Some((fp, NewShadow(cert, now)))
    case _ => None
  }

  /** A new sweep or pass starts when the one before it is through. */
  function Next(s: State, a: Statement): State {
    var w := Written(s, a);
    var t := if w.Some? then ShadowUpserted(s.shadows, w.value.0, w.value.1) else s.shadows;
    match a
    case ListSweep(now) => if s.sweep.todo == {} then s.(sweep := Listing(s.shadows, now)) else s
    case VisitSweep(fp) => State(t, s.sweep.(todo := s.sweep.todo - {fp}), s.pass)
    case ListPass(now) => if s.pass.todo == {} then s.(pass := Listing(s.shadows, now)) else s
    case VisitPass(fp, _) => State(t, s.sweep, s.pass.(todo := s.pass.todo - {fp}))
    case Classify(_, _, _) => s.(shadows := t)
  }

  function Start(t: ShadowTable): State {
    State(t, DONE, DONE)
  }

  function Exec(s: State, actions: seq<Statement>): State {
    if actions == [] then s else Next(Exec(s, actions[..|actions| - 1]), actions[|actions| - 1])
  }

  // --- Stale writes -----------------------------------------------------------------------

  /** The row about to be written back has changed since it was listed. A writer could check this
      against the table before it writes. */
  predicate Stale(s: State, a: Statement) {
    Written(s, a).Some? &&
    match a
    case VisitSweep(fp) => fp in s.shadows && s.shadows[fp] != s.sweep.listed[fp]
    case VisitPass(fp, _) => fp in s.shadows && s.shadows[fp] != s.pass.listed[fp]
    case _ => false
  }

  ghost predicate NoStaleWrite(s: State, actions: seq<Statement>) {
    actions == [] ||
    (NoStaleWrite(s, actions[..|actions| - 1]) && !Stale(Exec(s, actions[..|actions| - 1]), actions[|actions| - 1]))
  }

  /** From one table to the next every row stays, never drops, and is frozen once resolved. */
  ghost predicate RowsClimb(t: ShadowTable, t': ShadowTable) {
    forall fp :: fp in t ==> fp in t' && Climbed(t[fp], t'[fp])
  }

  ghost predicate AlwaysClimbs(s: State, actions: seq<Statement>) {
    actions == [] ||
    var before := Exec(s, actions[..|actions| - 1]);
    AlwaysClimbs(s, actions[..|actions| - 1]) && RowsClimb(before.shadows, Next(before, actions[|actions| - 1]).shadows)
  }

  /** What has happened to a row that a sweep, or a pass, listed and has yet to visit, as long as no
      write was stale: nothing, or the other one has written it. */
  ghost predicate SweepKnows(s: State, fp: Fingerprint) {
    fp in s.sweep.todo ==>
      && fp in s.sweep.listed && fp in s.shadows && !s.sweep.listed[fp].isResolved
      && (s.shadows[fp] == s.sweep.listed[fp] || s.shadows[fp].isResolved)
  }

  ghost predicate PassKnows(s: State, fp: Fingerprint) {
    fp in s.pass.todo ==>
      && fp in s.pass.listed && fp in s.shadows && !s.pass.listed[fp].isResolved
      && (s.shadows[fp] == s.pass.listed[fp] || s.shadows[fp].escalationCount > s.pass.listed[fp].escalationCount)
  }

  ghost predicate Knows(s: State) {
    forall fp :: SweepKnows(s, fp) && PassKnows(s, fp)
  }

  lemma StepKnows(s: State, a: Statement, fp: Fingerprint)
    requires Knows(s) && !Stale(s, a)
    ensures SweepKnows(Next(s, a), fp) && PassKnows(Next(s, a), fp)
  {
    assert SweepKnows(s, fp) && PassKnows(s, fp);
  }

  /** A fresh write lets its row climb; a stale one never does. */
  lemma StepClimbsIffFresh(s: State, a: Statement)
    requires Knows(s)
    ensures RowsClimb(s.shadows, Next(s, a).shadows) <==> !Stale(s, a)
  {
    var t, t' := s.shadows, Next(s, a).shadows;
    match a
    case VisitSweep(fp) =>
      assert SweepKnows(s, fp);
      if Stale(s, a) {
        assert t[fp].isResolved && !t'[fp].isResolved;
      }
    case VisitPass(fp, _) =>
      assert PassKnows(s, fp);
      if Stale(s, a) {
        assert t'[fp].escalationCount < t[fp].escalationCount;
      }
    case _ =>
  }

  /** Main result: in any interleaving of sweeps and passes, statement by statement, rows keep
      climbing at every step, frozen once resolved, if and only if no row is ever written back
      after it changed since it was listed. */
  lemma {:induction false} InterleavingClimbsIffNoStaleWrite(t: ShadowTable, actions: seq<Statement>)
    ensures AlwaysClimbs(Start(t), actions) <==> NoStaleWrite(Start(t), actions)
    ensures NoStaleWrite(Start(t), actions) ==> Knows(Exec(Start(t), actions))
  {
    hide Next, Stale, RowsClimb, SweepKnows, PassKnows;
    if actions == [] {
      StartKnows(t);
    } else {
      var init, a := actions[..|actions| - 1], actions[|actions| - 1];
      var s := Exec(Start(t), init);
      InterleavingClimbsIffNoStaleWrite(t, init);
      if NoStaleWrite(Start(t), init) {
        StepClimbsIffFresh(s, a);
        if !Stale(s, a) {
          forall fp ensures SweepKnows(Next(s, a), fp) && PassKnows(Next(s, a), fp) {
            StepKnows(s, a, fp);
          }
        }
      }
    }
  }

  lemma StartKnows(t: ShadowTable)
    ensures Knows(Start(t))
  {
  }

  /** So without stale writes rows only climb from one end of the run to the other. */
  lemma {:induction false} NoStaleWriteMeansClimbing(t: ShadowTable, actions: seq<Statement>, fp: Fingerprint)
    requires NoStaleWrite(Start(t), actions) && fp in t
    ensures var t' := Exec(Start(t), actions).shadows; fp in t' && Climbed(t[fp], t'[fp])
  {
    if actions == [] {
    } else {
      hide Next, Stale;
      var init := actions[..|actions| - 1];
      NoStaleWriteMeansClimbing(t, init, fp);
      InterleavingClimbsIffNoStaleWrite(t, init);
      StepClimbsIffFresh(Exec(Start(t), init), actions[|actions| - 1]);
    }
  }

  /** It does go wrong: a sweep lists a shadow that is due, a pass resolves it, and the sweep's
      write-back opens it again. */
  lemma ResolutionCanBeUndone(fp: Fingerprint, row: ShadowRow, now: int)
    requires !row.isResolved && Due(row, now)
    ensures var run := [ListSweep(now), ListPass(now), VisitPass(fp, true), VisitSweep(fp)];
            var t := map[fp := row];
            var before, after := Exec(Start(t), run[..3]).shadows, Exec(Start(t), run).shadows;
            && fp in before && before[fp].isResolved
            && fp in after && !after[fp].isResolved
            && !NoStaleWrite(Start(t), run)
  {
    var run := [ListSweep(now), ListPass(now), VisitPass(fp, true), VisitSweep(fp)];
    var s0 := Start(map[fp := row]);
    var s1 := Next(s0, run[0]);
    var s2 := Next(s1, run[1]);
    var s3 := Next(s2, run[2]);
    assert run[..1][..0] == [] && run[..2][..1] == run[..1] && run[..3][..2] == run[..2] && run[..4] == run;
    assert Exec(s0, run[..1]) == s1;
    assert Exec(s0, run[..2]) == s2;
    assert Exec(s0, run[..3]) == s3;
  }

  // --- Undisturbed ------------------------------------------------------------------------

  function SweepOf(now: int, listing: seq<Fingerprint>): seq<Statement> {
    if listing == [] then [ListSweep(now)]
    else SweepOf(now, listing[..|listing| - 1]) + [VisitSweep(listing[|listing| - 1])]
  }

  function PassOf(now: int, listing: seq<Fingerprint>, inventory: InventoryTable): seq<Statement> {
    if listing == [] then [ListPass(now)]
    else
      var fp := listing[|listing| - 1];
      PassOf(now, listing[..|listing| - 1], inventory) + [VisitPass(fp, fp in inventory)]
  }

  ghost predicate SweepProgress(t: ShadowTable, now: int, listing: seq<Fingerprint>, s: State) {
    && SweptSoFar(t, s.shadows, listing, now)
    && s.sweep.now == now && s.sweep.listed == Listing(t, now).listed
    && (forall fp :: fp in Unresolved(t) && fp !in listing ==> fp in s.sweep.todo)
  }

  lemma VisitProgresses(t: ShadowTable, now: int, listing: seq<Fingerprint>, fp: Fingerprint, s: State)
    requires SweepProgress(t, now, listing, s) && fp in Unresolved(t) && fp !in listing
    ensures SweepProgress(t, now, listing + [fp], Next(s, VisitSweep(fp)))
  {
    assert s.shadows[fp] == t[fp];
    assert Next(s, VisitSweep(fp)).shadows == s.shadows[fp := SweptRow(t[fp], now)];
    SweepOne(t, s.shadows, listing, fp, now);
  }

  lemma SweepBegins(t: ShadowTable, now: int)
    ensures SweepProgress(t, now, [], Next(Start(t), ListSweep(now)))
  {
  }

  lemma {:induction false} SweepProgresses(t: ShadowTable, now: int, listing: seq<Fingerprint>)
    requires NoDup(listing) && forall fp :: fp in listing ==> fp in Unresolved(t)
    ensures SweepProgress(t, now, listing, Exec(Start(t), SweepOf(now, listing)))
  {
    hide SweepProgress, Next, Unresolved;
    if listing == [] {
      assert [ListSweep(now)][..0] == [];
      SweepBegins(t, now);
    } else {
      var init, fp := listing[..|listing| - 1], listing[|listing| - 1];
      SweepProgresses(t, now, init);
      var before := SweepOf(now, init);
      assert SweepOf(now, listing)[..|before|] == before;
      VisitProgresses(t, now, init, fp, Exec(Start(t), before));
      assert listing == init + [fp];
    }
  }

  /** Run on its own, the statements of a sweep do exactly what the sweep as a whole does. */
  lemma UndisturbedSweep(t: ShadowTable, now: int, listing: seq<Fingerprint>)
    requires Lists(listing, Unresolved(t))
    ensures Exec(Start(t), SweepOf(now, listing)).shadows == SweptShadows(t, now)
  {
    hide Exec;
    forall fp | fp in listing ensures fp in Unresolved(t) {
      assert fp in SetOf(listing);
    }
    SweepProgresses(t, now, listing);
    AllSwept(t, Exec(Start(t), SweepOf(now, listing)).shadows, listing, now);
  }

  ghost predicate PassProgress(t: ShadowTable, now: int, listing: seq<Fingerprint>, inventory: InventoryTable,
                               s: State)
  {
    && s.shadows == Resolved(t, KnownAmong(t, inventory, listing), now)
    && s.pass.now == now && s.pass.listed == Listing(t, now).listed
    && (forall fp :: fp in Unresolved(t) && fp !in listing ==> fp in s.pass.todo)
  }

  lemma PassVisitProgresses(t: ShadowTable, now: int, listing: seq<Fingerprint>, inventory: InventoryTable,
                            fp: Fingerprint, s: State)
    requires PassProgress(t, now, listing, inventory, s) && fp in Unresolved(t) && fp !in listing
    ensures PassProgress(t, now, listing + [fp], inventory, Next(s, VisitPass(fp, fp in inventory)))
  {
    assert s.shadows[fp] == t[fp];
    assert KnownAmong(t, inventory, listing + [fp]) ==
           KnownAmong(t, inventory, listing) + if fp in inventory then {fp} else {};
  }

  lemma PassBegins(t: ShadowTable, now: int, inventory: InventoryTable)
    ensures PassProgress(t, now, [], inventory, Next(Start(t), ListPass(now)))
  {
  }

  lemma {:induction false} PassProgresses(t: ShadowTable, now: int, listing: seq<Fingerprint>,
                                          inventory: InventoryTable)
    requires NoDup(listing) && forall fp :: fp in listing ==> fp in Unresolved(t)
    ensures PassProgress(t, now, listing, inventory, Exec(Start(t), PassOf(now, listing, inventory)))
  {
    hide PassProgress, Next, Unresolved;
    if listing == [] {
      assert [ListPass(now)][..0] == [];
      PassBegins(t, now, inventory);
    } else {
      var init, fp := listing[..|listing| - 1], listing[|listing| - 1];
      PassProgresses(t, now, init, inventory);
      var before := PassOf(now, init, inventory);
      assert PassOf(now, listing, inventory)[..|before|] == before;
      PassVisitProgresses(t, now, init, inventory, fp, Exec(Start(t), before));
      assert listing == init + [fp];
    }
  }

  /** And so do the statements of a pass's first phase. */
  lemma UndisturbedPass(t: ShadowTable, now: int, listing: seq<Fingerprint>, inventory: InventoryTable)
    requires Lists(listing, Unresolved(t))
    ensures Exec(Start(t), PassOf(now, listing, inventory)).shadows == Resolved(t, Known(t, inventory), now)
  {
    hide Exec, Resolved;
    forall fp | fp in listing ensures fp in Unresolved(t) {
      assert fp in SetOf(listing);
    }
    PassProgresses(t, now, listing, inventory);
    forall fp | fp in Known(t, inventory) ensures fp in listing {
      assert fp in SetOf(listing);
    }
    assert KnownAmong(t, inventory, listing) == Known(t, inventory);
  }
}
