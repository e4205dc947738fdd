/** Several write_directive calls at once. Every lock is taken and released on its own, so calls
    interleave between the capacity check, each of the three counts that make up the total, and
    each write attempt. Each of those is one step here. */
module ConcurrentWrites {
  import opened Common
  import opened ActionEntry
  import opened Directives
  import opened MapWriter

  // --- Steps ------------------------------------------------------------------------------

  /** Where a call is, and what it has read so far. */
  datatype Phase =
    | Idle
    | CheckingMap(d: ActionDirective)
    | CountingAlert(d: ActionDirective)
    | CountingProtect(d: ActionDirective, alert: nat)
    | CountingIsolate(d: ActionDirective, alert: nat, protect: nat)
    | Writing(d: ActionDirective, attempt: nat)

  /** The maps, and one phase for each call that may be under way. */
  datatype State = State(tables: Tables, calls: seq<Phase>)

  /** Begin a call, or take the next step of one; fault is what a write attempt meets. */
  datatype Action = Begin(call: nat, d: ActionDirective) | Step(call: nat, fault: Option<string>)

  function WriteStep(c: Config, s: State, call: nat, d: ActionDirective, attempt: nat, fault: Option<string>): State
    requires call < |s.calls|
  {
    var route := RouteOf(d.actionType);
    var t := s.tables.Of(route);
    if AttemptError(t, c.LimitOf(route), d.certFingerprint, fault).None? then
      State(s.tables.With(route, t[d.certFingerprint := EntryOf(d)]), s.calls[call := Idle])
    else
      s.(calls := s.calls[call := if attempt + 1 < c.maxRetries then Writing(d, attempt + 1) else Idle])
  }

  function Next(c: Config, s: State, a: Action): (s': State)
    ensures |s'.calls| == |s.calls|
  {
    if a.call >= |s.calls| then s
    else if a.Begin? then
      if s.calls[a.call].Idle? then s.(calls := s.calls[a.call := CheckingMap(a.d)]) else s
    else
      match s.calls[a.call]
      case Idle => s
      case CheckingMap(d) =>
        s.(calls := s.calls[a.call := if AtEntryLimit(c, s.tables, d) then Idle else CountingAlert(d)])
      case CountingAlert(d) =>
        s.(calls := s.calls[a.call := CountingProtect(d, |s.tables.alert|)])
      case CountingProtect(d, alert) =>
        s.(calls := s.calls[a.call := CountingIsolate(d, alert, |s.tables.protect|)])
      case CountingIsolate(d, alert, protect) =>
        var total := alert + protect + |s.tables.isolate|;
        s.(calls := s.calls[a.call :=
          if total * ENTRY_SIZE + ENTRY_SIZE > c.MemoryCap() || c.maxRetries == 0 then Idle else Writing(d, 0)])
      case Writing(d, attempt) => WriteStep(c, s, a.call, d, attempt, a.fault)
  }

  function Exec(c: Config, s: State, actions: seq<Action>): (s': State)
    ensures |s'.calls| == |s.calls|
  {
    if actions == [] then s
    else Next(c, Exec(c, s, actions[..|actions| - 1]), actions[|actions| - 1])
  }

  /** Up to `calls` calls at a time, none under way. */
  function Start(t: Tables, calls: nat): State {
    State(t, seq(calls, i => Idle))
  }

  /** What each step of a call does, on what it sees at that moment: the map's own count, the three
      counts one after the other, and a write that goes through exactly if there is no fault and the
      map takes the key. */
  lemma StepsGoByWhatTheySee(c: Config, s: State, call: nat, fault: Option<string>)
    requires call < |s.calls| && !s.calls[call].Idle?
    ensures var s', d := Next(c, s, Step(call, fault)), s.calls[call].d;
            var p, route := s'.calls[call], RouteOf(d.actionType);
            match s.calls[call]
            case CheckingMap(_) =>
              p == (if |s.tables.Of(route)| < c.maxEntriesPerMap then CountingAlert(d) else Idle)
            case CountingAlert(_) => p == CountingProtect(d, |s.tables.alert|)
            case CountingProtect(_, alert) => p == CountingIsolate(d, alert, |s.tables.protect|)
            case CountingIsolate(_, alert, protect) =>
              p == Writing(d, 0) <==>
              88 * (alert + protect + |s.tables.isolate| + 1) <= c.maxTotalMemoryMb * 1_048_576 && c.maxRetries >= 1
            case Writing(_, attempt) =>
              if fault.None? && MapTakes(c, s.tables, route, d.certFingerprint)
              then p == Idle && s'.tables == Entered(s.tables, d)
              else s'.tables == s.tables && p == if attempt + 1 < c.maxRetries then Writing(d, attempt + 1) else Idle
  {
    hide EntryOf;
  }

  // --- What a limit protects --------------------------------------------------------------

  /** The two quantities the service checks before it writes: the entries of all maps together,
      and those of one map. */
  datatype Gauge = Memory | OneMap(route: Route)

  function Level(g: Gauge, t: Tables): nat {
    match g
    case Memory => t.Total()
    case OneMap(r) => |t.Of(r)|
  }

  function Bound(g: Gauge, c: Config): nat {
    match g
    case Memory => c.EntryCap()
    case OneMap(_) => c.maxEntriesPerMap
  }

  /** The call may still add to the gauge: it has passed the check, or would pass it if the maps
      stayed as they are, going by the counts already taken and the current ones for the rest. */
  predicate Live(g: Gauge, c: Config, t: Tables, p: Phase) {
    match p
    case Idle => false
    case CheckingMap(d) => if g.Memory? then t.Total() < Bound(g, c) else |t.Of(g.route)| < Bound(g, c)
    case CountingAlert(d) => if g.Memory? then t.Total() < Bound(g, c) else RouteOf(d.actionType) == g.route
    case CountingProtect(d, alert) =>
      if g.Memory? then alert + |t.protect| + |t.isolate| < Bound(g, c) else RouteOf(d.actionType) == g.route
    case CountingIsolate(d, alert, protect) =>
      if g.Memory? then alert + protect + |t.isolate| < Bound(g, c) else RouteOf(d.actionType) == g.route
    case Writing(d, _) => g.Memory? || RouteOf(d.actionType) == g.route
  }

  function CountLive(g: Gauge, c: Config, t: Tables, calls: seq<Phase>): (n: nat)
    ensures n <= |calls|
  {
    if calls == [] then 0
    else CountLive(g, c, t, calls[..|calls| - 1]) + if Live(g, c, t, calls[|calls| - 1]) then 1 else 0
  }

  predicate Grown(t: Tables, t': Tables) {
    forall r: Route :: |t.Of(r)| <= |t'.Of(r)|
  }

  lemma LiveShrinks(g: Gauge, c: Config, t: Tables, t': Tables, p: Phase)
    requires Grown(t, t')
    ensures Live(g, c, t', p) ==> Live(g, c, t, p)
  {
    assert |t.Of(AlertMap)| <= |t'.Of(AlertMap)|;
    assert |t.Of(ProtectMap)| <= |t'.Of(ProtectMap)|;
    assert |t.Of(IsolateMap)| <= |t'.Of(IsolateMap)|;
  }

  /** One call moves to p while the maps grow to t': the others can only stop being live. */
  lemma {:induction false} CountLiveMoves(g: Gauge, c: Config, t: Tables, t': Tables, calls: seq<Phase>, i: nat,
                                          p: Phase)
    requires Grown(t, t') && i < |calls|
    ensures CountLive(g, c, t', calls[i := p]) + (if Live(g, c, t, calls[i]) then 1 else 0)
            <= CountLive(g, c, t, calls) + if Live(g, c, t', p) then 1 else 0
  {
    var n := |calls| - 1;
    LiveShrinks(g, c, t, t', calls[n]);
    if i == n {
      CountLiveShrinks(g, c, t, t', calls[..n]);
      assert calls[i := p][..n] == calls[..n];
    } else {
      CountLiveMoves(g, c, t, t', calls[..n], i, p);
      assert calls[i := p][..n] == calls[..n][i := p];
    }
  }

  lemma {:induction false} CountLiveShrinks(g: Gauge, c: Config, t: Tables, t': Tables, calls: seq<Phase>)
    requires Grown(t, t')
    ensures CountLive(g, c, t', calls) <= CountLive(g, c, t, calls)
  {
    if calls == [] {
    } else {
      LiveShrinks(g, c, t, t', calls[|calls| - 1]);
      CountLiveShrinks(g, c, t, t', calls[..|calls| - 1]);
    }
  }

  lemma {:induction false} CountLiveBelowAll(g: Gauge, c: Config, t: Tables, calls: seq<Phase>, i: nat)
    requires i < |calls| && !Live(g, c, t, calls[i])
    ensures CountLive(g, c, t, calls) < |calls|
  {
    if i < |calls| - 1 {
      CountLiveBelowAll(g, c, t, calls[..|calls| - 1], i);
    }
  }

  // --- The limits under concurrency -------------------------------------------------------

  /** Below its bound a gauge is safe; at or above, every live call has room left under `most`. */
  ghost predicate Contained(g: Gauge, c: Config, most: nat, s: State) {
    && Bound(g, c) + |s.calls| <= most + 1
    && Level(g, s.tables) <= most
    && (Level(g, s.tables) >= Bound(g, c) ==> Level(g, s.tables) + CountLive(g, c, s.tables, s.calls) <= most)
  }

  /** Steps that leave the maps alone never bring a call to life once its gauge is at the bound. */
  lemma QuietStep(g: Gauge, c: Config, most: nat, s: State, i: nat, p: Phase)
    requires Contained(g, c, most, s) && i < |s.calls|
    requires Level(g, s.tables) >= Bound(g, c) && Live(g, c, s.tables, p) ==> Live(g, c, s.tables, s.calls[i])
    ensures Contained(g, c, most, s.(calls := s.calls[i := p]))
  {
    CountLiveMoves(g, c, s.tables, s.tables, s.calls, i, p);
  }

  lemma GrowthOfOne(g: Gauge, t: Tables, route: Route, fp: Fingerprint, e: BpfActionEntry)
    ensures var t' := t.With(route, t.Of(route)[fp := e]);
            && Grown(t, t')
            && Level(g, t) <= Level(g, t') <= Level(g, t) + 1
            && (g == OneMap(route) || g.Memory? || Level(g, t') == Level(g, t))
  {
  }

  /** A successful write adds at most one entry and retires a live call. */
  lemma WriteStepContained(g: Gauge, c: Config, most: nat, s: State, i: nat, d: ActionDirective)
    requires Contained(g, c, most, s) && i < |s.calls| && s.calls[i].Writing? && s.calls[i].d == d
    ensures var route := RouteOf(d.actionType);
            var t' := s.tables.With(route, s.tables.Of(route)[d.certFingerprint := EntryOf(d)]);
            Contained(g, c, most, State(t', s.calls[i := Idle]))
  {
    var route := RouteOf(d.actionType);
    var t' := s.tables.With(route, s.tables.Of(route)[d.certFingerprint := EntryOf(d)]);
    GrowthOfOne(g, s.tables, route, d.certFingerprint, EntryOf(d));
    CountLiveMoves(g, c, s.tables, t', s.calls, i, Idle);
    CountLiveBelowAll(g, c, t', s.calls[i := Idle], i);
  }

  lemma NextContained(g: Gauge, c: Config, most: nat, s: State, a: Action)
    requires Contained(g, c, most, s)
    ensures Contained(g, c, most, Next(c, s, a))
  {
    if a.call < |s.calls| {
      var p := s.calls[a.call];
      var s' := Next(c, s, a);
      if a.Begin? {
        QuietStep(g, c, most, s, a.call, CheckingMap(a.d));
      } else if p.Writing? && AttemptError(s.tables.Of(RouteOf(p.d.actionType)), c.LimitOf(RouteOf(p.d.actionType)),
                                           p.d.certFingerprint, a.fault).None? {
        WriteStepContained(g, c, most, s, a.call, p.d);
      } else if !p.Idle? {
        MemoryCapInEntries(c, s.tables);
        QuietStep(g, c, most, s, a.call, s'.calls[a.call]);
      }
    }
  }

  lemma {:induction false} IdleCallsAreNotLive(g: Gauge, c: Config, t: Tables, calls: seq<Phase>)
    requires forall i :: 0 <= i < |calls| ==> calls[i] == Idle
    ensures CountLive(g, c, t, calls) == 0
  {
    if calls == [] {
    } else {
      IdleCallsAreNotLive(g, c, t, calls[..|calls| - 1]);
    }
  }

  lemma {:induction false} ExecContained(g: Gauge, c: Config, most: nat, s: State, actions: seq<Action>)
    requires Contained(g, c, most, s)
    ensures Contained(g, c, most, Exec(c, s, actions))
  {
    if actions == [] {
    } else {
      ExecContained(g, c, most, s, actions[..|actions| - 1]);
      NextContained(g, c, most, Exec(c, s, actions[..|actions| - 1]), actions[|actions| - 1]);
    }
  }

  ghost predicate OwnLimits(c: Config, t: Tables) {
    forall r: Route :: |t.Of(r)| <= c.LimitOf(r)
  }

  lemma {:induction false} OwnLimitsHold(c: Config, s: State, actions: seq<Action>)
    requires OwnLimits(c, s.tables)
    ensures OwnLimits(c, Exec(c, s, actions).tables)
  {
    if actions == [] {
    } else {
      var n := |actions| - 1;
      OwnLimitsHold(c, s, actions[..n]);
      var before, after := Exec(c, s, actions[..n]).tables, Exec(c, s, actions).tables;
      forall r: Route ensures |after.Of(r)| <= c.LimitOf(r) {
        assert |before.Of(r)| <= c.LimitOf(r);
      }
    }
  }

  /** Main result: in every interleaving of at most k calls, maps that start within the limits
      hold at most k - 1 entries more than the memory cap has room for, and each map at most
      k - 1 more than the service allows it, although no check ever holds two locks. A map's own
      capacity is never exceeded at all. */
  lemma ConcurrentWritesKeepLimits(c: Config, t: Tables, k: nat, actions: seq<Action>)
    requires k >= 1 && WithinLimits(c, t)
    ensures var t' := Exec(c, Start(t, k), actions).tables;
            && t'.Total() <= c.EntryCap() + k - 1
            && forall r: Route :: |t'.Of(r)| <= c.maxEntriesPerMap + k - 1 && |t'.Of(r)| <= c.LimitOf(r)
  {
    var t' := Exec(c, Start(t, k), actions).tables;
    IdleCallsAreNotLive(Memory, c, t, Start(t, k).calls);
    ExecContained(Memory, c, c.EntryCap() + k - 1, Start(t, k), actions);
    assert Level(Memory, t') <= c.EntryCap() + k - 1;
    OwnLimitsHold(c, Start(t, k), actions);
    forall r: Route ensures |t'.Of(r)| <= c.maxEntriesPerMap + k - 1 {
      IdleCallsAreNotLive(OneMap(r), c, t, Start(t, k).calls);
      ExecContained(OneMap(r), c, c.maxEntriesPerMap + k - 1, Start(t, k), actions);
      assert Level(OneMap(r), t') <= c.maxEntriesPerMap + k - 1;
    }
  }

  // --- The bound is reached ---------------------------------------------------------------

  lemma {:induction false} ExecAppends(c: Config, s: State, a: seq<Action>, b: seq<Action>)
    ensures Exec(c, s, a + b) == Exec(c, Exec(c, s, a), b)
  {
    if b == [] {
      assert a + b == a;
    } else {
      ExecAppends(c, s, a, b[..|b| - 1]);
      assert (a + b)[..|a + b| - 1] == a + b[..|b| - 1];
    }
  }

  /** The first n calls have each passed both checks and are about to write; the rest are idle. */
  function Poised(t: Tables, ds: seq<ActionDirective>, n: nat): State {
    State(t, seq(|ds|, i requires 0 <= i < |ds| => if i < n then Writing(ds[i], 0) else Idle))
  }

  function Approach(call: nat, d: ActionDirective): seq<Action> {
    [Begin(call, d), Step(call, None), Step(call, None), Step(call, None), Step(call, None)]
  }

  function Approaches(ds: seq<ActionDirective>, n: nat): seq<Action>
    requires n <= |ds|
  {
    if n == 0 then [] else Approaches(ds, n - 1) + Approach(n - 1, ds[n - 1])
  }

  function Writes(n: nat): (r: seq<Action>)
    ensures |r| == n
  {
    if n == 0 then [] else Writes(n - 1) + [Step(n - 1, None)]
  }

  /** There is room for one more entry, but no map is near a limit of its own, and the directives
      are for different certificates that are in no map yet. */
  ghost predicate RoomForOne(c: Config, t: Tables, ds: seq<ActionDirective>) {
    && c.maxRetries >= 1
    && t.Total() + 1 == c.EntryCap()
    && (forall r: Route :: |t.Of(r)| < c.maxEntriesPerMap && |t.Of(r)| + |ds| <= c.LimitOf(r))
    && (forall i, j :: 0 <= i < j < |ds| ==> ds[i].certFingerprint != ds[j].certFingerprint)
    && (forall i :: 0 <= i < |ds| ==> Absent(t, ds[i].certFingerprint))
  }

  predicate Absent(t: Tables, fp: Fingerprint) {
    fp !in t.alert && fp !in t.protect && fp !in t.isolate
  }

  lemma ApproachOne(c: Config, t: Tables, ds: seq<ActionDirective>, n: nat)
    requires RoomForOne(c, t, ds) && n < |ds|
    ensures Exec(c, Poised(t, ds, n), Approach(n, ds[n])) == Poised(t, ds, n + 1)
  {
    var d, s, steps := ds[n], Poised(t, ds, n), Approach(n, ds[n]);
    assert |t.Of(RouteOf(d.actionType))| < c.maxEntriesPerMap;
    MemoryCapInEntries(c, t);
    var a, p := |t.alert|, |t.protect|;
    ExecAppends(c, s, [], steps[..1]);
    assert Exec(c, s, []) == s;
    assert steps[..1] == [steps[0]] && [steps[0]][..0] == [];
    assert Exec(c, s, steps[..1]) == Next(c, s, steps[0]) == s.(calls := s.calls[n := CheckingMap(d)]);
    assert steps[..2][..1] == steps[..1];
    assert Exec(c, s, steps[..2]).calls == s.calls[n := CountingAlert(d)];
    assert steps[..3][..2] == steps[..2];
    assert Exec(c, s, steps[..3]).calls == s.calls[n := CountingProtect(d, a)];
    assert steps[..4][..3] == steps[..3];
    assert Exec(c, s, steps[..4]).calls == s.calls[n := CountingIsolate(d, a, p)];
    assert steps[..5] == steps && steps[..5][..4] == steps[..4];
    assert Exec(c, s, steps).calls == s.calls[n := Writing(d, 0)] == Poised(t, ds, n + 1).calls;
  }

  lemma {:induction false} ApproachAll(c: Config, t: Tables, ds: seq<ActionDirective>, n: nat)
    requires RoomForOne(c, t, ds) && n <= |ds|
    ensures Exec(c, Start(t, |ds|), Approaches(ds, n)) == Poised(t, ds, n)
  {
    if n == 0 {
      assert Start(t, |ds|).calls == Poised(t, ds, 0).calls;
    } else {
      ApproachAll(c, t, ds, n - 1);
      ApproachOne(c, t, ds, n - 1);
      ExecAppends(c, Start(t, |ds|), Approaches(ds, n - 1), Approach(n - 1, ds[n - 1]));
    }
  }

  /** The first n of the poised calls have written. */
  ghost predicate Wrote(t: Tables, ds: seq<ActionDirective>, n: nat, s: State) {
    && |s.calls| == |ds|
    && s.tables.Total() == t.Total() + n
    && (forall r: Route :: |s.tables.Of(r)| <= |t.Of(r)| + n)
    && (forall i :: n <= i < |ds| ==> s.calls[i] == Writing(ds[i], 0))
    && (forall i :: n <= i < |ds| ==> Absent(s.tables, ds[i].certFingerprint))
  }

  lemma EntryAdded(t: Tables, route: Route, fp: Fingerprint, e: BpfActionEntry)
    requires Absent(t, fp)
    ensures var t' := t.With(route, t.Of(route)[fp := e]);
            && t'.Total() == t.Total() + 1
            && (forall r: Route :: |t'.Of(r)| <= |t.Of(r)| + 1)
            && (forall x: Fingerprint :: x != fp && Absent(t, x) ==> Absent(t', x))
  {
  }

  lemma WriteOne(c: Config, t: Tables, ds: seq<ActionDirective>, n: nat, s: State)
    requires RoomForOne(c, t, ds) && n < |ds| && Wrote(t, ds, n, s)
    ensures Wrote(t, ds, n + 1, Next(c, s, Step(n, None)))
  {
    var d, s' := ds[n], Next(c, s, Step(n, None));
    var route := RouteOf(d.actionType);
    assert s.calls[n] == Writing(d, 0);
    assert |s.tables.Of(route)| <= |t.Of(route)| + n < c.LimitOf(route);
    assert s'.tables == s.tables.With(route, s.tables.Of(route)[d.certFingerprint := EntryOf(d)]);
    EntryAdded(s.tables, route, d.certFingerprint, EntryOf(d));
    forall r: Route ensures |s'.tables.Of(r)| <= |t.Of(r)| + n + 1 {
      assert |s.tables.Of(r)| <= |t.Of(r)| + n;
    }
  }

  lemma NoneWrote(c: Config, t: Tables, ds: seq<ActionDirective>)
    requires RoomForOne(c, t, ds)
    ensures Wrote(t, ds, 0, Poised(t, ds, |ds|))
  {
  }

  lemma {:induction false} WriteAll(c: Config, t: Tables, ds: seq<ActionDirective>, n: nat)
    requires RoomForOne(c, t, ds) && n <= |ds|
    ensures Wrote(t, ds, n, Exec(c, Poised(t, ds, |ds|), Writes(n)))
  {
    hide RoomForOne, Wrote, Poised, Next;
    if n == 0 {
      NoneWrote(c, t, ds);
    } else {
      WriteAll(c, t, ds, n - 1);
      WriteOne(c, t, ds, n - 1, Exec(c, Poised(t, ds, |ds|), Writes(n - 1)));
      assert Writes(n)[..n - 1] == Writes(n - 1);
    }
  }

  /** The bound of the main result is exact: where one entry still fits, k calls for different new
      certificates can all pass the check first, and then all write. */
  lemma OvershootIsReached(c: Config, t: Tables, ds: seq<ActionDirective>)
    requires RoomForOne(c, t, ds)
    ensures Exec(c, Start(t, |ds|), Approaches(ds, |ds|) + Writes(|ds|)).tables.Total() == c.EntryCap() + |ds| - 1
  {
    ApproachAll(c, t, ds, |ds|);
    WriteAll(c, t, ds, |ds|);
    ExecAppends(c, Start(t, |ds|), Approaches(ds, |ds|), Writes(|ds|));
  }

  // --- What the maps hold -----------------------------------------------------------------

  /** The step is a write attempt that goes through: of which directive. */
  function Success(c: Config, s: State, a: Action): Option<ActionDirective> {
    if a.Begin? || a.call >= |s.calls| || !s.calls[a.call].Writing? then None
    else
      var d := s.calls[a.call].d;
      var route := RouteOf(d.actionType);
      if AttemptError(s.tables.Of(route), c.LimitOf(route), d.certFingerprint, a.fault).None? then Some(d) else None
  }

  /** The directives written with success, in the order of their last steps. */
  function Successes(c: Config, s: State, actions: seq<Action>): seq<ActionDirective> {
    if actions == [] then []
    else
      var n := |actions| - 1;
      var last := Success(c, Exec(c, s, actions[..n]), actions[n]);
      Successes(c, s, actions[..n]) + if last.Some? then [last.value] else []
  }

  function Entered(t: Tables, d: ActionDirective): Tables {
    var route := RouteOf(d.actionType);
    t.With(route, t.Of(route)[d.certFingerprint := EntryOf(d)])
  }

  /** One write after the other, undisturbed. */
  function InTurn(t: Tables, ds: seq<ActionDirective>): Tables {
    if ds == [] then t else Entered(InTurn(t, ds[..|ds| - 1]), ds[|ds| - 1])
  }

  lemma StepEffect(c: Config, s: State, a: Action)
    ensures var last := Success(c, s, a);
            Next(c, s, a).tables == if last.Some? then Entered(s.tables, last.value) else s.tables
    ensures var last := Success(c, s, a);
            last.Some? ==> a.call < |s.calls| && !s.calls[a.call].Idle? && s.calls[a.call].d == last.value
  {
    hide EntryOf, AttemptError;
  }

  /** Every interleaving leaves the maps as its successful writes would, taken one after the other. */
  lemma {:induction false} WritesTakeEffectInTurn(c: Config, s: State, actions: seq<Action>)
    ensures Exec(c, s, actions).tables == InTurn(s.tables, Successes(c, s, actions))
  {
    hide Next, Success, Entered;
    if actions == [] {
    } else {
      var n := |actions| - 1;
      var before := Exec(c, s, actions[..n]);
      var ds, last := Successes(c, s, actions[..n]), Success(c, before, actions[n]);
      WritesTakeEffectInTurn(c, s, actions[..n]);
      StepEffect(c, before, actions[n]);
      if last.Some? {
        assert (ds + [last.value])[..|ds|] == ds;
      } else {
        assert ds + [] == ds;
      }
    }
  }

  /** The directive written last for fp on this route. */
  function LastWritten(ds: seq<ActionDirective>, route: Route, fp: Fingerprint): Option<ActionDirective> {
    if ds == [] then None
    else
      var d := ds[|ds| - 1];
      if RouteOf(d.actionType) == route && d.certFingerprint == fp then Some(d)
      else LastWritten(ds[..|ds| - 1], route, fp)
  }

  lemma {:induction false} InTurnHoldsLast(t: Tables, ds: seq<ActionDirective>, route: Route, fp: Fingerprint)
    ensures var last, m := LastWritten(ds, route, fp), InTurn(t, ds).Of(route);
            if last.Some? then fp in m && m[fp] == EntryOf(last.value)
            else (fp in m <==> fp in t.Of(route)) && (fp in m ==> m[fp] == t.Of(route)[fp])
  {
    if ds == [] {
    } else {
      hide EntryOf;
      InTurnHoldsLast(t, ds[..|ds| - 1], route, fp);
    }
  }

  ghost predicate Begun(actions: seq<Action>, d: ActionDirective) {
    exists i :: 0 <= i < |actions| && actions[i].Begin? && actions[i].d == d
  }

  lemma BegunLater(actions: seq<Action>, a: Action, d: ActionDirective)
    requires Begun(actions, d) || (a.Begin? && a.d == d)
    ensures Begun(actions + [a], d)
  {
    if Begun(actions, d) {
      var i :| 0 <= i < |actions| && actions[i].Begin? && actions[i].d == d;
      assert (actions + [a])[i] == actions[i];
    } else {
      assert (actions + [a])[|actions|] == a;
    }
  }

  lemma StepDirective(c: Config, s: State, a: Action, i: nat)
    requires i < |s.calls| && !Next(c, s, a).calls[i].Idle?
    ensures var p := Next(c, s, a).calls[i];
            (a.Begin? && a.d == p.d) || (!s.calls[i].Idle? && s.calls[i].d == p.d)
  {
    hide EntryOf, AttemptError;
  }

  /** A call under way is about a directive it was begun with, */
  lemma {:induction false} CallsWereBegun(c: Config, t: Tables, k: nat, actions: seq<Action>, i: nat)
    requires i < k && !Exec(c, Start(t, k), actions).calls[i].Idle?
    ensures Begun(actions, Exec(c, Start(t, k), actions).calls[i].d)
  {
    hide Next, Begun;
    if actions == [] {
    } else {
      var init, a := actions[..|actions| - 1], actions[|actions| - 1];
      var before := Exec(c, Start(t, k), init);
      var d := Next(c, before, a).calls[i].d;
      StepDirective(c, before, a, i);
      if !before.calls[i].Idle? && before.calls[i].d == d {
        CallsWereBegun(c, t, k, init, i);
      }
      BegunLater(init, a, d);
      assert actions == init + [a];
    }
  }

  /** and so is every write. */
  lemma {:induction false} OnlyBegunIsWritten(c: Config, t: Tables, k: nat, actions: seq<Action>, d: ActionDirective)
    requires d in Successes(c, Start(t, k), actions)
    ensures Begun(actions, d)
  {
    hide Next, Begun, Success;
    var init, a := actions[..|actions| - 1], actions[|actions| - 1];
    var before := Exec(c, Start(t, k), init);
    if d in Successes(c, Start(t, k), init) {
      OnlyBegunIsWritten(c, t, k, init, d);
    } else {
      StepEffect(c, before, a);
      CallsWereBegun(c, t, k, init, a.call);
    }
    BegunLater(init, a, d);
    assert actions == init + [a];
  }

  /** Main result on contents: after any interleaving of calls, started on any maps, each map holds
      for each key the entry of the directive whose write there went through last, and that was the
      directive of one of the calls; a key nobody wrote is as it was. */
  lemma MapsHoldLastWritten(c: Config, t: Tables, k: nat, actions: seq<Action>, route: Route, fp: Fingerprint)
    ensures var m := Exec(c, Start(t, k), actions).tables.Of(route);
            var last := LastWritten(Successes(c, Start(t, k), actions), route, fp);
            if last.Some? then fp in m && m[fp] == EntryOf(last.value) && Begun(actions, last.value)
            else (fp in m <==> fp in t.Of(route)) && (fp in m ==> m[fp] == t.Of(route)[fp])
  {
    hide EntryOf, Next, Success, InTurn, Begun;
    var ds := Successes(c, Start(t, k), actions);
    WritesTakeEffectInTurn(c, Start(t, k), actions);
    InTurnHoldsLast(t, ds, route, fp);
    LastWrittenIsWritten(ds, route, fp);
    if LastWritten(ds, route, fp).Some? {
      OnlyBegunIsWritten(c, t, k, actions, LastWritten(ds, route, fp).value);
    }
  }

  lemma {:induction false} LastWrittenIsWritten(ds: seq<ActionDirective>, route: Route, fp: Fingerprint)
    ensures LastWritten(ds, route, fp).Some? ==> LastWritten(ds, route, fp).value in ds
  {
    if ds == [] {
    } else {
      LastWrittenIsWritten(ds[..|ds| - 1], route, fp);
    }
  }
}
