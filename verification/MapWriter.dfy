/** The service that writes directives into the kernel's three action maps: routing, limits,
    retries with exponential backoff, and notifications. Here writes come one after another;
    module ConcurrentWrites interleaves them. */
module MapWriter {
  import opened Common
  import opened ActionEntry
  import opened Directives
  import KernelExecutor
  import Wire
  import Collector

  /** Size of a BpfActionEntry in C layout: 32 + 1 + 1, padding to 40, 8, 32, 1, padding to 88. */
  const ENTRY_SIZE: nat := 88
  const TWO_64: nat := 0x1_0000_0000_0000_0000

  // --- Maps and limits --------------------------------------------------------------------

  datatype Route = AlertMap | ProtectMap | IsolateMap
  {
    function Name(): string {
      match this
      case AlertMap => "action_alert"
      case ProtectMap => "action_protect"
      case IsolateMap => "action_isolate"
    }
  }

  datatype Tables = Tables(alert: ActionTable, protect: ActionTable, isolate: ActionTable)
  {
    function Of(r: Route): ActionTable {
      match r
      case AlertMap => alert
      case ProtectMap => protect
      case IsolateMap => isolate
    }

    function With(r: Route, t: ActionTable): Tables {
      match r
      case AlertMap => this.(alert := t)
      case ProtectMap => this.(protect := t)
      case IsolateMap => this.(isolate := t)
    }

    function Total(): nat {
      |alert| + |protect| + |isolate|
    }
  }

  const EMPTY := Tables(map[], map[], map[])

  /** The first three are the maps' own capacities; maxEntriesPerMap is the service's. */
  datatype Config = Config(
    alertLimit: nat,
    protectLimit: nat,
    isolateLimit: nat,
    maxEntriesPerMap: nat,
    maxTotalMemoryMb: nat,
    maxRetries: nat,
    retryBaseMs: nat,
    hasNotifier: bool)
  {
    function LimitOf(r: Route): nat {
      match r
      case AlertMap => alertLimit
      case ProtectMap => protectLimit
      case IsolateMap => isolateLimit
    }

    function MemoryCap(): nat {
      maxTotalMemoryMb * 1024 * 1024
    }

    /** Entries the memory cap has room for. */
    function EntryCap(): nat {
      MemoryCap() / ENTRY_SIZE
    }
  }

  datatype MapWriteError = MapAtCapacity(current: nat, max: nat) | WriteFailed(reason: string)

  /** lastError is None only if no attempt was ever made. */
  datatype ExecutionOutcome = Success | Failed(lastError: Option<MapWriteError>, attempts: nat) | MapFull

  datatype MapNotification =
    | MapIsFull(mapName: string, entryCount: nat)
    | PermanentFailure(directive: ActionDirective, lastError: Option<MapWriteError>, attempts: nat)

  // --- Translation ------------------------------------------------------------------------

  function RouteOf(a: ActionType): Route {
    match a
    case Alert => AlertMap
    case Renew => AlertMap
    case Protect(_, _) => ProtectMap
    case Isolate(_) => IsolateMap
  }

  function ActionCode(a: ActionType): nat {
    match a
    case Alert => 0
    case Renew => 1
    case Protect(_, _) => 2
    case Isolate(_) => 3
  }

  /** Timestamps are cast to u64, so a time before the epoch wraps around. */
  function EntryOf(d: ActionDirective): BpfActionEntry {
    BpfActionEntry(
      d.certFingerprint,
      ActionCode(d.actionType),
      d.severity.Rank(),
      d.createdNs.UnwrapOr(0) % TWO_64,
      if d.actionType.Protect? then d.actionType.pinnedFingerprint else ZeroFingerprint(),
      FLAG_ACTIVE)
  }

  /** What the kernel can tell from an entry: the action and severity codes decode, the pinned
      fingerprint is there for protect actions, the entry is active, and a creation time that is a
      64-bit timestamp survives. Two directives with equal entries ask for the same. */
  lemma EntryTellsDirective(d: ActionDirective, other: ActionDirective)
    ensures var e := EntryOf(d);
            && e.fingerprint == d.certFingerprint && e.IsActive()
            && (e.action == 0 <==> d.actionType.Alert?) && (e.action == 1 <==> d.actionType.Renew?)
            && (e.action == 2 <==> d.actionType.Protect?) && (e.action == 3 <==> d.actionType.Isolate?)
            && (e.severity == 0 <==> d.severity.Low?) && (e.severity == 1 <==> d.severity.Medium?)
            && (e.severity == 2 <==> d.severity.High?) && (e.severity == 3 <==> d.severity.Critical?)
            && (d.actionType.Protect? ==> e.pinnedFp == d.actionType.pinnedFingerprint)
            && (d.createdNs.Some? && 0 <= d.createdNs.value < TWO_64 ==> e.createdTs == d.createdNs.value)
    ensures EntryOf(d) == EntryOf(other) ==>
              && d.certFingerprint == other.certFingerprint && d.severity == other.severity
              && RouteOf(d.actionType) == RouteOf(other.actionType)
              && (d.actionType.Protect? ==> d.actionType.pinnedFingerprint == other.actionType.pinnedFingerprint)
  {
  }

  // --- Attempts and backoff ---------------------------------------------------------------

  /** What a write attempt runs into, if anything: an injected transient fault, or the map's own
      capacity. */
  function AttemptError(t: ActionTable, limit: nat, fp: Fingerprint, fault: Option<string>): Option<MapWriteError> {
    if fault.Some? then Some(WriteFailed(fault.value))
    else if |t| >= limit && fp !in t then Some(MapAtCapacity(|t|, limit))
    else None
  }

  /** How many attempts fail before one succeeds; all of them if none does. */
  function Failures(t: ActionTable, limit: nat, fp: Fingerprint, faults: seq<Option<string>>): (n: nat)
    ensures n <= |faults|
    ensures n < |faults| ==> AttemptError(t, limit, fp, faults[n]).None?
    ensures forall i :: 0 <= i < n ==> AttemptError(t, limit, fp, faults[i]).Some?
  {
    if faults == [] || AttemptError(t, limit, fp, faults[0]).None? then 0
    else 1 + Failures(t, limit, fp, faults[1..])
  }

  /** The pause after failed attempt number `attempt`, in 64-bit arithmetic. */
  function DelayMs(baseMs: nat, attempt: nat): nat {
    Doubled(baseMs, attempt) % TWO_64
  }

  function Doubled(baseMs: nat, times: nat): nat {
    baseMs * Pow2(times)
  }

  function TotalDelayMs(baseMs: nat, pauses: nat): nat {
    if pauses == 0 then 0 else TotalDelayMs(baseMs, pauses - 1) + DelayMs(baseMs, pauses - 1)
  }

  /** No pause follows the last attempt allowed. */
  function Pauses(failures: nat, maxRetries: nat): nat {
    if failures == 0 || failures < maxRetries then failures else failures - 1
  }

  /** What n pauses take if each is exactly twice the one before: base * (2^n - 1). */
  function IdealMs(baseMs: nat, pauses: nat): nat {
    baseMs * (Pow2(pauses) - 1)
  }

  lemma IdealStep(baseMs: nat, pauses: nat)
    requires pauses >= 1
    ensures IdealMs(baseMs, pauses) == IdealMs(baseMs, pauses - 1) + Doubled(baseMs, pauses - 1)
    ensures Doubled(baseMs, pauses) == Doubled(baseMs, pauses - 1) + Doubled(baseMs, pauses - 1)
  {
  }

  lemma IdealStart(baseMs: nat)
    ensures IdealMs(baseMs, 0) == 0
  {
  }

  lemma {:induction false} TotalDelayBound(baseMs: nat, pauses: nat)
    ensures TotalDelayMs(baseMs, pauses) <= IdealMs(baseMs, pauses)
    ensures pauses >= 1 && Doubled(baseMs, pauses - 1) < TWO_64 ==>
              TotalDelayMs(baseMs, pauses) == IdealMs(baseMs, pauses)
  {
    hide IdealMs, Doubled;
    IdealStart(baseMs);
    if pauses > 0 {
      TotalDelayBound(baseMs, pauses - 1);
      IdealStep(baseMs, pauses);
      if pauses > 1 {
        IdealStep(baseMs, pauses - 1);
      }
    }
  }

  /** n pauses take base * (2^n - 1) ms in all, exactly if the longest of them fits in 64 bits. */
  lemma BackoffDoublesIffItFits(baseMs: nat, pauses: nat)
    requires pauses >= 1
    ensures TotalDelayMs(baseMs, pauses) == baseMs * (Pow2(pauses) - 1) <==> baseMs * Pow2(pauses - 1) < TWO_64
  {
    TotalDelayBound(baseMs, pauses - 1);
    TotalDelayBound(baseMs, pauses);
    IdealStep(baseMs, pauses);
  }

  // --- One write --------------------------------------------------------------------------

  datatype Written = Written(
    outcome: ExecutionOutcome,
    tables: Tables,
    notifications: seq<MapNotification>,
    sleptMs: nat)

  function Notify(c: Config, n: MapNotification): seq<MapNotification> {
    if c.hasNotifier then [n] else []
  }

  /** The service's own limits. They do not ask whether the key is already there. */
  predicate AtEntryLimit(c: Config, t: Tables, d: ActionDirective) {
    |t.Of(RouteOf(d.actionType))| >= c.maxEntriesPerMap
  }

  predicate AtMemoryCap(c: Config, t: Tables) {
    t.Total() * ENTRY_SIZE + ENTRY_SIZE > c.MemoryCap()
  }

  lemma MemoryCapInEntries(c: Config, t: Tables)
    ensures AtMemoryCap(c, t) <==> t.Total() >= c.EntryCap()
  {
  }

  /** faults[i] is the transient fault attempt i would meet. */
  function Write(c: Config, t: Tables, d: ActionDirective, faults: seq<Option<string>>): Written {
    var route := RouteOf(d.actionType);
    if AtEntryLimit(c, t, d) then
      Written(MapFull, t, Notify(c, MapIsFull(route.Name(), |t.Of(route)|)), 0)
    else if AtMemoryCap(c, t) then
      Written(MapFull, t, Notify(c, MapIsFull(route.Name(), t.Total())), 0)
    else
      var failures := Failures(t.Of(route), c.LimitOf(route), d.certFingerprint, faults);
      if failures < |faults| then
        Written(Success, t.With(route, t.Of(route)[d.certFingerprint := EntryOf(d)]), [],
                TotalDelayMs(c.retryBaseMs, failures))
      else
        var lastError := if faults == [] then None
                         else AttemptError(t.Of(route), c.LimitOf(route), d.certFingerprint, faults[|faults| - 1]);
        Written(Failed(lastError, |faults|), t,
                Notify(c, PermanentFailure(d, lastError, |faults|)),
                TotalDelayMs(c.retryBaseMs, Pauses(|faults|, |faults|)))
  }

  /** Each type of action has its map, and each map its name. */
  lemma RoutesByType(a: ActionType)
    ensures RouteOf(a) == AlertMap <==> a.Alert? || a.Renew?
    ensures RouteOf(a) == ProtectMap <==> a.Protect?
    ensures RouteOf(a) == IsolateMap <==> a.Isolate?
    ensures a.Alert? || a.Renew? ==> RouteOf(a).Name() == "action_alert"
    ensures a.Protect? ==> RouteOf(a).Name() == "action_protect"
    ensures a.Isolate? ==> RouteOf(a).Name() == "action_isolate"
  {
  }

  /** An entry takes 88 bytes, and the cap is in units of 2^20 bytes. */
  predicate NoRoom(c: Config, t: Tables, route: Route) {
    |t.Of(route)| >= c.maxEntriesPerMap
    || 88 * (|t.alert| + |t.protect| + |t.isolate| + 1) > c.maxTotalMemoryMb * 1_048_576
  }

  /** The map itself takes the key: it is there, or the map is below its capacity. */
  predicate MapTakes(c: Config, t: Tables, route: Route, fp: Fingerprint) {
    fp in t.Of(route) || |t.Of(route)| < c.LimitOf(route)
  }

  /** Main result on one write. It is refused exactly if its map or the memory has no room; otherwise
      it succeeds exactly if the map takes the key and one of the allowed attempts is free of faults.
      Success sets exactly the directive's key in exactly its map; anything else leaves all three
      maps alone and tells the notifier once. */
  lemma WriteOutcomes(c: Config, t: Tables, d: ActionDirective, faults: seq<Option<string>>)
    requires |faults| == c.maxRetries
    ensures var w, route, fp := Write(c, t, d, faults), RouteOf(d.actionType), d.certFingerprint;
            && (w.outcome.MapFull? <==> NoRoom(c, t, route))
            && (w.outcome.Success? <==> !NoRoom(c, t, route) && MapTakes(c, t, route, fp) && None in faults)
            && (forall r :: w.tables.Of(r) ==
                            if w.outcome.Success? && r == route then t.Of(r)[fp := EntryOf(d)] else t.Of(r))
            && |w.notifications| == (if c.hasNotifier && !w.outcome.Success? then 1 else 0)
            && (w.outcome.Failed? ==> w.outcome.attempts == c.maxRetries)
  {
    var route, fp := RouteOf(d.actionType), d.certFingerprint;
    MemoryCapInEntries(c, t);
    AttemptFailsIff(t.Of(route), c.LimitOf(route), fp, faults);
  }

  lemma AttemptFailsIff(t: ActionTable, limit: nat, fp: Fingerprint, faults: seq<Option<string>>)
    ensures Failures(t, limit, fp, faults) < |faults| <==> (fp in t || |t| < limit) && None in faults
    ensures Failures(t, limit, fp, faults) < |faults| ==>
              var n := Failures(t, limit, fp, faults);
              faults[n].None? && forall i :: 0 <= i < n ==> faults[i].Some?
  {
    var n := Failures(t, limit, fp, faults);
    if (fp in t || |t| < limit) && None in faults {
      var i :| 0 <= i < |faults| && faults[i] == None;
      assert AttemptError(t, limit, fp, faults[i]).None?;
    }
    if n < |faults| {
      assert AttemptError(t, limit, fp, faults[n]).None?;
      forall i | 0 <= i < n ensures faults[i].Some? {
        assert AttemptError(t, limit, fp, faults[i]).Some?;
      }
    }
  }

  /** What a failure says: the last attempt's fault, or else that the map is full; and what the
      notifier hears, if there is one. */
  lemma WriteSays(c: Config, t: Tables, d: ActionDirective, faults: seq<Option<string>>)
    requires |faults| == c.maxRetries
    ensures var w, route, m := Write(c, t, d, faults), RouteOf(d.actionType), t.Of(RouteOf(d.actionType));
            && (w.outcome.Failed? ==>
                  w.outcome.lastError ==
                  if faults == [] then None
                  else if faults[|faults| - 1].Some? then Some(WriteFailed(faults[|faults| - 1].value))
                  else Some(MapAtCapacity(|m|, c.LimitOf(route))))
            && (c.hasNotifier && w.outcome.Failed? ==>
                  w.notifications == [PermanentFailure(d, w.outcome.lastError, c.maxRetries)])
            && (c.hasNotifier && w.outcome.MapFull? ==>
                  w.notifications ==
                  [MapIsFull(route.Name(), if |m| >= c.maxEntriesPerMap then |m|
                                           else |t.alert| + |t.protect| + |t.isolate|)])
  {
    WriteOutcomes(c, t, d, faults);
  }

  /** With room by the service's own limits and one attempt without a fault, a directive for a key
      that is already there always goes through, full map or not, and the map does not grow. */
  lemma OverwriteAlwaysSucceeds(c: Config, t: Tables, d: ActionDirective, faults: seq<Option<string>>)
    requires |faults| == c.maxRetries && None in faults
    requires !NoRoom(c, t, RouteOf(d.actionType)) && d.certFingerprint in t.Of(RouteOf(d.actionType))
    ensures var w, route := Write(c, t, d, faults), RouteOf(d.actionType);
            && w.outcome == Success
            && w.tables.Of(route).Keys == t.Of(route).Keys
            && w.tables.Of(route)[d.certFingerprint] == EntryOf(d)
            && w.tables.Total() == t.Total()
  {
    WriteOutcomes(c, t, d, faults);
    var route := RouteOf(d.actionType);
    assert |t.Of(route)[d.certFingerprint := EntryOf(d)]| == |t.Of(route)|;
  }

  /** A write that goes through at attempt k, the first without a fault, pauses base * (2^k - 1) ms in
      all, exactly if its longest pause, if there is one, fits in 64 bits. */
  lemma SuccessDelay(c: Config, t: Tables, d: ActionDirective, faults: seq<Option<string>>, k: nat)
    requires |faults| == c.maxRetries && Write(c, t, d, faults).outcome.Success?
    requires k < |faults| && faults[k].None? && forall i :: 0 <= i < k ==> faults[i].Some?
    ensures var w, base := Write(c, t, d, faults), c.retryBaseMs;
            w.sleptMs == base * (Pow2(k) - 1) <==> k == 0 || base * Pow2(k - 1) < TWO_64
  {
    var route := RouteOf(d.actionType);
    AttemptFailsIff(t.Of(route), c.LimitOf(route), d.certFingerprint, faults);
    assert Failures(t.Of(route), c.LimitOf(route), d.certFingerprint, faults) == k;
    if k == 0 {
      IdealStart(c.retryBaseMs);
    } else {
      BackoffDoublesIffItFits(c.retryBaseMs, k);
    }
  }

  lemma {:induction false} IdealGrows(baseMs: nat, pauses: nat, most: nat)
    requires pauses <= most
    ensures IdealMs(baseMs, pauses) <= IdealMs(baseMs, most)
  {
    hide IdealMs, Doubled;
    if pauses < most {
      IdealGrows(baseMs, pauses, most - 1);
      IdealStep(baseMs, most);
    }
  }

  /** No write pauses for more than base * (2^(retries - 1) - 1) ms in all; one that fails for good
      pauses exactly that long, if and only if its longest pause, if there is any, fits in 64 bits. */
  lemma FailureDelay(c: Config, t: Tables, d: ActionDirective, faults: seq<Option<string>>)
    requires |faults| == c.maxRetries && c.maxRetries >= 1
    ensures var w, base, n := Write(c, t, d, faults), c.retryBaseMs, c.maxRetries;
            && w.sleptMs <= base * (Pow2(n - 1) - 1)
            && (w.outcome.Failed? ==>
                  (w.sleptMs == base * (Pow2(n - 1) - 1) <==> n == 1 || base * Pow2(n - 2) < TWO_64))
  {
    var route := RouteOf(d.actionType);
    var failures := Failures(t.Of(route), c.LimitOf(route), d.certFingerprint, faults);
    var most := c.maxRetries - 1;
    if most > 0 {
      BackoffDoublesIffItFits(c.retryBaseMs, most);
    }
    TotalDelayBound(c.retryBaseMs, Min(failures, most));
    IdealGrows(c.retryBaseMs, Min(failures, most), most);
    IdealStart(c.retryBaseMs);
    IdealGrows(c.retryBaseMs, 0, most);
  }

  // --- Runs -------------------------------------------------------------------------------

  /** What is asked of the maps: writes by the service, and removals by the expiry sweep. */
  datatype Request =
    | WriteTo(directive: ActionDirective, faults: seq<Option<string>>)
    | RemoveFrom(route: Route, fp: Fingerprint, fault: Option<string>)

  datatype Reply = Wrote(outcome: ExecutionOutcome) | Removed(result: Result<(), MapWriteError>)
  {
    predicate Succeeded() {
      match this
      case Wrote(outcome) => outcome.Success?
      case Removed(result) => result.Ok?
    }
  }

  function RemovalResult(fault: Option<string>): Result<(), MapWriteError> {
    if fault.Some? then Err(WriteFailed(fault.value)) else Ok(())
  }

  function WithoutEntry(t: Tables, route: Route, fp: Fingerprint): Tables {
    t.With(route, t.Of(route) - {fp})
  }

  datatype Service = Service(tables: Tables, replies: seq<Reply>, notifications: seq<MapNotification>)

  function Serve(c: Config, s: Service, r: Request): (s': Service)
    ensures |s'.replies| == |s.replies| + 1
  {
    match r
    case WriteTo(d, faults) =>
      var w := Write(c, s.tables, d, faults);
      Service(w.tables, s.replies + [Wrote(w.outcome)], s.notifications + w.notifications)
    case RemoveFrom(route, fp, fault) =>
      var result := RemovalResult(fault);
      Service(if result.Ok? then WithoutEntry(s.tables, route, fp) else s.tables,
              s.replies + [Removed(result)], s.notifications)
  }

  function Run(c: Config, requests: seq<Request>): (s: Service)
    ensures |s.replies| == |requests|
  {
    if requests == [] then Service(EMPTY, [], [])
    else Serve(c, Run(c, requests[..|requests| - 1]), requests[|requests| - 1])
  }

  /** The directive that stands for fp on this route: the latest written there with success, unless
      its entry has been removed since. */
  function Standing(requests: seq<Request>, replies: seq<Reply>, route: Route, fp: Fingerprint)
    : (d: Option<ActionDirective>)
    requires |replies| == |requests|
    ensures d.Some? ==> d.value.certFingerprint == fp && RouteOf(d.value.actionType) == route
  {
    if requests == [] then None
    else
      var n := |requests| - 1;
      var before := Standing(requests[..n], replies[..n], route, fp);
      if !replies[n].Succeeded() then before
      else
        match requests[n]
        case WriteTo(d, _) => if RouteOf(d.actionType) == route && d.certFingerprint == fp then Some(d) else before
        case RemoveFrom(r, k, _) => if r == route && k == fp then None else before
  }

  ghost predicate WithinLimits(c: Config, t: Tables) {
    && t.Total() <= c.EntryCap()
    && t.Total() * ENTRY_SIZE <= c.MemoryCap()
    && forall r: Route :: |t.Of(r)| <= c.LimitOf(r) && |t.Of(r)| <= c.maxEntriesPerMap
  }

  lemma WriteKeepsLimits(c: Config, t: Tables, d: ActionDirective, faults: seq<Option<string>>)
    requires WithinLimits(c, t)
    ensures WithinLimits(c, Write(c, t, d, faults).tables)
  {
    MemoryCapInEntries(c, t);
    var w, route := Write(c, t, d, faults), RouteOf(d.actionType);
    if w.outcome.Success? {
      assert |w.tables.Of(route)| <= |t.Of(route)| + 1;
      assert w.tables.Total() - t.Total() == |w.tables.Of(route)| - |t.Of(route)|;
      forall r: Route ensures |w.tables.Of(r)| <= c.LimitOf(r) && |w.tables.Of(r)| <= c.maxEntriesPerMap {
        assert |t.Of(r)| <= c.LimitOf(r);
      }
    }
  }

  lemma RemovalKeepsLimits(c: Config, t: Tables, route: Route, fp: Fingerprint)
    requires WithinLimits(c, t)
    ensures WithinLimits(c, WithoutEntry(t, route, fp))
  {
    var t' := WithoutEntry(t, route, fp);
    assert |t.Of(route) - {fp}| <= |t.Of(route)| by {
      assert (t.Of(route) - {fp}).Keys <= t.Of(route).Keys;
      SubsetSize((t.Of(route) - {fp}).Keys, t.Of(route).Keys);
    }
    forall r: Route ensures |t'.Of(r)| <= |t.Of(r)| && |t.Of(r)| <= c.LimitOf(r) && |t.Of(r)| <= c.maxEntriesPerMap {
    }
    assert t'.Total() <= t.Total();
  }

  /** One request at a time never exceeds the memory cap, the service's limit per map, or a map's
      own capacity. */
  lemma {:induction false} SequentialRunsKeepLimits(c: Config, requests: seq<Request>)
    ensures WithinLimits(c, Run(c, requests).tables)
  {
    hide WithinLimits, Write;
    if requests == [] {
      EmptyWithinLimits(c);
    } else {
      var n := |requests| - 1;
      var before := Run(c, requests[..n]);
      SequentialRunsKeepLimits(c, requests[..n]);
      match requests[n]
      case WriteTo(d, faults) => WriteKeepsLimits(c, before.tables, d, faults);
      case RemoveFrom(route, fp, _) => RemovalKeepsLimits(c, before.tables, route, fp);
    }
  }

  lemma EmptyWithinLimits(c: Config)
    ensures WithinLimits(c, EMPTY)
  {
    assert EMPTY.Total() == 0;
  }

  ghost predicate Holds(t: ActionTable, fp: Fingerprint, d: Option<ActionDirective>) {
    if d.None? then fp !in t else fp in t && t[fp] == EntryOf(d.value)
  }

  lemma ServeAt(c: Config, s: Service, r: Request, route: Route, fp: Fingerprint, d: Option<ActionDirective>)
    requires Holds(s.tables.Of(route), fp, d)
    ensures var s' := Serve(c, s, r);
            var reply := s'.replies[|s.replies|];
            Holds(s'.tables.Of(route), fp,
                  if !reply.Succeeded() then d
                  else if r.WriteTo? then
                    if RouteOf(r.directive.actionType) == route && r.directive.certFingerprint == fp
                    then Some(r.directive) else d
                  else if r.route == route && r.fp == fp then None else d)
  {
  }

  /** After any run of writes and removals each map holds, for each key, the entry of the last
      directive written there with success and not removed since, and nothing else. */
  lemma {:induction false} MapsHoldWhatStands(c: Config, requests: seq<Request>, route: Route, fp: Fingerprint)
    ensures var s := Run(c, requests);
            Holds(s.tables.Of(route), fp, Standing(requests, s.replies, route, fp))
  {
    if requests == [] {
    } else {
      hide Holds, Serve;
      var n := |requests| - 1;
      var before := Run(c, requests[..n]);
      MapsHoldWhatStands(c, requests[..n], route, fp);
      ServeAt(c, before, requests[n], route, fp, Standing(requests[..n], before.replies, route, fp));
      ServeKeepsReplies(c, before, requests[n]);
    }
  }

  lemma ServeKeepsReplies(c: Config, s: Service, r: Request)
    ensures Serve(c, s, r).replies[..|s.replies|] == s.replies
  {
  }

  // --- From a written directive to a dropped packet ---------------------------------------

  lemma IsolateVerdict(c: Config, requests: seq<Request>, shown: Fingerprint, drops: bool)
    requires var t := Run(c, requests).tables.isolate; drops <==> shown in t && t[shown].IsActive()
    ensures drops <==> Standing(requests, Run(c, requests).replies, IsolateMap, shown).Some?
  {
    hide Run, Standing;
    MapsHoldWhatStands(c, requests, IsolateMap, shown);
  }

  lemma ProtectVerdict(c: Config, requests: seq<Request>, shown: Fingerprint, drops: bool)
    requires var t := Run(c, requests).tables.protect; drops <==> shown in t && t[shown].pinnedFp != shown
    ensures var stands := Standing(requests, Run(c, requests).replies, ProtectMap, shown);
            drops <==> stands.Some? && stands.value.actionType.pinnedFingerprint != shown
  {
    hide Run, Standing;
    MapsHoldWhatStands(c, requests, ProtectMap, shown);
  }

  /** A packet that shows a byte of its leaf certificate is dropped by the isolate program exactly
      if an isolate directive for the bytes shown has been written with success and not removed
      since. */
  lemma IsolationReachesTheWire(c: Config, requests: seq<Request>, f: Wire.Frame, p: Wire.Bytes)
    requires f.Valid() && Collector.Arrived(p, Wire.PutFrame(f)) && |p| > f.LeafOffset()
    ensures KernelExecutor.IsolateShoots(Run(c, requests).tables.isolate, p) <==>
            Standing(requests, Run(c, requests).replies, IsolateMap, Collector.Shown(f, p)).Some?
    ensures var stands := Standing(requests, Run(c, requests).replies, IsolateMap, Collector.Shown(f, p));
            stands.Some? ==> stands.value.actionType.Isolate? && stands.value.certFingerprint == Collector.Shown(f, p)
  {
    var t := Run(c, requests).tables.isolate;
    KernelExecutor.IsolateOnTheWire(t, f, p);
    IsolateVerdict(c, requests, Collector.Shown(f, p), KernelExecutor.IsolateShoots(t, p));
  }

  /** It is dropped by the protect program exactly if the protect directive that stands for the
      bytes shown pins other bytes. */
  lemma ProtectionReachesTheWire(c: Config, requests: seq<Request>, f: Wire.Frame, p: Wire.Bytes)
    requires f.Valid() && Collector.Arrived(p, Wire.PutFrame(f)) && |p| > f.LeafOffset()
    ensures var stands := Standing(requests, Run(c, requests).replies, ProtectMap, Collector.Shown(f, p));
            KernelExecutor.ProtectShoots(Run(c, requests).tables.protect, p) <==>
            stands.Some? && stands.value.actionType.pinnedFingerprint != Collector.Shown(f, p)
  {
    var t := Run(c, requests).tables.protect;
    KernelExecutor.ProtectOnTheWire(t, f, p);
    ProtectVerdict(c, requests, Collector.Shown(f, p), KernelExecutor.ProtectShoots(t, p));
  }

  // --- The service as an object -----------------------------------------------------------

  class ActionMap {
    var entries: ActionTable
    const maxEntries: nat

    constructor (maxEntries: nat)
      ensures entries == map[] && this.maxEntries == maxEntries
    {
      this.entries, this.maxEntries := map[], maxEntries;
    }

    method WriteEntry(fp: Fingerprint, entry: BpfActionEntry, fault: Option<string>)
      returns (r: Result<(), MapWriteError>)
      modifies this
      ensures r.Ok? <==> fault.None? && (fp in old(entries) || |old(entries)| < maxEntries)
      ensures var error := AttemptError(old(entries), maxEntries, fp, fault);
              && r == (if error.Some? then Err(error.value) else Ok(()))
              && entries == if error.Some? then old(entries) else old(entries)[fp := entry]
    {
      if fault.Some? {
        return Err(WriteFailed(fault.value));
      }
      if |entries| >= maxEntries && fp !in entries {
        return Err(MapAtCapacity(|entries|, maxEntries));
      }
      entries := entries[fp := entry];
      return Ok(());
    }

    method RemoveEntry(fp: Fingerprint, fault: Option<string>) returns (r: Result<(), MapWriteError>)
      modifies this
      ensures r.Ok? <==> fault.None?
      ensures r == RemovalResult(fault)
      ensures entries == if fault.Some? then old(entries) else old(entries) - {fp}
    {
      if fault.Some? {
        return Err(WriteFailed(fault.value));
      }
      entries := entries - {fp};
      return Ok(());
    }
  }

  class MapWriterService {
    const config: Config
    const alertMap: ActionMap
    const protectMap: ActionMap
    const isolateMap: ActionMap
    var notifications: seq<MapNotification>
    var sleptMs: nat

    ghost predicate Valid() {
      && alertMap != protectMap && alertMap != isolateMap && protectMap != isolateMap
      && alertMap.maxEntries == config.alertLimit
      && protectMap.maxEntries == config.protectLimit
      && isolateMap.maxEntries == config.isolateLimit
    }

    ghost function Contents(): Tables
      reads alertMap, protectMap, isolateMap
    {
      Tables(alertMap.entries, protectMap.entries, isolateMap.entries)
    }

    constructor (config: Config)
      ensures Valid() && fresh(alertMap) && fresh(protectMap) && fresh(isolateMap)
      ensures this.config == config && Contents() == EMPTY && notifications == [] && sleptMs == 0
    {
      this.config := config;
      alertMap := new ActionMap(config.alertLimit);
      protectMap := new ActionMap(config.protectLimit);
      isolateMap := new ActionMap(config.isolateLimit);
      notifications, sleptMs := [], 0;
    }

    method TotalEntryCount() returns (n: nat)
      ensures n == Contents().Total()
    {
      var alert := |alertMap.entries|;
      var protect := |protectMap.entries|;
      var isolate := |isolateMap.entries|;
      return alert + protect + isolate;
    }

    method SelectMap(a: ActionType) returns (m: ActionMap)
      requires Valid()
      ensures m == match RouteOf(a)
                   case AlertMap => alertMap
                   case ProtectMap => protectMap
                   case IsolateMap => isolateMap
    {
      match a
      case Alert => m := alertMap;
      case Renew => m := alertMap;
      case Protect(_, _) => m := protectMap;
      case Isolate(_) => m := isolateMap;
    }

    method Tell(n: MapNotification)
      modifies this`notifications
      ensures notifications == old(notifications) + Notify(config, n)
    {
      if config.hasNotifier {
        notifications := notifications + [n];
      }
    }

    /** Write to one map, pausing between attempts; afterwards the map has the entry or is as it
        was, and failures tells how many attempts did not succeed. */
    method WriteWithRetries(target: ActionMap, fp: Fingerprint, entry: BpfActionEntry, faults: seq<Option<string>>)
      returns (failures: nat, lastError: Option<MapWriteError>)
      requires |faults| == config.maxRetries
      modifies this`sleptMs, target
      ensures failures == Failures(old(target.entries), target.maxEntries, fp, faults)
      ensures failures < config.maxRetries ==> target.entries == old(target.entries)[fp := entry]
      ensures failures == config.maxRetries ==> target.entries == old(target.entries)
      ensures failures == config.maxRetries ==>
                lastError == if faults == [] then None
                             else AttemptError(old(target.entries), target.maxEntries, fp, faults[|faults| - 1])
      ensures sleptMs == old(sleptMs) + TotalDelayMs(config.retryBaseMs, Pauses(failures, config.maxRetries))
    {
      failures, lastError := 0, None;
      while failures < config.maxRetries
        invariant failures <= Failures(old(target.entries), target.maxEntries, fp, faults)
        invariant target.entries == old(target.entries)
        invariant lastError == if failures == 0 then None
                               else AttemptError(old(target.entries), target.maxEntries, fp, faults[failures - 1])
        invariant sleptMs == old(sleptMs) + TotalDelayMs(config.retryBaseMs, Pauses(failures, config.maxRetries))
      {
        var r := target.WriteEntry(fp, entry, faults[failures]);
        if r.Ok? {
          return;
        }
        lastError := Some(r.error);
        if failures < config.maxRetries - 1 {
          sleptMs := sleptMs + config.retryBaseMs * Pow2(failures) % TWO_64;
        }
        failures := failures + 1;
      }
    }

    method WriteDirective(d: ActionDirective, faults: seq<Option<string>>) returns (outcome: ExecutionOutcome)
      requires Valid() && |faults| == config.maxRetries
      modifies this, alertMap, protectMap, isolateMap
      ensures var w := Write(config, old(Contents()), d, faults);
              && outcome == w.outcome
              && Contents() == w.tables
              && notifications == old(notifications) + w.notifications
              && sleptMs == old(sleptMs) + w.sleptMs
    {
      var target := SelectMap(d.actionType);
      var name := RouteOf(d.actionType).Name();
      if |target.entries| >= config.maxEntriesPerMap {
        Tell(MapIsFull(name, |target.entries|));
        return MapFull;
      }
      var total := TotalEntryCount();
      if total * ENTRY_SIZE + ENTRY_SIZE > config.MemoryCap() {
        Tell(MapIsFull(name, total));
        return MapFull;
      }
      var failures, lastError := WriteWithRetries(target, d.certFingerprint, EntryOf(d), faults);
      if failures < config.maxRetries {
        return Success;
      }
      Tell(PermanentFailure(d, lastError, config.maxRetries));
      return Failed(lastError, config.maxRetries);
    }
  }
}
