/** Crash and reload: when rebuilding the cache from ORDER BY last_seen DESC LIMIT capacity is
    invisible, and exactly when it is not. */
module Restart {
  import opened Common
  import opened Lru
  import opened Dedup
  import S = Storage

  /** An engine's life: events handled, and restarts that reload some listing of the store. */
  datatype Op = Event(input: Input) | Reload(listing: seq<Fingerprint>)

  function Apply(capacity: nat, s: EngineState, op: Op): EngineState {
    match op
    case Event(i) => Handle(capacity, s, i)
    case Reload(listing) => s.(cache := listing)
  }

  function Life(capacity: nat, ops: seq<Op>): EngineState {
    if ops == [] then START
    else Apply(capacity, Life(capacity, ops[..|ops| - 1]), ops[|ops| - 1])
  }

  /** Every reload got an answer the store could have given. */
  ghost predicate Legal(capacity: nat, ops: seq<Op>) {
    ops == [] ||
    var init, op := ops[..|ops| - 1], ops[|ops| - 1];
    Legal(capacity, init) &&
    (op.Reload? ==> S.IsRecentListing(Life(capacity, init).table, capacity, op.listing))
  }

  /** The stamp an event leaves in its row: the clock for a duplicate, its own stamp otherwise. */
  function Stamp(s: EngineState, i: Input): int {
    if Key(i) in s.cache then i.now else i.event.row.lastSeen
  }

  /** The stamp about to be written is later than every other row's. */
  predicate FreshStamp(s: EngineState, i: Input) {
    forall fp | fp in s.table && fp != Key(i) :: s.table[fp].lastSeen < Stamp(s, i)
  }

  predicate Fresh(capacity: nat, ops: seq<Op>) {
    ops == [] ||
    var init, op := ops[..|ops| - 1], ops[|ops| - 1];
    Fresh(capacity, init) && (op.Event? ==> FreshStamp(Life(capacity, init), op.input))
  }

  function EventsOf(ops: seq<Op>): seq<Input> {
    if ops == [] then []
    else
      var init, op := ops[..|ops| - 1], ops[|ops| - 1];
      if op.Event? then EventsOf(init) + [op.input] else EventsOf(init)
  }

  // --- The store in order of last_seen ----------------------------------------------------

  function LaterStamp(t: S.CertTable): (Fingerprint, Fingerprint) -> bool {
    (x, y) => x in t && y in t && t[x].lastSeen > t[y].lastSeen
  }

  /** rec lists the table's keys with strictly decreasing last-seen stamps. */
  ghost predicate StrictlyLatestFirst(t: S.CertTable, rec: seq<Fingerprint>) {
    NoDup(rec) && SetOf(rec) == t.Keys && Sorted(rec, LaterStamp(t))
  }

  lemma StampsOrdered(t: S.CertTable, rec: seq<Fingerprint>, i: nat, j: nat)
    requires StrictlyLatestFirst(t, rec) && i <= j < |rec|
    ensures rec[i] in t && rec[j] in t
    ensures i < j ==> t[rec[i]].lastSeen > t[rec[j]].lastSeen
  {
    assert rec[i] in SetOf(rec) && rec[j] in SetOf(rec);
  }

  lemma NextIsLatestLeft(t: S.CertTable, rec: seq<Fingerprint>, limit: nat, l: seq<Fingerprint>, i: nat)
    requires StrictlyLatestFirst(t, rec) && S.IsRecentListing(t, limit, l)
    requires i < |l| && i < |rec| && forall p :: 0 <= p < i ==> l[p] == rec[p]
    ensures rec[i] in t && l[i] in t && t[l[i]].lastSeen >= t[rec[i]].lastSeen
  {
    StampsOrdered(t, rec, i, i);
    if rec[i] in l {
      var p :| 0 <= p < |l| && l[p] == rec[i];
      assert p >= i;
    }
  }

  lemma ListingNextAgrees(t: S.CertTable, rec: seq<Fingerprint>, limit: nat, l: seq<Fingerprint>, i: nat)
    requires StrictlyLatestFirst(t, rec) && S.IsRecentListing(t, limit, l)
    requires i < |l| && i < |rec| && forall p :: 0 <= p < i ==> l[p] == rec[p]
    ensures l[i] == rec[i]
  {
    assert l[i] in SetOf(rec);
    var j :| 0 <= j < |rec| && rec[j] == l[i];
    assert i <= j;
    NextIsLatestLeft(t, rec, limit, l, i);
    StampsOrdered(t, rec, i, j);
  }

  lemma {:induction false} ListingAgreesUpTo(t: S.CertTable, rec: seq<Fingerprint>, limit: nat,
                                             l: seq<Fingerprint>, n: nat)
    requires StrictlyLatestFirst(t, rec) && S.IsRecentListing(t, limit, l)
    requires n <= |l| && n <= |rec|
    ensures forall p :: 0 <= p < n ==> l[p] == rec[p]
  {
    if n == 0 {
    } else {
      ListingAgreesUpTo(t, rec, limit, l, n - 1);
      ListingNextAgrees(t, rec, limit, l, n - 1);
    }
  }

  /** With distinct stamps the query has one answer. */
  lemma ListingIsUnique(t: S.CertTable, rec: seq<Fingerprint>, limit: nat, l: seq<Fingerprint>)
    requires StrictlyLatestFirst(t, rec) && S.IsRecentListing(t, limit, l)
    ensures l == Take(rec, limit)
  {
    NoDupCardinality(rec);
    assert |t| == |t.Keys|;
    ListingAgreesUpTo(t, rec, limit, l, |l|);
  }

  lemma {:induction false} ListingExists(t: S.CertTable, limit: nat) returns (l: seq<Fingerprint>)
    ensures S.IsRecentListing(t, limit, l)
    decreases limit
  {
    if limit == 0 || t == map[] {
      l := [];
    } else {
      var first := S.LatestExists(t, t.Keys);
      l := ListingStartingWith(t, limit, first);
    }
  }

  /** Any row of maximal stamp may come first. */
  lemma {:induction false} ListingStartingWith(t: S.CertTable, limit: nat, first: Fingerprint)
    returns (l: seq<Fingerprint>)
    requires limit >= 1 && first in t && forall x :: x in t ==> t[x].lastSeen <= t[first].lastSeen
    ensures S.IsRecentListing(t, limit, l) && l[0] == first
    decreases limit, 0
  {
    var rest := t - {first};
    var tail := ListingExists(rest, limit - 1);
    assert t == rest[first := t[first]];
    l := [first] + tail;
    assert forall x :: x in l <==> x == first || x in tail;
    assert forall x :: x in t && x != first ==> x in rest;
  }

  // --- Main results -----------------------------------------------------------------------

  /** The live cache is what any reload would produce. */
  ghost predicate InSync(capacity: nat, s: EngineState, rec: seq<Fingerprint>) {
    s.cache == Take(rec, capacity) && StrictlyLatestFirst(s.table, rec)
  }

  lemma PrependFresh(t: S.CertTable, t': S.CertTable, rec: seq<Fingerprint>, k: Fingerprint)
    requires StrictlyLatestFirst(t, rec) && t'.Keys == t.Keys + {k}
    requires forall x :: x in t && x != k ==> t'[x] == t[x] && t[x].lastSeen < t'[k].lastSeen
    ensures StrictlyLatestFirst(t', [k] + Without(rec, k))
  {
    var w := Without(rec, k);
    WithoutSet(rec, k);
    Prepend(k, w);
    WithoutKeepsSorted(rec, k, LaterStamp(t));
    forall x | x in w ensures x in t && x != k {
      assert x in SetOf(w);
    }
    SortedCons(k, w, LaterStamp(t'));
  }

  lemma FreshEventKeepsSync(capacity: nat, s: EngineState, rec: seq<Fingerprint>, i: Input)
    requires capacity >= 1 && InSync(capacity, s, rec) && FreshStamp(s, i)
    ensures InSync(capacity, Handle(capacity, s, i), [Key(i)] + Without(rec, Key(i)))
  {
    TouchOfTake(rec, Key(i), capacity);
    assert forall x :: x in s.cache ==> x in SetOf(rec);
    PrependFresh(s.table, Handle(capacity, s, i).table, rec, Key(i));
  }

  /** Restart is invisible: if every write left the latest stamp, then however often the engine
      crashed and reloaded, its cache, its store and every forwarding decision are those of the
      uninterrupted run, and the cache is the store's top `capacity` by last_seen. */
  lemma {:induction false} RestartsAreInvisible(capacity: nat, ops: seq<Op>)
    requires capacity >= 1 && Legal(capacity, ops) && Fresh(capacity, ops)
    ensures Life(capacity, ops) == Run(capacity, EventsOf(ops))
    ensures InSync(capacity, Life(capacity, ops), ByRecency(Keys(EventsOf(ops))))
  {
    if ops == [] {
    } else {
      var init, op := ops[..|ops| - 1], ops[|ops| - 1];
      RestartsAreInvisible(capacity, init);
      var s := Life(capacity, init);
      match op {
        case Event(i) =>
          FreshEventKeepsSync(capacity, s, ByRecency(Keys(EventsOf(init))), i);
          KeysSplit(EventsOf(ops));
          assert EventsOf(ops)[..|EventsOf(init)|] == EventsOf(init);
        case Reload(listing) =>
          ListingIsUnique(s.table, ByRecency(Keys(EventsOf(init))), capacity, listing);
      }
    }
  }

  /** Restarts never make the store miscount: with any listings reloaded and any stamps, stale ones
      included, every row counts exactly its events. Re-forwarded records cost nothing. */
  lemma {:induction false} RestartsNeverMiscount(capacity: nat, ops: seq<Op>)
    requires Legal(capacity, ops)
    ensures StoreCounts(EventsOf(ops), Life(capacity, ops))
  {
    if ops == [] {
    } else {
      var init := ops[..|ops| - 1];
      RestartsNeverMiscount(capacity, init);
      match ops[|ops| - 1]
      case Event(i) => HandleKeepsCounts(capacity, EventsOf(init), Life(capacity, init), i);
      case Reload(listing) =>
    }
  }

  function AsOps(inputs: seq<Input>): (ops: seq<Op>)
    ensures |ops| == |inputs|
    ensures forall i :: 0 <= i < |ops| ==> ops[i] == Event(inputs[i])
  {
    seq(|inputs|, i requires 0 <= i < |inputs| => Event(inputs[i]))
  }

  lemma {:induction false} LifeWithoutReloads(capacity: nat, inputs: seq<Input>)
    ensures Life(capacity, AsOps(inputs)) == Run(capacity, inputs)
    ensures Legal(capacity, AsOps(inputs)) && EventsOf(AsOps(inputs)) == inputs
  {
    if inputs == [] {
    } else {
      hide Handle, S.IsRecentListing, AsOps;
      var init, i := inputs[..|inputs| - 1], inputs[|inputs| - 1];
      LifeWithoutReloads(capacity, init);
      assert AsOps(inputs)[..|inputs| - 1] == AsOps(init);
      assert AsOps(inputs)[|inputs| - 1] == Event(i);
      assert inputs == init + [i];
    }
  }

  /** A crash at any point of the run would reload exactly the live cache. */
  ghost predicate ReloadAlwaysFaithful(capacity: nat, inputs: seq<Input>) {
    forall n, l :: 0 <= n <= |inputs| && S.IsRecentListing(Run(capacity, inputs[..n]).table, capacity, l)
      ==> l == Run(capacity, inputs[..n]).cache
  }

  /** Exactness: whatever the capacity, a crash can never be noticed if and only if each event,
      when handled, left a stamp later than every other row's. */
  lemma ReloadFaithfulIffFresh(capacity: nat, inputs: seq<Input>)
    requires capacity >= 1
    ensures ReloadAlwaysFaithful(capacity, inputs) <==> Fresh(capacity, AsOps(inputs))
  {
    if Fresh(capacity, AsOps(inputs)) {
      forall n, l | 0 <= n <= |inputs| && S.IsRecentListing(Run(capacity, inputs[..n]).table, capacity, l)
        ensures l == Run(capacity, inputs[..n]).cache
      {
        FreshPrefix(capacity, inputs, n);
        LifeWithoutReloads(capacity, inputs[..n]);
        RestartsAreInvisible(capacity, AsOps(inputs[..n]));
        ListingIsUnique(Run(capacity, inputs[..n]).table, ByRecency(Keys(inputs[..n])), capacity, l);
      }
    }
    if ReloadAlwaysFaithful(capacity, inputs) {
      FaithfulImpliesFresh(capacity, inputs);
    }
  }

  lemma {:induction false} FreshPrefix(capacity: nat, inputs: seq<Input>, n: nat)
    requires n <= |inputs| && Fresh(capacity, AsOps(inputs))
    ensures Fresh(capacity, AsOps(inputs[..n]))
    decreases |inputs|
  {
    if n == |inputs| {
      assert inputs[..n] == inputs;
    } else {
      var init := inputs[..|inputs| - 1];
      assert AsOps(inputs)[..|inputs| - 1] == AsOps(init);
      FreshPrefix(capacity, init, n);
      assert init[..n] == inputs[..n];
    }
  }

  lemma FaithfulPrefix(capacity: nat, init: seq<Input>, i: Input)
    requires ReloadAlwaysFaithful(capacity, init + [i])
    ensures ReloadAlwaysFaithful(capacity, init)
  {
    hide Run;
    forall n, l | 0 <= n <= |init| && S.IsRecentListing(Run(capacity, init[..n]).table, capacity, l)
      ensures l == Run(capacity, init[..n]).cache
    {
      assert (init + [i])[..n] == init[..n];
    }
  }

  lemma FaithfulMeansFreshStamp(capacity: nat, init: seq<Input>, i: Input)
    requires capacity >= 1 && ReloadAlwaysFaithful(capacity, init + [i])
    ensures FreshStamp(Run(capacity, init), i)
  {
    hide Run, FreshStamp;
    assert (init + [i])[..|init + [i]|] == init + [i];
    if !FreshStamp(Run(capacity, init), i) {
      var l := StaleStampShows(capacity, init, i);
    }
  }

  lemma {:induction false} FaithfulImpliesFresh(capacity: nat, inputs: seq<Input>)
    requires capacity >= 1 && ReloadAlwaysFaithful(capacity, inputs)
    ensures Fresh(capacity, AsOps(inputs))
  {
    hide Run, FreshStamp, ReloadAlwaysFaithful;
    if inputs == [] {
    } else {
      var init, i := inputs[..|inputs| - 1], inputs[|inputs| - 1];
      assert inputs == init + [i];
      FaithfulPrefix(capacity, init, i);
      FaithfulImpliesFresh(capacity, init);
      assert AsOps(inputs)[..|inputs| - 1] == AsOps(init);
      LifeWithoutReloads(capacity, init);
      FaithfulMeansFreshStamp(capacity, init, i);
    }
  }

  /** If k is not strictly the latest row, some listing does not start with it. */
  lemma ListingNotStartingWith(t: S.CertTable, limit: nat, k: Fingerprint, q: Fingerprint)
    returns (l: seq<Fingerprint>)
    requires limit >= 1 && k in t && q in t && q != k && t[q].lastSeen >= t[k].lastSeen
    ensures S.IsRecentListing(t, limit, l) && |l| > 0 && l[0] != k
  {
    assert q in t.Keys - {k};
    var first := S.LatestExists(t, t.Keys - {k});
    l := ListingStartingWith(t, limit, first);
    assert |t| == |t.Keys - {k}| + 1;
  }

  /** After a stale write the store may list some other row first. */
  lemma StaleStampShows(capacity: nat, init: seq<Input>, i: Input) returns (l: seq<Fingerprint>)
    requires capacity >= 1 && !FreshStamp(Run(capacity, init), i)
    ensures S.IsRecentListing(Run(capacity, init + [i]).table, capacity, l)
    ensures l != Run(capacity, init + [i]).cache
  {
    var s := Run(capacity, init);
    assert (init + [i])[..|init|] == init;
    var s' := Handle(capacity, s, i);
    CachedHaveRows(capacity, init);
    var q :| q in s.table && q != Key(i) && s.table[q].lastSeen >= Stamp(s, i);
    l := ListingNotStartingWith(s'.table, capacity, Key(i), q);
  }

  lemma CachedHaveRows(capacity: nat, inputs: seq<Input>)
    ensures forall fp :: fp in Run(capacity, inputs).cache ==> fp in Run(capacity, inputs).table
  {
    StoreCountsEveryEvent(capacity, inputs);
  }

  function LatestStamp(i: Input): int {
    Max(i.event.row.lastSeen, i.now)
  }

  function EarliestStamp(i: Input): int {
    Min(i.event.row.lastSeen, i.now)
  }

  /** Stamps strictly increase in handling order, the reader's and the clock's alike. */
  predicate StampsIncrease(inputs: seq<Input>) {
    forall i, j :: 0 <= i < j < |inputs| ==> LatestStamp(inputs[i]) < EarliestStamp(inputs[j])
  }

  ghost predicate StampedBefore(t: S.CertTable, limit: int) {
    forall fp :: fp in t ==> t[fp].lastSeen <= limit
  }

  lemma LaterEventIsFresh(capacity: nat, s: EngineState, i: Input, limit: int)
    requires StampedBefore(s.table, limit) && limit < EarliestStamp(i)
    requires forall fp :: fp in s.cache ==> fp in s.table
    ensures FreshStamp(s, i)
    ensures StampedBefore(Handle(capacity, s, i).table, LatestStamp(i))
  {
  }

  lemma StampsIncreasePrefix(inputs: seq<Input>)
    requires StampsIncrease(inputs) && inputs != []
    ensures var n := |inputs| - 1;
            && StampsIncrease(inputs[..n])
            && (n > 0 ==> LatestStamp(inputs[n - 1]) < EarliestStamp(inputs[n]))
  {
  }

  /** Strictly increasing stamps are enough for restarts to be invisible. */
  lemma {:induction false} IncreasingStampsAreFresh(capacity: nat, inputs: seq<Input>)
    requires StampsIncrease(inputs)
    ensures Fresh(capacity, AsOps(inputs))
    ensures inputs != [] ==> StampedBefore(Run(capacity, inputs).table, LatestStamp(inputs[|inputs| - 1]))
  {
    if inputs == [] {
    } else {
      var n := |inputs| - 1;
      var init, i := inputs[..n], inputs[n];
      StampsIncreasePrefix(inputs);
      IncreasingStampsAreFresh(capacity, init);
      assert AsOps(inputs)[..n] == AsOps(init);
      LifeWithoutReloads(capacity, init);
      CachedHaveRows(capacity, init);
      var limit := if init == [] then EarliestStamp(i) - 1 else LatestStamp(init[n - 1]);
      LaterEventIsFresh(capacity, Run(capacity, init), i, limit);
    }
  }

  /** Not all runs are: an event stamped by the reader before, but handled after, a duplicate of
      another certificate is a case in point. A crash then loses the newer cache entry, and the
      certificate is forwarded again. */
  lemma LateStampShowsRestart(a: Fingerprint, b: Fingerprint)
    requires a != b
    ensures var row := stamp => S.CertRow(1, stamp, 1, None, None);
            var inputs := [Input(S.CertificateMetadata(a, row(1)), 1),
                           Input(S.CertificateMetadata(a, row(2)), 10),
                           Input(S.CertificateMetadata(b, row(5)), 11)];
            && Run(1, inputs).cache == [b]
            && S.IsRecentListing(Run(1, inputs).table, 1, [a])
            && forall l :: S.IsRecentListing(Run(1, inputs).table, 1, l) ==> l == [a]
  {
    var row := stamp => S.CertRow(1, stamp, 1, None, None);
    var i1 := Input(S.CertificateMetadata(a, row(1)), 1);
    var i2 := Input(S.CertificateMetadata(a, row(2)), 10);
    var i3 := Input(S.CertificateMetadata(b, row(5)), 11);
    assert [i1, i2, i3][..2] == [i1, i2] && [i1, i2][..1] == [i1] && [i1][..0] == [];
    var s1 := Handle(1, START, i1);
    assert Run(1, [i1]) == s1 && s1.cache == [a];
    var s2 := Handle(1, s1, i2);
    assert Run(1, [i1, i2]) == s2 && s2.cache == [a];
    var s3 := Handle(1, s2, i3);
    assert Run(1, [i1, i2, i3]) == s3 && s3.cache == [b];
    var t := s3.table;
    assert t.Keys == {a, b} && t[a].lastSeen == 10 && t[b].lastSeen == 5;
    assert |t.Keys| == 2;
    forall l | S.IsRecentListing(t, 1, l) ensures l == [a] {
      assert l[0] in t;
      assert l == [l[0]];
    }
  }
}
