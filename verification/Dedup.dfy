/** The deduplication engine: an LRU cache of fingerprints in front of the certificate table.
    Runs are folded over pure states; the engine object at the end takes exactly those steps. */
module Dedup {
  import opened Common
  import opened Lru
  import S = Storage

  const DEFAULT_CACHE_CAPACITY: nat := 100_000

  // --- Specification of runs --------------------------------------------------------------

  /** One event off the input channel: the metadata, stamped by the reader, and the clock when
      the engine gets to handle it. */
  datatype Input = Input(event: S.CertificateMetadata, now: int)

  /** Cache order, certificate table, and for each event so far whether it was forwarded. */
  datatype EngineState = EngineState(cache: seq<Fingerprint>, table: S.CertTable, forwarded: seq<bool>)

  const START := EngineState([], map[], [])

  function Key(i: Input): Fingerprint {
    i.event.fingerprint
  }

  function Handle(capacity: nat, s: EngineState, i: Input): EngineState {
    var cache := Touch(s.cache, Key(i), capacity);
    if Key(i) in s.cache then EngineState(cache, S.Touched(s.table, Key(i), i.now), s.forwarded + [false])
    else EngineState(cache, S.Upserted(s.table, i.event), s.forwarded + [true])
  }

  function Run(capacity: nat, inputs: seq<Input>): EngineState {
    if inputs == [] then START
    else Handle(capacity, Run(capacity, inputs[..|inputs| - 1]), inputs[|inputs| - 1])
  }

  function Keys(inputs: seq<Input>): (ks: seq<Fingerprint>)
    ensures |ks| == |inputs|
    ensures forall i :: 0 <= i < |ks| ==> ks[i] == Key(inputs[i])
  {
    seq(|inputs|, i requires 0 <= i < |inputs| => Key(inputs[i]))
  }

  function Count(b: bool, s: seq<bool>): nat {
    multiset(s)[b]
  }

  lemma KeysSplit(inputs: seq<Input>)
    requires inputs != []
    ensures Keys(inputs) == Keys(inputs[..|inputs| - 1]) + [Key(inputs[|inputs| - 1])]
    ensures Keys(inputs)[..|inputs| - 1] == Keys(inputs[..|inputs| - 1])
  {
  }

  // --- The cache and what is forwarded ----------------------------------------------------

  /** The engine's cache is the LRU cache of the fingerprints handled, and an event is forwarded
      exactly when its fingerprint misses there. */
  lemma {:induction false} RunIsLru(capacity: nat, inputs: seq<Input>)
    ensures var s := Run(capacity, inputs);
            && s.cache == CacheAfter(capacity, Keys(inputs))
            && |s.forwarded| == |inputs|
            && Count(true, s.forwarded) == MissCount(capacity, Keys(inputs))
            && Count(true, s.forwarded) + Count(false, s.forwarded) == |inputs|
  {
    if inputs == [] {
    } else {
      RunIsLru(capacity, inputs[..|inputs| - 1]);
      KeysSplit(inputs);
    }
  }

  /** Main result on forwarding: the cache is the most recent `capacity` fingerprints; the next
      event is forwarded iff its fingerprint is unknown or at least `capacity` others have been
      seen since. */
  lemma ForwardedIffNotRecent(capacity: nat, inputs: seq<Input>, i: Input)
    requires capacity >= 1
    ensures Run(capacity, inputs).cache == Take(ByRecency(Keys(inputs)), capacity)
    ensures Run(capacity, inputs + [i]).forwarded == Run(capacity, inputs).forwarded +
              [Key(i) !in Keys(inputs)
               || ReuseDistance(Keys(inputs), Key(i)) >= capacity]
  {
    RunIsLru(capacity, inputs);
    StackLaw(capacity, Keys(inputs));
    MissesIffReuseDistance(capacity, Keys(inputs), Key(i));
    assert (inputs + [i])[..|inputs|] == inputs;
  }

  /** Exactly one record per distinct fingerprint is forwarded when they all fit; never fewer;
      and a larger cache never forwards more. */
  lemma ForwardedCount(capacity: nat, larger: nat, inputs: seq<Input>)
    requires 1 <= capacity <= larger
    ensures |SetOf(Keys(inputs))| <= Count(true, Run(capacity, inputs).forwarded)
    ensures Count(true, Run(larger, inputs).forwarded) <= Count(true, Run(capacity, inputs).forwarded)
    ensures |SetOf(Keys(inputs))| <= capacity ==>
              Count(true, Run(capacity, inputs).forwarded) == |SetOf(Keys(inputs))|
  {
    RunIsLru(capacity, inputs);
    RunIsLru(larger, inputs);
    EveryKeyMisses(capacity, Keys(inputs));
    MissesAntitone(capacity, larger, Keys(inputs));
    if |SetOf(Keys(inputs))| <= capacity {
      MissesOncePerKey(capacity, Keys(inputs));
    }
  }

  // --- The store --------------------------------------------------------------------------

  function FirstUse(ks: seq<Fingerprint>, fp: Fingerprint): (j: nat)
    requires fp in ks
    ensures j < |ks| && ks[j] == fp && forall x :: 0 <= x < j ==> ks[x] != fp
  {
    if ks[0] == fp then 0 else 1 + FirstUse(ks[1..], fp)
  }

  /** What the store knows of fp after a run: the first event's metadata, with one connection
      added for every later event. */
  ghost predicate RowOf(inputs: seq<Input>, fp: Fingerprint, row: S.CertRow) {
    var ks := Keys(inputs);
    fp in ks &&
    var first := inputs[FirstUse(ks, fp)].event.row;
    && row.connectionCount == first.connectionCount + multiset(ks)[fp] - 1
    && row.firstSeen == first.firstSeen
    && row.sourceIp == first.sourceIp
    && row.destinationIp == first.destinationIp
  }

  ghost predicate StoreCounts(inputs: seq<Input>, s: EngineState) {
    && (forall fp :: fp in s.cache ==> fp in s.table)
    && (forall fp :: fp in Keys(inputs) <==> fp in s.table)
    && (forall fp :: fp in s.table ==> RowOf(inputs, fp, s.table[fp]))
  }

  lemma RowOfLater(init: seq<Input>, i: Input, fp: Fingerprint, row: S.CertRow)
    requires RowOf(init, fp, row)
    ensures RowOf(init + [i], fp, row.(connectionCount := row.connectionCount + if fp == Key(i) then 1 else 0))
  {
    var ks := Keys(init);
    assert Keys(init + [i]) == ks + [Key(i)];
    var more, j := ks + [Key(i)], FirstUse(ks, fp);
    assert more[j] == fp && forall x :: 0 <= x < j ==> more[x] == ks[x];
  }

  lemma RowOfFirst(init: seq<Input>, i: Input)
    requires Key(i) !in Keys(init)
    ensures RowOf(init + [i], Key(i), i.event.row)
  {
    var ks := Keys(init);
    assert Keys(init + [i]) == ks + [Key(i)];
    assert FirstUse(ks + [Key(i)], Key(i)) == |ks|;
    assert Key(i) !in multiset(ks);
  }

  lemma HandleKeepsCounts(capacity: nat, init: seq<Input>, s: EngineState, i: Input)
    requires StoreCounts(init, s)
    ensures StoreCounts(init + [i], Handle(capacity, s, i))
  {
    var s' := Handle(capacity, s, i);
    assert Keys(init + [i]) == Keys(init) + [Key(i)];
    forall fp | fp in s'.table ensures RowOf(init + [i], fp, s'.table[fp]) {
      if fp in s.table {
        RowOfLater(init, i, fp, s.table[fp]);
      } else {
        RowOfFirst(init, i);
      }
    }
    TouchElements(s.cache, Key(i), capacity);
  }

  /** An event stamps its own row, with the clock if it was cached and with its own stamp otherwise, and
      counts one connection there if the row is not new; it leaves every other row alone. */
  lemma EventStampsItsRow(capacity: nat, s: EngineState, i: Input, other: Fingerprint)
    requires forall fp :: fp in s.cache ==> fp in s.table
    ensures var t, t', fp, e := s.table, Handle(capacity, s, i).table, Key(i), i.event.row;
            && fp in t'
            && t'[fp].lastSeen == (if fp in s.cache then i.now else e.lastSeen)
            && (if fp in t
                then t'[fp] == t[fp].(lastSeen := t'[fp].lastSeen, connectionCount := t[fp].connectionCount + 1)
                else t'[fp] == e)
            && (other != fp ==> (other in t' <==> other in t) && (other in t ==> t'[other] == t[other]))
  {
  }

  /** The cache never distorts the store: whatever the capacity, and with every eviction and
      re-forward, each row counts exactly the events of its fingerprint. */
  lemma {:induction false} StoreCountsEveryEvent(capacity: nat, inputs: seq<Input>)
    ensures StoreCounts(inputs, Run(capacity, inputs))
  {
    if inputs == [] {
    } else {
      var init, i := inputs[..|inputs| - 1], inputs[|inputs| - 1];
      StoreCountsEveryEvent(capacity, init);
      HandleKeepsCounts(capacity, init, Run(capacity, init), i);
      assert inputs == init + [i];
    }
  }

  /** Two capacities leave the same store behind, last-seen stamps aside. */
  lemma CapacityInvisibleInStore(c1: nat, c2: nat, inputs: seq<Input>)
    ensures var t1, t2 := Run(c1, inputs).table, Run(c2, inputs).table;
            && t1.Keys == t2.Keys
            && forall fp :: fp in t1 ==> t1[fp] == t2[fp].(lastSeen := t1[fp].lastSeen)
  {
    StoreCountsEveryEvent(c1, inputs);
    StoreCountsEveryEvent(c2, inputs);
    var t1, t2 := Run(c1, inputs).table, Run(c2, inputs).table;
    forall fp | fp in t1 ensures fp in t2 && t1[fp] == t2[fp].(lastSeen := t1[fp].lastSeen) {
      assert fp in Keys(inputs);
      assert RowOf(inputs, fp, t1[fp]) && RowOf(inputs, fp, t2[fp]);
    }
    forall fp | fp in t2 ensures fp in t1 {
      assert fp in Keys(inputs);
    }
  }
}
