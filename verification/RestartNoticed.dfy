/** Noticing a restart from outside. Two different caches are told apart by some continuation, so
    the condition under which a reload reproduces the cache is also the exact condition under which
    no forwarding decision ever after can show that there was a restart. */
module RestartNoticed {
  import opened Common
  import opened Lru
  import opened Dedup
  import opened Restart
  import S = Storage

  // --- Telling caches apart ---------------------------------------------------------------

  /** A cache after further uses. */
  function Replay<K(==,!new)>(capacity: nat, cache: seq<K>, uses: seq<K>): seq<K> {
    if uses == [] then cache
    else Touch(Replay(capacity, cache, uses[..|uses| - 1]), uses[|uses| - 1], capacity)
  }

  /** The last n keys first. */
  function Newest<K>(keys: seq<K>): (r: seq<K>)
    ensures |r| == |keys|
  {
    if keys == [] then [] else [keys[|keys| - 1]] + Newest(keys[..|keys| - 1])
  }

  lemma {:induction false} NewestElements<K(!new)>(keys: seq<K>)
    ensures forall x :: x in Newest(keys) <==> x in keys
  {
    if keys == [] {
    } else {
      NewestElements(keys[..|keys| - 1]);
      assert keys == keys[..|keys| - 1] + [keys[|keys| - 1]];
    }
  }

  /** Keys that are new to the cache pile up in front, and push the rest out at the end. */
  lemma {:induction false} NewKeysPileUp<K(!new)>(capacity: nat, cache: seq<K>, keys: seq<K>)
    requires capacity >= 1 && |cache| <= capacity && NoDup(keys)
    requires forall x :: x in keys ==> x !in cache
    ensures Replay(capacity, cache, keys) == Take(Newest(keys) + cache, capacity)
  {
    if keys == [] {
      assert Newest(keys) + cache == cache;
    } else {
      var init, k := keys[..|keys| - 1], keys[|keys| - 1];
      NewKeysPileUp(capacity, cache, init);
      var stack := Newest(init) + cache;
      NewestElements(init);
      assert k !in stack;
      TakeElements(stack, capacity);
      WithoutAbsent(Take(stack, capacity), k);
      TakeOfCons(k, stack, capacity);
      assert [k] + stack == Newest(keys) + cache;
    }
  }

  lemma {:induction false} LastDifference<K(!new)>(a: seq<K>, b: seq<K>) returns (p: nat)
    requires |a| == |b| && a != b
    ensures p < |a| && a[p] != b[p] && forall q :: p < q < |a| ==> a[q] == b[q]
  {
    var n := |a| - 1;
    if n >= 0 && a[n] != b[n] {
      p := n;
    } else {
      assert a[..n] != b[..n] by {
        assert a == a[..n] + [a[n]] && b == b[..n] + [b[n]];
      }
      p := LastDifference(a[..n], b[..n]);
    }
  }

  /** After capacity - p new keys exactly the first p keys of the cache are left. */
  lemma FirstKeysLeft<K(!new)>(capacity: nat, cache: seq<K>, keys: seq<K>, p: nat, x: K)
    requires p < |cache| <= capacity && NoDup(keys) && |keys| == capacity - p
    requires (forall k :: k in keys ==> k !in cache) && x !in keys
    ensures x in Replay(capacity, cache, keys) <==> x in cache[..p]
  {
    NewKeysPileUp(capacity, cache, keys);
    NewestElements(keys);
    assert Take(Newest(keys) + cache, capacity) == Newest(keys) + cache[..p];
  }

  /** Two different caches of equal size disagree about some key after some uses: at once, or once
      new keys have pushed that key out of one of them. */
  lemma CachesAreToldApart<K(!new)>(capacity: nat, a: seq<K>, b: seq<K>, spare: seq<K>)
    returns (uses: seq<K>, x: K)
    requires NoDup(a) && NoDup(b) && a != b && |a| == |b| <= capacity
    requires NoDup(spare) && |spare| >= capacity && forall k :: k in spare ==> k !in a && k !in b
    ensures x in Replay(capacity, a, uses) <==> x !in Replay(capacity, b, uses)
  {
    var p := LastDifference(a, b);
    x := a[p];
    if x in b {
      uses := spare[..capacity - p];
      var q :| 0 <= q < |b| && b[q] == x;
      assert q < p;
      assert x == b[..p][q];
      FirstKeysLeft(capacity, a, uses, p, x);
      FirstKeysLeft(capacity, b, uses, p, x);
    } else {
      uses := [];
    }
  }

  // --- Forwarding after a restart ---------------------------------------------------------

  /** The engine carrying on from a given state. */
  function From(capacity: nat, s: EngineState, inputs: seq<Input>): EngineState {
    if inputs == [] then s
    else Handle(capacity, From(capacity, s, inputs[..|inputs| - 1]), inputs[|inputs| - 1])
  }

  /** No restart at any point of the run, whatever listing it reloads, ever changes what is
      forwarded afterwards. */
  ghost predicate NeverNoticed(capacity: nat, inputs: seq<Input>) {
    forall n, l, more | 0 <= n <= |inputs| && S.IsRecentListing(Run(capacity, inputs[..n]).table, capacity, l) ::
      SameDecisions(capacity, Run(capacity, inputs[..n]), l, more)
  }

  predicate SameDecisions(capacity: nat, s: EngineState, listing: seq<Fingerprint>, more: seq<Input>) {
    From(capacity, s.(cache := listing), more).forwarded == From(capacity, s, more).forwarded
  }

  function EventFor(k: Fingerprint): Input {
    Input(S.CertificateMetadata(k, S.CertRow(0, 0, 1, None, None)), 0)
  }

  function EventsFor(ks: seq<Fingerprint>): (r: seq<Input>)
    ensures |r| == |ks|
  {
    seq(|ks|, i requires 0 <= i < |ks| => EventFor(ks[i]))
  }

  lemma {:induction false} FromReplays(capacity: nat, s: EngineState, ks: seq<Fingerprint>)
    ensures var s' := From(capacity, s, EventsFor(ks));
            s'.cache == Replay(capacity, s.cache, ks) && |s'.forwarded| == |s.forwarded| + |ks|
  {
    if ks == [] {
    } else {
      var n := |ks| - 1;
      FromReplays(capacity, s, ks[..n]);
      assert EventsFor(ks)[..n] == EventsFor(ks[..n]);
    }
  }

  /** A cache that is not the one listed gives itself away. */
  lemma WrongCacheIsNoticed(capacity: nat, s: EngineState, listing: seq<Fingerprint>, spare: seq<Fingerprint>)
    returns (more: seq<Input>)
    requires NoDup(s.cache) && NoDup(listing) && s.cache != listing && |s.cache| == |listing| <= capacity
    requires NoDup(spare) && |spare| >= capacity && forall k :: k in spare ==> k !in s.cache && k !in listing
    ensures !SameDecisions(capacity, s, listing, more)
  {
    var uses, x := CachesAreToldApart(capacity, s.cache, listing, spare);
    more := EventsFor(uses + [x]);
    assert more[..|uses|] == EventsFor(uses);
    FromReplays(capacity, s, uses);
    FromReplays(capacity, s.(cache := listing), uses);
    var live, reloaded := From(capacity, s, more).forwarded, From(capacity, s.(cache := listing), more).forwarded;
    assert live[|live| - 1] != reloaded[|reloaded| - 1];
  }

  /** Cache and listing of the same run: as long, without repetitions, and made of its keys. */
  lemma CacheAndListing(capacity: nat, inputs: seq<Input>, l: seq<Fingerprint>)
    requires capacity >= 1 && S.IsRecentListing(Run(capacity, inputs).table, capacity, l)
    ensures var cache := Run(capacity, inputs).cache;
            && NoDup(cache) && NoDup(l) && |cache| == |l| <= capacity
            && (forall x :: x in cache || x in l ==> x in Keys(inputs))
  {
    hide Run, ByRecency, CacheAfter, RowOf;
    var s, ks := Run(capacity, inputs), Keys(inputs);
    RunIsLru(capacity, inputs);
    StackLaw(capacity, ks);
    ByRecencyElements(ks);
    StoreCountsEveryEvent(capacity, inputs);
    assert s.table.Keys == SetOf(ks);
    TakeElements(ByRecency(ks), capacity);
    forall x | x in s.cache ensures x in ks {
      assert x in SetOf(ByRecency(ks));
    }
    forall x | x in l ensures x in ks {
      assert x in s.table.Keys;
    }
  }

  /** Main result: with as many unused fingerprints as the cache has room for, a restart can never
      be noticed in what is forwarded, at any point of the run and for any continuation, if and only
      if every event left a stamp later than every other row's. */
  lemma NeverNoticedIffFresh(capacity: nat, inputs: seq<Input>, spare: seq<Fingerprint>)
    requires capacity >= 1 && NoDup(spare) && |spare| >= capacity && forall k :: k in spare ==> k !in Keys(inputs)
    ensures NeverNoticed(capacity, inputs) <==> Fresh(capacity, AsOps(inputs))
  {
    ReloadFaithfulIffFresh(capacity, inputs);
    if !ReloadAlwaysFaithful(capacity, inputs) {
      var n, l :| 0 <= n <= |inputs| && S.IsRecentListing(Run(capacity, inputs[..n]).table, capacity, l)
                  && l != Run(capacity, inputs[..n]).cache;
      CacheAndListing(capacity, inputs[..n], l);
      KeysOfPrefix(inputs, n);
      var more := WrongCacheIsNoticed(capacity, Run(capacity, inputs[..n]), l, spare);
    }
  }

  lemma KeysOfPrefix(inputs: seq<Input>, n: nat)
    requires n <= |inputs|
    ensures forall x :: x in Keys(inputs[..n]) ==> x in Keys(inputs)
  {
  }
}
