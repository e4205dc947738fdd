/** The deduplication engine as an object. Every method takes the step of the run model. */
module Engine {
  import opened Common
  import opened Lru
  import D = Dedup
  import S = Storage

  /** Reloading keys one by one, oldest of the listing first. */
  function ReloadedOrder(order: seq<Fingerprint>, listing: seq<Fingerprint>, capacity: nat): seq<Fingerprint> {
    if listing == [] then order
    else Touch(ReloadedOrder(order, listing[1..], capacity), listing[0], capacity)
  }

  /** Into an empty cache, the reload loop rebuilds the listing itself. */
  lemma {:induction false} ReloadRebuildsListing(listing: seq<Fingerprint>, capacity: nat)
    requires NoDup(listing) && |listing| <= capacity
    ensures ReloadedOrder([], listing, capacity) == listing
  {
    if listing == [] {
    } else {
      ReloadRebuildsListing(listing[1..], capacity);
      assert listing[0] !in listing[1..];
      WithoutAbsent(listing[1..], listing[0]);
      assert listing == [listing[0]] + listing[1..];
    }
  }

  class DeduplicationEngine {
    const cache: LruCache<Fingerprint, int>
    var totalEvents: nat
    var uniqueForwarded: nat
    var duplicatesSeen: nat

    ghost predicate Valid()
      reads this, cache
    {
      cache.Valid() && totalEvents == uniqueForwarded + duplicatesSeen
    }

    /** A capacity of zero means the default. */
    constructor (capacity: nat)
      ensures Valid() && fresh(cache)
      ensures cache.capacity == if capacity == 0 then 100_000 else capacity
      ensures cache.order == [] && totalEvents == 0
    {
      cache := new LruCache(if capacity == 0 then D.DEFAULT_CACHE_CAPACITY else capacity);
      totalEvents, uniqueForwarded, duplicatesSeen := 0, 0, 0;
    }

    /** Load the most recently seen fingerprints; a new engine ends up with exactly the store's
        listing, most recent first. */
    method ReloadFromStorage(storage: S.Storage, now: int) returns (count: nat, ghost listing: seq<Fingerprint>)
      requires Valid()
      modifies cache
      ensures Valid() && count == |listing|
      ensures S.IsRecentListing(storage.certificates, cache.capacity, listing)
      ensures cache.order == ReloadedOrder(old(cache.order), listing, cache.capacity)
      ensures old(cache.order) == [] ==> cache.order == listing
    {
      var fingerprints := storage.ListRecentFingerprints(cache.capacity);
      count := |fingerprints|;
      listing := fingerprints;
      var i := count;
      while i > 0
        invariant 0 <= i <= count
        invariant cache.Valid()
        invariant cache.order == ReloadedOrder(old(cache.order), fingerprints[i..], cache.capacity)
      {
        i := i - 1;
        assert fingerprints[i..][1..] == fingerprints[i + 1..];
        cache.Put(fingerprints[i], now);
      }
      assert fingerprints[0..] == listing;
      ReloadRebuildsListing(listing, cache.capacity);
    }

    /** Look a fingerprint up without inserting it. The lookup still counts as a use. */
    method IsSeen(fp: Fingerprint) returns (seen: bool)
      requires Valid()
      modifies cache
      ensures Valid()
      ensures seen <==> fp in old(cache.order)
      ensures cache.order == if seen then Touch(old(cache.order), fp, cache.capacity) else old(cache.order)
    {
      var v := cache.Get(fp);
      seen := v.Some?;
    }

    /** Insert a fingerprint; true if it was not cached. */
    method MarkSeen(fp: Fingerprint, now: int) returns (isNew: bool)
      requires Valid()
      modifies cache
      ensures Valid()
      ensures isNew <==> fp !in old(cache.order)
      ensures cache.order == Touch(old(cache.order), fp, cache.capacity)
    {
      var v := cache.Get(fp);
      PromotedTwice(old(cache.order), fp, cache.capacity);
      cache.Put(fp, now);
      isNew := v.None?;
    }

    /** Handle one event: a duplicate touches its row, anything else is stored and forwarded. */
    method HandleEvent(event: S.CertificateMetadata, storage: S.Storage, now: int)
      returns (forwarded: Option<S.CertificateMetadata>)
      requires Valid()
      modifies this, cache, storage`certificates
      ensures Valid()
      ensures totalEvents == old(totalEvents) + 1
      ensures uniqueForwarded == old(uniqueForwarded) + if forwarded.Some? then 1 else 0
      ensures forwarded.Some? ==> forwarded.value == event
      ensures D.EngineState(cache.order, storage.certificates, [forwarded.Some?]) ==
              D.Handle(cache.capacity, D.EngineState(old(cache.order), old(storage.certificates), []),
                       D.Input(event, now))
    {
      totalEvents := totalEvents + 1;
      var fp := event.fingerprint;
      var hit := cache.Get(fp);
      PromotedTwice(old(cache.order), fp, cache.capacity);
      cache.Put(fp, now);
      if hit.Some? {
        duplicatesSeen := duplicatesSeen + 1;
        storage.TouchCertificate(fp, now);
        forwarded := None;
      } else {
        uniqueForwarded := uniqueForwarded + 1;
        storage.UpsertCertificate(event);
        forwarded := Some(event);
      }
    }
  }

  /** Looking a key up before storing it does not change the resulting order. */
  lemma PromotedTwice(order: seq<Fingerprint>, k: Fingerprint, capacity: nat)
    requires NoDup(order) && |order| <= capacity
    ensures Touch([k] + Without(order, k), k, capacity) == Touch(order, k, capacity)
    ensures k in order ==> [k] + Without(order, k) == Touch(order, k, capacity)
  {
    var w := Without(order, k);
    WithoutSet(order, k);
    WithoutAbsent(w, k);
    assert ([k] + w)[1..] == w;
  }
}
