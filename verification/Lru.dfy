/** The bounded least-recently-used cache in front of the certificate table, and the law that
    says what it holds: the most recently used keys, whatever the history was. */
module Lru {
  import opened Common

  // --- Specification on sequences, most recently used first -------------------------------

  /** s with every occurrence of k removed. */
  function Without<K(==)>(s: seq<K>, k: K): seq<K> {
    if s == [] then []
    else if s[0] == k then Without(s[1..], k)
    else [s[0]] + Without(s[1..], k)
  }

  /** Using k in a cache of the given capacity: k comes to the front, and whatever no longer
      fits falls off the end. */
  function Touch<K(==,!new)>(order: seq<K>, k: K, capacity: nat): seq<K> {
    Take([k] + Without(order, k), capacity)
  }

  /** The cache after a history of uses, starting empty. */
  function CacheAfter<K(==,!new)>(capacity: nat, uses: seq<K>): seq<K> {
    if uses == [] then []
    else Touch(CacheAfter(capacity, uses[..|uses| - 1]), uses[|uses| - 1], capacity)
  }

  /** All distinct keys of a history, most recently used first: no capacity involved. */
  function ByRecency<K(==)>(uses: seq<K>): seq<K> {
    if uses == [] then []
    else [uses[|uses| - 1]] + Without(ByRecency(uses[..|uses| - 1]), uses[|uses| - 1])
  }

  /** Position of the last use of k. */
  function LastUse<K(==,!new)>(uses: seq<K>, k: K): (j: nat)
    requires k in uses
    ensures j < |uses| && uses[j] == k
  {
    if uses[|uses| - 1] == k then |uses| - 1 else LastUse(uses[..|uses| - 1], k)
  }

  /** k misses when it is not cached. */
  predicate Misses<K(==,!new)>(capacity: nat, uses: seq<K>, k: K) {
    k !in CacheAfter(capacity, uses)
  }

  /** Number of uses in the history that missed. */
  function MissCount<K(==,!new)>(capacity: nat, uses: seq<K>): nat {
    if uses == [] then 0
    else
      var init := uses[..|uses| - 1];
      MissCount(capacity, init) + if Misses(capacity, init, uses[|uses| - 1]) then 1 else 0
  }

  // --- Facts about Without ----------------------------------------------------------------

  lemma {:induction false} WithoutElements<K(!new)>(s: seq<K>, k: K)
    ensures forall x :: x in Without(s, k) <==> x in s && x != k
    ensures |Without(s, k)| <= |s|
  {
    if s == [] {
    } else {
      WithoutElements(s[1..], k);
      assert s == [s[0]] + s[1..];
    }
  }

  lemma {:induction false} WithoutAbsent<K>(s: seq<K>, k: K)
    requires k !in s
    ensures Without(s, k) == s
  {
    if s == [] {
    } else {
      WithoutAbsent(s[1..], k);
    }
  }

  lemma {:induction false} WithoutNoDup<K(!new)>(s: seq<K>, k: K)
    requires NoDup(s)
    ensures NoDup(Without(s, k))
    ensures |Without(s, k)| == if k in s then |s| - 1 else |s|
  {
    if s == [] {
    } else {
      assert s == [s[0]] + s[1..] && s[0] !in s[1..];
      WithoutNoDup(s[1..], k);
      WithoutElements(s[1..], k);
    }
  }

  lemma {:induction false} WithoutOfConcat<K(!new)>(a: seq<K>, b: seq<K>, k: K)
    ensures Without(a + b, k) == Without(a, k) + Without(b, k)
  {
    if a == [] {
      assert a + b == b;
    } else {
      WithoutOfConcat(a[1..], b, k);
      assert (a + b)[0] == a[0] && (a + b)[1..] == a[1..] + b;
    }
  }

  /** Truncating before or after removing a key makes no difference to the next use. */
  lemma {:induction false} TakeWithout<K(!new)>(s: seq<K>, k: K, n: nat)
    requires NoDup(s)
    ensures Take(Without(Take(s, n + 1), k), n) == Take(Without(s, k), n)
  {
    if s == [] || n == 0 {
    } else {
      var head, tail := s[0], s[1..];
      assert Take(s, n + 1) == [head] + Take(tail, n);
      assert ([head] + Take(tail, n))[1..] == Take(tail, n);
      if head == k {
        assert k !in tail;
        WithoutAbsent(tail, k);
        WithoutAbsent(Take(tail, n), k);
      } else {
        TakeWithout(tail, k, n - 1);
        TakeOfCons(head, Without(tail, k), n);
        TakeOfCons(head, Without(Take(tail, n), k), n);
      }
    }
  }

  lemma TakeOfCons<K>(head: K, tail: seq<K>, n: nat)
    requires n >= 1
    ensures Take([head] + tail, n) == [head] + Take(tail, n - 1)
  {
  }

  lemma TouchOfTake<K(!new)>(s: seq<K>, k: K, capacity: nat)
    requires capacity >= 1 && NoDup(s)
    ensures Touch(Take(s, capacity), k, capacity) == Take([k] + Without(s, k), capacity)
  {
    TakeWithout(s, k, capacity - 1);
    TakeOfCons(k, Without(Take(s, capacity), k), capacity);
    TakeOfCons(k, Without(s, k), capacity);
  }

  // --- The stack law ----------------------------------------------------------------------

  lemma LastUseOfAppend<K(!new)>(init: seq<K>, last: K, k: K)
    requires k in init + [last]
    ensures LastUse(init + [last], k) == if k == last then |init| else LastUse(init, k)
  {
  }

  ghost predicate Sorted<K(!new)>(s: seq<K>, before: (K, K) -> bool) {
    forall i, j :: 0 <= i < j < |s| ==> before(s[i], s[j])
  }

  lemma SortedCons<K(!new)>(head: K, tail: seq<K>, before: (K, K) -> bool)
    ensures Sorted([head] + tail, before) <==> Sorted(tail, before) && forall x :: x in tail ==> before(head, x)
  {
    var s := [head] + tail;
    if Sorted(s, before) {
      forall x | x in tail ensures before(head, x) {
        var i :| 0 <= i < |tail| && tail[i] == x;
        assert before(s[0], s[i + 1]);
      }
      forall i, j | 0 <= i < j < |tail| ensures before(tail[i], tail[j]) {
        assert before(s[i + 1], s[j + 1]);
      }
    }
  }

  lemma {:induction false} WithoutKeepsSorted<K(!new)>(s: seq<K>, k: K, before: (K, K) -> bool)
    requires Sorted(s, before)
    ensures Sorted(Without(s, k), before)
  {
    if s == [] {
    } else {
      assert s == [s[0]] + s[1..];
      SortedCons(s[0], s[1..], before);
      WithoutKeepsSorted(s[1..], k, before);
      WithoutElements(s[1..], k);
      SortedCons(s[0], Without(s[1..], k), before);
    }
  }

  /** x was used after the last use of y. */
  function LaterUse<K(==,!new)>(uses: seq<K>): (K, K) -> bool {
    (x, y) => x in uses && y in uses && LastUse(uses, y) < LastUse(uses, x)
  }

  lemma {:induction false} LastUseIsLast<K(!new)>(uses: seq<K>, k: K)
    requires k in uses
    ensures k !in uses[LastUse(uses, k) + 1..]
  {
    var init, last := uses[..|uses| - 1], uses[|uses| - 1];
    assert uses == init + [last];
    LastUseOfAppend(init, last, k);
    if last != k {
      LastUseIsLast(init, k);
      assert uses[LastUse(init, k) + 1..] == init[LastUse(init, k) + 1..] + [last];
    }
  }

  lemma PrependLatest<K(!new)>(init: seq<K>, k: K, rest: seq<K>)
    requires Sorted(rest, LaterUse(init)) && k !in rest && forall x :: x in rest ==> x in init
    ensures Sorted([k] + rest, LaterUse(init + [k]))
  {
    forall x | x in [k] + rest
      ensures LastUse(init + [k], x) == if x == k then |init| else LastUse(init, x)
    {
      LastUseOfAppend(init, k, x);
    }
    SortedCons(k, rest, LaterUse(init + [k]));
  }

  /** ByRecency lists every key once, in strictly decreasing order of last use. */
  lemma {:induction false} ByRecencyIsByLastUse<K(!new)>(uses: seq<K>)
    ensures NoDup(ByRecency(uses))
    ensures forall x :: x in ByRecency(uses) <==> x in uses
    ensures Sorted(ByRecency(uses), LaterUse(uses))
  {
    if uses == [] {
    } else {
      var init, k := uses[..|uses| - 1], uses[|uses| - 1];
      ByRecencyIsByLastUse(init);
      WithoutElements(ByRecency(init), k);
      WithoutNoDup(ByRecency(init), k);
      WithoutKeepsSorted(ByRecency(init), k, LaterUse(init));
      PrependLatest(init, k, Without(ByRecency(init), k));
      assert uses == init + [k];
    }
  }

  /** ByRecency without the order: each distinct key once. */
  lemma ByRecencyElements<K(!new)>(uses: seq<K>)
    ensures NoDup(ByRecency(uses))
    ensures SetOf(ByRecency(uses)) == SetOf(uses)
    ensures |ByRecency(uses)| == |SetOf(uses)|
  {
    ByRecencyIsByLastUse(uses);
    NoDupCardinality(ByRecency(uses));
    assert SetOf(ByRecency(uses)) == SetOf(uses);
  }

  /** The stack law: after any history, a cache of capacity c holds exactly the c most
      recently used distinct keys, in order of last use. */
  lemma {:induction false} StackLaw<K(!new)>(capacity: nat, uses: seq<K>)
    requires capacity >= 1
    ensures CacheAfter(capacity, uses) == Take(ByRecency(uses), capacity)
  {
    if uses == [] {
    } else {
      var init, k := uses[..|uses| - 1], uses[|uses| - 1];
      StackLaw(capacity, init);
      ByRecencyIsByLastUse(init);
      TouchOfTake(ByRecency(init), k, capacity);
    }
  }

  /** A smaller cache always holds the front part of a larger one. */
  lemma SmallerCacheIsPrefix<K(!new)>(small: nat, large: nat, uses: seq<K>)
    requires 1 <= small <= large
    ensures CacheAfter(small, uses) == Take(CacheAfter(large, uses), small)
  {
    StackLaw(small, uses);
    StackLaw(large, uses);
  }

  /** Misses never increase with capacity. */
  lemma {:induction false} MissesAntitone<K(!new)>(small: nat, large: nat, uses: seq<K>)
    requires 1 <= small <= large
    ensures MissCount(large, uses) <= MissCount(small, uses)
  {
    if uses == [] {
    } else {
      var init := uses[..|uses| - 1];
      MissesAntitone(small, large, init);
      SmallerCacheIsPrefix(small, large, init);
      TakeElements(CacheAfter(large, init), small);
    }
  }

  /** The keys used after the last use of k stand in front of it. */
  lemma {:induction false} RecencyBeforeLastUse<K(!new)>(uses: seq<K>, k: K) returns (rest: seq<K>)
    requires k in uses
    ensures ByRecency(uses) == ByRecency(uses[LastUse(uses, k) + 1..]) + [k] + rest
  {
    var init, last := uses[..|uses| - 1], uses[|uses| - 1];
    assert uses == init + [last];
    LastUseOfAppend(init, last, k);
    var j := LastUse(uses, k);
    if last == k {
      rest := Without(ByRecency(init), last);
      assert uses[j + 1..] == [];
    } else {
      var after := RecencyBeforeLastUse(init, k);
      var tail := init[j + 1..];
      var since := ByRecency(tail);
      rest := Without(after, last);
      WithoutOfConcat(since + [k], after, last);
      WithoutOfConcat(since, [k], last);
      assert uses[j + 1..] == tail + [last] && (tail + [last])[..|tail|] == tail;
      assert Without([k], last) == [k];
    }
  }

  /** Distinct keys used since the last use of k. */
  function ReuseDistance<K(==,!new)>(uses: seq<K>, k: K): nat
    requires k in uses
  {
    |SetOf(uses[LastUse(uses, k) + 1..])|
  }

  lemma RecencyPosition<K(!new)>(uses: seq<K>, k: K, capacity: nat)
    requires k in uses
    ensures k in Take(ByRecency(uses), capacity) <==> ReuseDistance(uses, k) < capacity
  {
    var tail := uses[LastUse(uses, k) + 1..];
    var rest := RecencyBeforeLastUse(uses, k);
    ByRecencyElements(tail);
    ByRecencyElements(uses);
    PrefixPosition(ByRecency(tail), k, rest, capacity);
  }

  /** The reuse-distance law: a use of k misses exactly when k was never used, or at least
      `capacity` distinct other keys have been used since. */
  lemma MissesIffReuseDistance<K(!new)>(capacity: nat, uses: seq<K>, k: K)
    requires capacity >= 1
    ensures Misses(capacity, uses, k) <==> (k !in uses || ReuseDistance(uses, k) >= capacity)
  {
    StackLaw(capacity, uses);
    if k in uses {
      RecencyPosition(uses, k, capacity);
    } else {
      ByRecencyIsByLastUse(uses);
      TakeElements(ByRecency(uses), capacity);
    }
  }

  lemma TakeElements<K>(s: seq<K>, n: nat)
    ensures forall x :: x in Take(s, n) ==> x in s
  {
  }

  /** k is among the first n elements iff fewer than n stand before it. */
  lemma PrefixPosition<K(!new)>(before: seq<K>, k: K, after: seq<K>, n: nat)
    requires NoDup(before + [k] + after)
    ensures k in Take(before + [k] + after, n) <==> |before| < n
  {
    var all := before + [k] + after;
    assert all[|before|] == k;
    if |before| < n {
      assert Take(all, n)[|before|] == k;
    }
  }

  /** With room for every distinct key, each misses exactly once. */
  lemma {:induction false} MissesOncePerKey<K(!new)>(capacity: nat, uses: seq<K>)
    requires capacity >= 1 && |SetOf(uses)| <= capacity
    ensures MissCount(capacity, uses) == |SetOf(uses)|
  {
    if uses == [] {
      assert SetOf(uses) == {};
    } else {
      var init, k := uses[..|uses| - 1], uses[|uses| - 1];
      assert uses == init + [k];
      assert SetOf(uses) == SetOf(init) + {k};
      if k in init {
        assert SetOf(uses) == SetOf(init);
      } else {
        assert |SetOf(uses)| == |SetOf(init)| + 1;
      }
      MissesOncePerKey(capacity, init);
      StackLaw(capacity, init);
      ByRecencyElements(init);
      assert k in ByRecency(init) <==> k in SetOf(ByRecency(init));
    }
  }

  /** Whatever the capacity, no key goes unreported: there are at least as many misses as keys. */
  lemma {:induction false} EveryKeyMisses<K(!new)>(capacity: nat, uses: seq<K>)
    requires capacity >= 1
    ensures |SetOf(uses)| <= MissCount(capacity, uses)
  {
    SetOfBound(uses);
    MissesAntitone(capacity, capacity + |uses|, uses);
    MissesOncePerKey(capacity + |uses|, uses);
  }

  lemma DropLast<K(!new)>(s: seq<K>)
    requires NoDup(s) && s != []
    ensures var last := s[|s| - 1];
            NoDup(s[..|s| - 1]) && SetOf(s[..|s| - 1]) == SetOf(s) - {last}
  {
  }

  lemma Prepend<K(!new)>(k: K, s: seq<K>)
    requires NoDup(s) && k !in s
    ensures NoDup([k] + s) && SetOf([k] + s) == {k} + SetOf(s)
  {
  }

  lemma WithoutSet<K(!new)>(s: seq<K>, k: K)
    requires NoDup(s)
    ensures NoDup(Without(s, k)) && k !in Without(s, k)
    ensures SetOf(Without(s, k)) == SetOf(s) - {k}
    ensures |Without(s, k)| == if k in s then |s| - 1 else |s|
  {
    WithoutNoDup(s, k);
    WithoutElements(s, k);
  }

  lemma TouchElements<K(!new)>(order: seq<K>, k: K, capacity: nat)
    ensures forall x :: x in Touch(order, k, capacity) ==> x == k || x in order
  {
    WithoutElements(order, k);
    TakeElements([k] + Without(order, k), capacity);
  }

  lemma TouchEvictsLast<K(!new)>(order: seq<K>, k: K, capacity: nat)
    requires k !in order && 1 <= |order| == capacity
    ensures Touch(order, k, capacity) == [k] + order[..capacity - 1]
  {
    WithoutAbsent(order, k);
    TakeOfCons(k, order, capacity);
  }

  // --- The cache as an object -------------------------------------------------------------

  /** The cache: keys in order of use, and the value stored with each. */
  class LruCache<K(==,!new), V> {
    const capacity: nat
    var order: seq<K>
    var values: map<K, V>

    ghost predicate Valid()
      reads this
    {
      && capacity >= 1
      && |order| <= capacity
      && NoDup(order)
      && values.Keys == SetOf(order)
    }

    constructor (capacity: nat)
      requires capacity >= 1
      ensures Valid() && this.capacity == capacity && order == []
    {
      this.capacity := capacity;
      order, values := [], map[];
    }

    /** Look a key up; a hit becomes the most recently used entry. */
    method Get(k: K) returns (v: Option<V>)
      requires Valid()
      modifies this
      ensures Valid() && values == old(values)
      ensures v == if k in old(values) then Some(old(values)[k]) else None
      ensures v.Some? <==> k in old(order)
      ensures order == if k in old(order) then [k] + Without(old(order), k) else old(order)
    {
      if k in values {
        WithoutSet(order, k);
        Prepend(k, Without(order, k));
        order := [k] + Without(order, k);
        v := Some(values[k]);
      } else {
        v := None;
      }
    }

    /** Store a value: an existing key is promoted, a new one evicts the least recently used
        entry of a full cache. */
    method Put(k: K, v: V)
      requires Valid()
      modifies this
      ensures Valid()
      ensures order == Touch(old(order), k, capacity)
      ensures k in values && values[k] == v
      ensures forall x :: x in values && x != k ==> x in old(values) && values[x] == old(values)[x]
    {
      WithoutSet(order, k);
      if k in values {
        order := Without(order, k);
      } else {
        WithoutAbsent(order, k);
        if |order| == capacity {
          var victim := order[|order| - 1];
          DropLast(order);
          TouchEvictsLast(order, k, capacity);
          order := order[..|order| - 1];
          values := values - {victim};
        }
      }
      assert [k] + order == Touch(old(order), k, capacity);
      Prepend(k, order);
      order := [k] + order;
      values := values[k := v];
    }
  }
}
