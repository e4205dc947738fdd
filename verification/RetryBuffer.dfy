/** The buffer that holds certificate records while the analyzer is away: a bounded queue that
    evicts its oldest record, retries with capped exponential backoff, and stops taking records
    once it has been filling for too long. Times are milliseconds of one monotonic clock. */
module RetryBuffer {
  import opened Common
  import S = Storage

  const DEFAULT_BUFFER_CAPACITY: nat := 10_000
  const INITIAL_RETRY_INTERVAL: nat := 30_000
  const MAX_RETRY_INTERVAL: nat := 480_000
  const MAX_BUFFER_DURATION: nat := 3_600_000

  type Record = S.CertificateMetadata

  // --- The retry mechanism ----------------------------------------------------------------

  datatype RetryState = RetryState(
    bufferingStarted: Option<int>,
    lastAttempt: Option<int>,
    attemptCount: nat,
    currentBackoff: nat)
  {
    /** A failed attempt doubles the backoff, up to the cap. */
    function Recorded(now: int): RetryState {
      RetryState(Some(bufferingStarted.UnwrapOr(now)), Some(now), attemptCount + 1,
                 Min(2 * currentBackoff, MAX_RETRY_INTERVAL))
    }

    predicate IsExpired(maxDuration: nat, now: int) {
      bufferingStarted.Some? && now - bufferingStarted.value >= maxDuration
    }

    predicate ShouldRetry(now: int) {
      lastAttempt.None? || now - lastAttempt.value >= currentBackoff
    }
  }

  const RESET := RetryState(None, None, 0, INITIAL_RETRY_INTERVAL)

  datatype Config = Config(capacity: nat, maxBufferDuration: nat)

  const DEFAULTS := Config(DEFAULT_BUFFER_CAPACITY, MAX_BUFFER_DURATION)

  datatype Stats = Stats(
    bufferedCount: nat,
    evicted: nat,
    retryAttempts: nat,
    successfulFlushes: nat,
    expired: nat)

  datatype Buffer = Buffer(records: seq<Record>, retry: RetryState, stats: Stats)

  const EMPTY := Buffer([], RESET, Stats(0, 0, 0, 0, 0))

  // --- Operations -------------------------------------------------------------------------

  function Push(c: Config, b: Buffer, record: Record, now: int): Buffer {
    if b.retry.IsExpired(c.maxBufferDuration, now) then
      b.(stats := b.stats.(expired := b.stats.expired + 1))
    else
      var full := |b.records| >= c.capacity;
      var kept := if full && b.records != [] then b.records[1..] else b.records;
      Buffer(
        kept + [record],
        b.retry.(bufferingStarted := Some(b.retry.bufferingStarted.UnwrapOr(now))),
        b.stats.(evicted := b.stats.evicted + if full then 1 else 0, bufferedCount := |kept| + 1))
  }

  /** The flush gets as far as the sink, which may still turn out to be unavailable. */
  predicate Attempts(b: Buffer, now: int) {
    b.records != [] && b.retry.ShouldRetry(now)
  }

  /** `reply` is what the sink answers to the batch, if it is asked: everything taken, or the records
      it hands back, which go in again. At `later` the outcome is known. */
  function Flush(b: Buffer, now: int, later: int, available: bool, reply: Result<(), seq<Record>>): Buffer {
    if !Attempts(b, now) then b
    else if !available then
      b.(retry := b.retry.Recorded(later), stats := b.stats.(retryAttempts := b.stats.retryAttempts + 1))
    else
      match reply
      case Ok(_) =>
        Buffer([], RESET, b.stats.(successfulFlushes := b.stats.successfulFlushes + 1, bufferedCount := 0))
      case Err(remaining) =>
        Buffer(remaining, b.retry.Recorded(later),
               b.stats.(retryAttempts := b.stats.retryAttempts + 1, bufferedCount := |remaining|))
  }

  /** The answer of a sink that takes the first `taken` records and then closes for good. */
  function Answer(batch: seq<Record>, taken: nat): Result<(), seq<Record>> {
    if taken >= |batch| then Ok(()) else Err(batch[taken..])
  }

  function Clear(b: Buffer): Buffer {
    Buffer([], RESET, b.stats.(bufferedCount := 0))
  }

  /** One round of the flush loop. Expiry is checked at `now`, whether an attempt is due at `check`. */
  function Tick(c: Config, b: Buffer, now: int, check: int, later: int, available: bool,
                reply: Result<(), seq<Record>>): Buffer
  {
    if b.records != [] && !b.retry.IsExpired(c.maxBufferDuration, now) then Flush(b, check, later, available, reply)
    else b
  }

  // --- What becomes of each record --------------------------------------------------------

  datatype Fate = Held | Sent | Evicted | Expired | Cleared

  datatype Op =
    | DoPush(record: Record, now: int)
    | DoFlush(now: int, later: int, available: bool, taken: nat)
    | DoTick(now: int, check: int, later: int, available: bool, taken: nat)
    | DoClear

  /** The buffer, with every record ever pushed, what became of it, and what the sink received. */
  datatype World = World(buffer: Buffer, pushed: seq<Record>, fates: seq<Fate>, received: seq<Record>)

  /** The n oldest records still held get fate f. */
  function Mark(fates: seq<Fate>, n: nat, f: Fate): (r: seq<Fate>)
    ensures |r| == |fates|
  {
    if n == 0 || fates == [] then fates
    else if fates[0].Held? then [f] + Mark(fates[1..], n - 1, f)
    else [fates[0]] + Mark(fates[1..], n, f)
  }

  /** The records with fate f, in the order they were pushed. */
  function With(pushed: seq<Record>, fates: seq<Fate>, f: Fate): (r: seq<Record>)
    requires |fates| == |pushed|
  {
    if pushed == [] then []
    else (if fates[0] == f then [pushed[0]] else []) + With(pushed[1..], fates[1..], f)
  }

  function Delivery(b: Buffer, now: int, available: bool, taken: nat): nat {
    if Attempts(b, now) && available then Min(taken, |b.records|) else 0
  }

  function AfterFlush(w: World, b: Buffer, now: int, available: bool, taken: nat): World {
    var n := Delivery(w.buffer, now, available, taken);
    World(b, w.pushed, Mark(w.fates, n, Sent), w.received + w.buffer.records[..n])
  }

  function Step(c: Config, w: World, op: Op): World {
    match op
    case DoPush(record, now) =>
      var fates :=
        if w.buffer.retry.IsExpired(c.maxBufferDuration, now) then w.fates + [Expired]
        else Mark(w.fates, if |w.buffer.records| >= c.capacity then 1 else 0, Evicted) + [Held];
      World(Push(c, w.buffer, record, now), w.pushed + [record], fates, w.received)
    case DoFlush(now, later, available, taken) =>
      AfterFlush(w, Flush(w.buffer, now, later, available, Answer(w.buffer.records, taken)), now, available, taken)
    case DoTick(now, check, later, available, taken) =>
      if w.buffer.retry.IsExpired(c.maxBufferDuration, now) then w
      else
        var b := Tick(c, w.buffer, now, check, later, available, Answer(w.buffer.records, taken));
        AfterFlush(w, b, check, available, taken)
    case DoClear =>
      World(Clear(w.buffer), w.pushed, Mark(w.fates, |w.buffer.records|, Cleared), w.received)
  }

  const NEW_WORLD := World(EMPTY, [], [], [])

  function Exec(c: Config, w: World, ops: seq<Op>): World {
    if ops == [] then w else Step(c, Exec(c, w, ops[..|ops| - 1]), ops[|ops| - 1])
  }

  /** Nothing overtakes a record still held: what was pushed after it is held too, or was never let
      in. So the oldest leave first, to the sink or by eviction. */
  predicate OldestFirst(fates: seq<Fate>) {
    fates == [] ||
    (OldestFirst(fates[1..]) && (fates[0].Held? ==> forall f | f in fates[1..] :: f.Held? || f.Expired?))
  }

  lemma {:induction false} WithNone(pushed: seq<Record>, fates: seq<Fate>, f: Fate)
    requires |fates| == |pushed| && f !in fates
    ensures With(pushed, fates, f) == []
  {
    if pushed == [] {
    } else {
      WithNone(pushed[1..], fates[1..], f);
    }
  }

  lemma {:induction false} WithAppended(pushed: seq<Record>, fates: seq<Fate>, record: Record, g: Fate, f: Fate)
    requires |fates| == |pushed|
    ensures With(pushed + [record], fates + [g], f) == With(pushed, fates, f) + if g == f then [record] else []
  {
    if pushed == [] {
      assert pushed + [record] == [record] && fates + [g] == [g];
    } else {
      WithAppended(pushed[1..], fates[1..], record, g, f);
      assert (pushed + [record])[1..] == pushed[1..] + [record];
      assert (fates + [g])[1..] == fates[1..] + [g];
    }
  }

  /** One element of With at a time. */
  lemma WithFirst(pushed: seq<Record>, fates: seq<Fate>, f: Fate)
    requires |fates| == |pushed| && fates != []
    ensures With(pushed, fates, f) == (if fates[0] == f then [pushed[0]] else []) + With(pushed[1..], fates[1..], f)
  {
  }

  /** What marking n records does to a non-empty list: its first element, and the rest. */
  function MarkedFirst(fates: seq<Fate>, f: Fate): Fate
    requires fates != []
  {
    if fates[0].Held? then f else fates[0]
  }

  function Left(fates: seq<Fate>, n: nat): nat
    requires fates != [] && n > 0
  {
    if fates[0].Held? then n - 1 else n
  }

  lemma WithMarked(pushed: seq<Record>, fates: seq<Fate>, n: nat, f: Fate, g: Fate)
    requires |fates| == |pushed| && fates != [] && n > 0
    ensures With(pushed, Mark(fates, n, f), g) ==
            (if MarkedFirst(fates, f) == g then [pushed[0]] else [])
            + With(pushed[1..], Mark(fates[1..], Left(fates, n), f), g)
  {
    var marked, rest := Mark(fates, n, f), Mark(fates[1..], Left(fates, n), f);
    assert marked == [MarkedFirst(fates, f)] + rest;
    assert marked[1..] == rest;
    WithFirst(pushed, marked, g);
  }

  lemma DropFromCons(x: Record, xs: seq<Record>, n: nat)
    requires n <= |xs|
    ensures ([x] + xs)[n + 1..] == xs[n..] && ([x] + xs)[..n + 1] == [x] + xs[..n]
  {
  }

  /** Marking takes the oldest n records out of those held. */
  lemma {:induction false} MarkTakesHeld(pushed: seq<Record>, fates: seq<Fate>, n: nat, f: Fate)
    requires |fates| == |pushed| && n <= |With(pushed, fates, Held)| && f != Held
    ensures With(pushed, Mark(fates, n, f), Held) == With(pushed, fates, Held)[n..]
  {
    if n > 0 && fates != [] {
      hide With, Mark;
      var ps, fs, left := pushed[1..], fates[1..], Left(fates, n);
      WithFirst(pushed, fates, Held);
      WithMarked(pushed, fates, n, f, Held);
      MarkTakesHeld(ps, fs, left, f);
      if fates[0].Held? {
        DropFromCons(pushed[0], With(ps, fs, Held), left);
      }
    }
  }

  /** It leaves every other fate alone, */
  lemma {:induction false} MarkKeepsOthers(pushed: seq<Record>, fates: seq<Fate>, n: nat, f: Fate, g: Fate)
    requires |fates| == |pushed| && g != Held && g != f
    ensures With(pushed, Mark(fates, n, f), g) == With(pushed, fates, g)
  {
    if n > 0 && fates != [] {
      hide With, Mark;
      WithFirst(pushed, fates, g);
      WithMarked(pushed, fates, n, f, g);
      MarkKeepsOthers(pushed[1..], fates[1..], Left(fates, n), f, g);
    }
  }

  /** adds n to those with its own, */
  lemma {:induction false} MarkAdds(pushed: seq<Record>, fates: seq<Fate>, n: nat, f: Fate)
    requires |fates| == |pushed| && n <= |With(pushed, fates, Held)| && f != Held
    ensures |With(pushed, Mark(fates, n, f), f)| == |With(pushed, fates, f)| + n
  {
    if n > 0 && fates != [] {
      hide With, Mark;
      WithFirst(pushed, fates, f);
      WithFirst(pushed, fates, Held);
      WithMarked(pushed, fates, n, f, f);
      MarkAdds(pushed[1..], fates[1..], Left(fates, n), f);
    }
  }

  /** and, when records are sent in order, extends what was sent by the oldest records held. */
  lemma {:induction false} MarkSends(pushed: seq<Record>, fates: seq<Fate>, n: nat)
    requires |fates| == |pushed| && n <= |With(pushed, fates, Held)| && OldestFirst(fates)
    ensures With(pushed, Mark(fates, n, Sent), Sent) == With(pushed, fates, Sent) + With(pushed, fates, Held)[..n]
  {
    if n > 0 && fates != [] {
      hide With, Mark;
      var ps, fs, left := pushed[1..], fates[1..], Left(fates, n);
      WithFirst(pushed, fates, Sent);
      WithFirst(pushed, fates, Held);
      WithMarked(pushed, fates, n, Sent, Sent);
      MarkSends(ps, fs, left);
      if fates[0].Held? {
        WithNone(ps, fs, Sent);
        DropFromCons(pushed[0], With(ps, fs, Held), left);
      }
    }
  }

  lemma {:induction false} MarkKeepsOrder(fates: seq<Fate>, n: nat, f: Fate)
    requires OldestFirst(fates) && f != Held
    ensures OldestFirst(Mark(fates, n, f))
  {
    if n > 0 && fates != [] {
      MarkKeepsOrder(fates[1..], if fates[0].Held? then n - 1 else n, f);
    }
  }

  lemma {:induction false} AppendKeepsOrder(fates: seq<Fate>, g: Fate)
    requires OldestFirst(fates) && (g == Held || g == Expired)
    ensures OldestFirst(fates + [g])
  {
    if fates == [] {
      assert fates + [g] == [g];
    } else {
      AppendKeepsOrder(fates[1..], g);
      assert (fates + [g])[1..] == fates[1..] + [g];
    }
  }

  /** Every record pushed has exactly one fate. */
  lemma {:induction false} FatesPartition(pushed: seq<Record>, fates: seq<Fate>)
    requires |fates| == |pushed|
    ensures |pushed| == |With(pushed, fates, Held)| + |With(pushed, fates, Sent)| + |With(pushed, fates, Evicted)|
                        + |With(pushed, fates, Expired)| + |With(pushed, fates, Cleared)|
  {
    if pushed == [] {
    } else {
      FatesPartition(pushed[1..], fates[1..]);
    }
  }

  // --- Order and conservation -------------------------------------------------------------

  ghost predicate Accounted(w: World) {
    && |w.fates| == |w.pushed|
    && OldestFirst(w.fates)
    && w.buffer.records == With(w.pushed, w.fates, Held)
    && w.received == With(w.pushed, w.fates, Sent)
    && w.buffer.stats.expired == |With(w.pushed, w.fates, Expired)|
    && w.buffer.stats.bufferedCount == |w.buffer.records|
  }

  /** Evictions are counted exactly, and the bound kept, unless the capacity is zero: then each
      push counts an eviction, whether or not there was anything to evict. */
  ghost predicate Bounded(c: Config, w: World) {
    && |w.fates| == |w.pushed|
    && |w.buffer.records| <= Max(c.capacity, 1)
    && (w.pushed == [] ==> w.buffer.retry.bufferingStarted.None?)
    && if c.capacity >= 1 || w.pushed == [] then w.buffer.stats.evicted == |With(w.pushed, w.fates, Evicted)|
       else w.buffer.stats.evicted > |With(w.pushed, w.fates, Evicted)|
  }

  lemma MarkAccounted(w: World, n: nat, f: Fate)
    requires Accounted(w) && n <= |w.buffer.records| && f != Held && f != Expired
    ensures var fates := Mark(w.fates, n, f);
            && OldestFirst(fates)
            && With(w.pushed, fates, Held) == w.buffer.records[n..]
            && With(w.pushed, fates, Sent) == w.received + (if f == Sent then w.buffer.records[..n] else [])
            && |With(w.pushed, fates, Expired)| == w.buffer.stats.expired
            && |With(w.pushed, fates, Evicted)| == |With(w.pushed, w.fates, Evicted)| + if f == Evicted then n else 0
  {
    MarkKeepsOrder(w.fates, n, f);
    MarkTakesHeld(w.pushed, w.fates, n, f);
    MarkKeepsOthers(w.pushed, w.fates, n, f, Expired);
    if f == Sent {
      MarkSends(w.pushed, w.fates, n);
    } else {
      MarkKeepsOthers(w.pushed, w.fates, n, f, Sent);
    }
    if f == Evicted {
      MarkAdds(w.pushed, w.fates, n, f);
    } else {
      MarkKeepsOthers(w.pushed, w.fates, n, f, Evicted);
    }
  }

  lemma {:induction false} MarkOnlyHeld(pushed: seq<Record>, fates: seq<Fate>, n: nat, f: Fate)
    requires |fates| == |pushed|
    ensures Mark(fates, Min(n, |With(pushed, fates, Held)|), f) == Mark(fates, n, f)
  {
    if n > 0 && fates != [] {
      hide With;
      WithFirst(pushed, fates, Held);
      MarkOnlyHeld(pushed[1..], fates[1..], Left(fates, n), f);
      assert fates == [fates[0]] + fates[1..];
    }
  }

  lemma PushAccounted(c: Config, w: World, record: Record, now: int)
    requires Accounted(w) && Bounded(c, w)
    ensures var w' := Step(c, w, DoPush(record, now)); Accounted(w') && Bounded(c, w')
  {
    var w' := Step(c, w, DoPush(record, now));
    var expired := w.buffer.retry.IsExpired(c.maxBufferDuration, now);
    var n := if !expired && |w.buffer.records| >= c.capacity then 1 else 0;
    var m := Min(n, |w.buffer.records|);
    var g := if expired then Expired else Held;
    MarkOnlyHeld(w.pushed, w.fates, n, Evicted);
    MarkAccounted(w, m, Evicted);
    var fates := Mark(w.fates, m, Evicted);
    assert w'.fates == fates + [g];
    AppendKeepsOrder(fates, g);
    WithAppended(w.pushed, fates, record, g, Held);
    WithAppended(w.pushed, fates, record, g, Sent);
    WithAppended(w.pushed, fates, record, g, Expired);
    WithAppended(w.pushed, fates, record, g, Evicted);
  }

  lemma FlushAccounted(c: Config, w: World, now: int, later: int, available: bool, taken: nat)
    requires Accounted(w) && Bounded(c, w)
    ensures var b := Flush(w.buffer, now, later, available, Answer(w.buffer.records, taken));
            var w' := AfterFlush(w, b, now, available, taken);
            Accounted(w') && Bounded(c, w')
  {
    var n := Delivery(w.buffer, now, available, taken);
    MarkAccounted(w, n, Sent);
    var b := Flush(w.buffer, now, later, available, Answer(w.buffer.records, taken));
    assert b.records == w.buffer.records[n..];
  }

  lemma TickAccounted(c: Config, w: World, now: int, check: int, later: int, available: bool, taken: nat)
    requires Accounted(w) && Bounded(c, w)
    ensures var w' := Step(c, w, DoTick(now, check, later, available, taken)); Accounted(w') && Bounded(c, w')
  {
    if !w.buffer.retry.IsExpired(c.maxBufferDuration, now) {
      FlushAccounted(c, w, check, later, available, taken);
      var reply := Answer(w.buffer.records, taken);
      assert Tick(c, w.buffer, now, check, later, available, reply) == Flush(w.buffer, check, later, available, reply);
    }
  }

  lemma ClearAccounted(c: Config, w: World)
    requires Accounted(w) && Bounded(c, w)
    ensures Accounted(Step(c, w, DoClear)) && Bounded(c, Step(c, w, DoClear))
  {
    MarkAccounted(w, |w.buffer.records|, Cleared);
  }

  lemma StepAccounted(c: Config, w: World, op: Op)
    requires Accounted(w) && Bounded(c, w)
    ensures Accounted(Step(c, w, op)) && Bounded(c, Step(c, w, op))
  {
    hide With, Mark, OldestFirst, Flush, Push;
    match op
    case DoPush(record, now) => PushAccounted(c, w, record, now);
    case DoFlush(now, later, available, taken) => FlushAccounted(c, w, now, later, available, taken);
    case DoTick(now, check, later, available, taken) => TickAccounted(c, w, now, check, later, available, taken);
    case DoClear => ClearAccounted(c, w);
  }

  lemma {:induction false} ExecAccounted(c: Config, ops: seq<Op>)
    ensures Accounted(Exec(c, NEW_WORLD, ops)) && Bounded(c, Exec(c, NEW_WORLD, ops))
  {
    if ops == [] {
    } else {
      ExecAccounted(c, ops[..|ops| - 1]);
      StepAccounted(c, Exec(c, NEW_WORLD, ops[..|ops| - 1]), ops[|ops| - 1]);
    }
  }

  lemma {:induction false} OrderMeans(fates: seq<Fate>, i: nat, j: nat)
    requires OldestFirst(fates) && i < j < |fates| && fates[i].Held?
    ensures fates[j].Held? || fates[j].Expired?
  {
    if i == 0 {
      assert fates[j] == fates[1..][j - 1];
    } else {
      OrderMeans(fates[1..], i - 1, j - 1);
    }
  }

  /** Main result on records. Over every run, each record pushed has one fate: the sink received
      exactly those sent, once each and in the order pushed; the buffer holds exactly those still
      waiting, in order, each pushed after every record sent, evicted or cleared; and pushes add up to
      received, held, evicted, expired and cleared. The buffer's own eviction count is right exactly if the capacity
      is not zero or nothing was ever pushed; its length is within its capacity, where a capacity of
      zero counts as one. */
  lemma OrderAndConservation(c: Config, ops: seq<Op>)
    ensures var w := Exec(c, NEW_WORLD, ops);
            && |w.fates| == |w.pushed|
            && w.received == With(w.pushed, w.fates, Sent)
            && w.buffer.records == With(w.pushed, w.fates, Held)
            && (forall i, j :: 0 <= i < j < |w.fates| && w.fates[i].Held? ==> w.fates[j].Held? || w.fates[j].Expired?)
            && |w.pushed| == |w.received| + |w.buffer.records| + |With(w.pushed, w.fates, Evicted)|
                             + w.buffer.stats.expired + |With(w.pushed, w.fates, Cleared)|
            && (w.buffer.stats.evicted == |With(w.pushed, w.fates, Evicted)| <==> c.capacity >= 1 || w.pushed == [])
            && |w.buffer.records| <= Max(c.capacity, 1)
  {
    var w := Exec(c, NEW_WORLD, ops);
    ExecAccounted(c, ops);
    FatesPartition(w.pushed, w.fates);
    forall i, j | 0 <= i < j < |w.fates| && w.fates[i].Held? ensures w.fates[j].Held? || w.fates[j].Expired? {
      OrderMeans(w.fates, i, j);
    }
  }

  /** With no capacity at all the buffer still holds the last record pushed. */
  lemma ZeroCapacityHoldsOne(maxDuration: nat, record: Record)
    ensures var b := Push(Config(0, maxDuration), EMPTY, record, 0);
            b.records == [record] && b.stats.evicted == 1
  {
  }

  // --- Backoff ----------------------------------------------------------------------------

  /** The wait after n failed attempts in a row. */
  function Backoff(n: nat): nat {
    Min(INITIAL_RETRY_INTERVAL * Pow2(n), MAX_RETRY_INTERVAL)
  }

  ghost predicate Paced(b: Buffer) {
    && b.retry.currentBackoff == Backoff(b.retry.attemptCount)
    && (b.records != [] <==> b.retry.bufferingStarted.Some?)
    && (b.retry.lastAttempt.Some? <==> b.retry.attemptCount > 0)
    && (b.retry.attemptCount > 0 ==> b.retry.bufferingStarted.Some?)
  }

  lemma StepPaced(c: Config, w: World, op: Op)
    requires Paced(w.buffer)
    ensures Paced(Step(c, w, op).buffer)
  {
  }

  /** Over every run the backoff is 30 s doubled once per failed attempt and capped at 480 s, and a
      buffering period is under way exactly while there are records. */
  lemma {:induction false} BackoffLaw(c: Config, ops: seq<Op>)
    ensures Paced(Exec(c, NEW_WORLD, ops).buffer)
  {
    if ops == [] {
      assert Pow2(0) == 1;
    } else {
      BackoffLaw(c, ops[..|ops| - 1]);
      StepPaced(c, Exec(c, NEW_WORLD, ops[..|ops| - 1]), ops[|ops| - 1]);
    }
  }

  /** Any sink keeps that law with any answer, except one that fails and hands nothing back: then the
      buffering period goes on without records. */
  lemma PacingBreaksIffEmptyRefusal(b: Buffer, now: int, later: int, available: bool, reply: Result<(), seq<Record>>)
    requires Paced(b)
    ensures Paced(Flush(b, now, later, available, reply)) <==> !(Attempts(b, now) && available && reply == Err([]))
  {
    assert Pow2(0) == 1;
    assert Pow2(b.retry.attemptCount + 1) == 2 * Pow2(b.retry.attemptCount);
  }

  function TimeUntilRetry(c: Config, b: Buffer, now: int): Option<int> {
    if b.records == [] || b.retry.IsExpired(c.maxBufferDuration, now) then None
    else match b.retry.lastAttempt
      case None => Some(0)
      case Some(last) => Some(Max(0, b.retry.currentBackoff - (now - last)))
  }

  /** The flush loop's sleep ends exactly when an attempt is due. */
  lemma SleepsJustLongEnough(c: Config, b: Buffer, now: int, slept: nat)
    requires TimeUntilRetry(c, b, now).Some?
    ensures Attempts(b, now + slept) <==> slept >= TimeUntilRetry(c, b, now).value
  {
  }

  // --- Buffering periods ------------------------------------------------------------------

  /** When the current buffering period began: the push that found nothing held. */
  function PeriodStart(c: Config, ops: seq<Op>): Option<int> {
    if ops == [] || Exec(c, NEW_WORLD, ops).buffer.records == [] then None
    else
      var init, op := ops[..|ops| - 1], ops[|ops| - 1];
      if op.DoPush? && Exec(c, NEW_WORLD, init).buffer.records == [] then Some(op.now) else PeriodStart(c, init)
  }

  /** How many tries have failed in the current period, and when the last of them did. */
  datatype Tries = Tries(count: nat, last: Option<int>)

  function FailedTries(c: Config, ops: seq<Op>): Tries {
    if ops == [] || Exec(c, NEW_WORLD, ops).buffer.records == [] then Tries(0, None)
    else
      var init, op := ops[..|ops| - 1], ops[|ops| - 1];
      var before := FailedTries(c, init);
      var was, has := Exec(c, NEW_WORLD, init).buffer.stats, Exec(c, NEW_WORLD, ops).buffer.stats;
      if has.retryAttempts > was.retryAttempts && (op.DoFlush? || op.DoTick?)
      then Tries(before.count + 1, Some(op.later)) else before
  }

  lemma StepMovesRetry(c: Config, w: World, op: Op)
    requires Paced(w.buffer) && Paced(Step(c, w, op).buffer)
    ensures var b, b' := w.buffer, Step(c, w, op).buffer;
            if b'.records == [] then b'.retry == RESET || b' == b
            else
              && b'.retry.bufferingStarted ==
                 (if op.DoPush? && b.records == [] then Some(op.now) else b.retry.bufferingStarted)
              && b'.stats.retryAttempts >= b.stats.retryAttempts
              && if b'.stats.retryAttempts > b.stats.retryAttempts
                 then (op.DoFlush? || op.DoTick?)
                      && b'.retry.attemptCount == b.retry.attemptCount + 1 && b'.retry.lastAttempt == Some(op.later)
                 else b'.retry.attemptCount == b.retry.attemptCount && b'.retry.lastAttempt == b.retry.lastAttempt
  {
    hide Mark, With, Backoff;
  }

  /** The retry state is these two, whatever happened. */
  lemma {:induction false} StateIsPeriodAndTries(c: Config, ops: seq<Op>)
    ensures var r, tries := Exec(c, NEW_WORLD, ops).buffer.retry, FailedTries(c, ops);
            && r.bufferingStarted == PeriodStart(c, ops)
            && r.attemptCount == tries.count && r.lastAttempt == tries.last
  {
    hide Step, Backoff;
    BackoffLaw(c, ops);
    if ops == [] {
    } else {
      var init := ops[..|ops| - 1];
      StateIsPeriodAndTries(c, init);
      BackoffLaw(c, init);
      StepMovesRetry(c, Exec(c, NEW_WORLD, init), ops[|ops| - 1]);
    }
  }

  /** Main result on pushes: over every run, a record pushed is discarded as expired exactly if records
      are held and at least the maximum duration has passed since the push that began the period.
      Otherwise it is let in, and of all records the latest are kept, as many as the capacity allows. */
  lemma PushedRecordsFate(c: Config, ops: seq<Op>, record: Record, now: int)
    ensures var w, start := Exec(c, NEW_WORLD, ops), PeriodStart(c, ops);
            var w', all := Step(c, w, DoPush(record, now)), w.buffer.records + [record];
            && |w'.fates| == |w.fates| + 1 && (w.buffer.records != [] <==> start.Some?)
            && if w.buffer.records != [] && now - start.value >= c.maxBufferDuration
               then w'.fates == w.fates + [Expired] && w'.buffer.records == w.buffer.records
               else w'.fates[|w.fates|] == Held
                    && w'.buffer.records == all[|all| - Min(|all|, Max(c.capacity, 1))..]
  {
    hide Exec, PeriodStart, FailedTries, Push, Mark, With;
    ExecAccounted(c, ops);
    StateIsPeriodAndTries(c, ops);
    BackoffLaw(c, ops);
    PushKeepsLatest(c, Exec(c, NEW_WORLD, ops).buffer, record, now);
  }

  lemma PushKeepsLatest(c: Config, b: Buffer, record: Record, now: int)
    requires |b.records| <= Max(c.capacity, 1)
    ensures var b', all := Push(c, b, record, now), b.records + [record];
            if b.retry.IsExpired(c.maxBufferDuration, now) then b'.records == b.records
            else b'.records == all[|all| - Min(|all|, Max(c.capacity, 1))..]
  {
    var all := b.records + [record];
    if b.records != [] {
      assert all[1..] == b.records[1..] + [record];
    }
    assert all[0..] == all;
  }

  /** Main result on tries: over every run, a flush tries the sink exactly if records are held and no
      try has failed in this period, or the last one at least 30 s * 2^count before, 480 s at most;
      a round of the loop, exactly if moreover the period has not lasted the maximum duration. A try
      that takes everything ends the period, any other is counted as failed and keeps the rest. */
  lemma TriesWhenDue(c: Config, ops: seq<Op>, now: int, check: int, later: int, available: bool, taken: nat)
    ensures var w, tries := Exec(c, NEW_WORLD, ops), FailedTries(c, ops);
            var due := w.buffer.records != []
                       && (tries.last.None? || check - tries.last.value >= Min(30_000 * Pow2(tries.count), 480_000));
            var over := PeriodStart(c, ops).Some? && now - PeriodStart(c, ops).value >= c.maxBufferDuration;
            && Tried(w, Step(c, w, DoFlush(check, later, available, taken)), due, available, taken)
            && Tried(w, Step(c, w, DoTick(now, check, later, available, taken)), due && !over, available, taken)
  {
    hide Exec, PeriodStart, FailedTries, Push, Mark, With;
    StateIsPeriodAndTries(c, ops);
    BackoffLaw(c, ops);
  }

  /** From w to w' the sink was tried, if due, and only then. */
  ghost predicate Tried(w: World, w': World, due: bool, available: bool, taken: nat) {
    var b, b' := w.buffer, w'.buffer;
    if !due then b' == b && w'.received == w.received
    else if available && taken >= |b.records| then
      && b'.records == [] && w'.received == w.received + b.records
      && b'.stats == b.stats.(successfulFlushes := b.stats.successfulFlushes + 1, bufferedCount := 0)
    else
      var n := if available then taken else 0;
      && b'.records == b.records[n..] && w'.received == w.received + b.records[..n]
      && b'.stats.retryAttempts == b.stats.retryAttempts + 1
      && b'.stats.successfulFlushes == b.stats.successfulFlushes
      && b'.stats.evicted == b.stats.evicted && b'.stats.expired == b.stats.expired
  }

  /** By default the buffer holds 10,000 records and lets records in for an hour. */
  lemma DefaultLimits()
    ensures DEFAULTS == Config(10_000, 60 * 60 * 1000)
  {
  }

  // --- Attempts before the limit ----------------------------------------------------------

  /** Buffering time at which attempt n can come at the earliest. */
  function Earliest(n: nat): nat
    requires n >= 1
  {
    if n == 1 then 0 else Earliest(n - 1) + Backoff(n - 1)
  }

  function ClockAfter(start: int, ops: seq<Op>): int {
    if ops == [] then start
    else
      match ops[|ops| - 1]
      case DoPush(_, now) => now
      case DoFlush(_, later, _, _) => later
      case DoTick(_, _, later, _, _) => later
      case DoClear => ClockAfter(start, ops[..|ops| - 1])
  }

  /** The clock never goes back, and nothing but the flush loop flushes. */
  ghost predicate OnlyTheLoopFlushes(start: int, ops: seq<Op>) {
    ops == [] ||
    var before := ClockAfter(start, ops[..|ops| - 1]);
    && OnlyTheLoopFlushes(start, ops[..|ops| - 1])
    && match ops[|ops| - 1]
       case DoPush(_, now) => before <= now
       case DoFlush(_, _, _, _) => false
       case DoTick(now, check, later, _, _) => before <= now <= check <= later
       case DoClear => true
  }

  ghost predicate InEpisode(r: RetryState, clock: int) {
    && (r.bufferingStarted.Some? ==> r.bufferingStarted.value <= clock)
    && (r.lastAttempt.Some? ==>
          && r.attemptCount >= 1 && r.bufferingStarted.Some?
          && r.bufferingStarted.value + Earliest(r.attemptCount) <= r.lastAttempt.value <= clock)
  }

  lemma {:induction false} EpisodeLaw(c: Config, start: int, ops: seq<Op>)
    requires OnlyTheLoopFlushes(start, ops)
    ensures InEpisode(Exec(c, NEW_WORLD, ops).buffer.retry, ClockAfter(start, ops))
  {
    hide Mark, With;
    if ops == [] {
    } else {
      EpisodeLaw(c, start, ops[..|ops| - 1]);
      BackoffLaw(c, ops[..|ops| - 1]);
    }
  }

  lemma {:induction false} EarliestGrows(m: nat, n: nat)
    requires 1 <= m <= n
    ensures Earliest(m) <= Earliest(n)
  {
    if m < n {
      EarliestGrows(m, n - 1);
    }
  }

  lemma EarliestTimes()
    ensures Earliest(2) == 60_000 && Earliest(3) == 180_000 && Earliest(4) == 420_000 && Earliest(5) == 900_000
    ensures Earliest(6) == 1_380_000 && Earliest(7) == 1_860_000 && Earliest(8) == 2_340_000
    ensures Earliest(9) == 2_820_000 && Earliest(10) == 3_300_000 && Earliest(11) == 3_780_000
  {
  }

  /** When the flush loop makes its n-th attempt in a buffering period, at least Earliest(n) has
      passed. So within the default limit of one hour n is at most 10, unless more than three minutes
      go by between the two readings of the clock in one round. */
  lemma LoopAttempts(c: Config, start: int, ops: seq<Op>, now: int, check: int)
    requires OnlyTheLoopFlushes(start, ops) && ClockAfter(start, ops) <= now <= check
    requires var b := Exec(c, NEW_WORLD, ops).buffer;
             Attempts(b, check) && !b.retry.IsExpired(c.maxBufferDuration, now)
    ensures var r, n := Exec(c, NEW_WORLD, ops).buffer.retry, Exec(c, NEW_WORLD, ops).buffer.retry.attemptCount + 1;
            && r.bufferingStarted.Some?
            && Earliest(n) <= check - r.bufferingStarted.value
            && now - r.bufferingStarted.value < c.maxBufferDuration
            && (c.maxBufferDuration <= MAX_BUFFER_DURATION && check - now <= 180_000 ==> n <= 10)
  {
    EpisodeLaw(c, start, ops);
    BackoffLaw(c, ops);
    EarliestTimes();
    var n := Exec(c, NEW_WORLD, ops).buffer.retry.attemptCount + 1;
    if n > 10 {
      EarliestGrows(11, n);
    }
  }

  /** A record pushed at time 0, and n rounds of the loop, each when due, all in vain. */
  function Outage(record: Record, n: nat): seq<Op> {
    if n == 0 then [DoPush(record, 0)]
    else Outage(record, n - 1) + [DoTick(Earliest(n), Earliest(n), Earliest(n), false, 0)]
  }

  /** Ten attempts do fit within the hour. */
  lemma {:induction false} TenAttemptsHappen(record: Record, n: nat)
    requires n <= 10
    ensures var w := Exec(DEFAULTS, NEW_WORLD, Outage(record, n));
            && w.buffer.records == [record]
            && w.buffer.stats.retryAttempts == n
            && w.buffer.retry == RetryState(Some(0), if n == 0 then None else Some(Earliest(n)), n, Backoff(n))
  {
    hide Mark, With;
    if n == 0 {
      assert Outage(record, 0)[..0] == [];
      assert Pow2(0) == 1;
    } else {
      TenAttemptsHappen(record, n - 1);
      var before := Outage(record, n - 1);
      assert Outage(record, n)[..|before|] == before;
      EarliestTimes();
      EarliestGrows(n, 10);
      assert Pow2(n) == 2 * Pow2(n - 1);
    }
  }

  // --- An expired buffer ------------------------------------------------------------------

  ghost predicate PushesAndTicksFrom(now: int, ops: seq<Op>) {
    forall i :: 0 <= i < |ops| ==> (ops[i].DoPush? || ops[i].DoTick?) && ops[i].now >= now
  }

  /** Once a buffer has expired, no amount of pushing and looping moves it: its records stay where
      they are, nothing reaches the sink, and every push is discarded and counted. */
  lemma {:induction false} ExpiredStaysStuck(c: Config, w: World, now: int, ops: seq<Op>)
    requires w.buffer.retry.IsExpired(c.maxBufferDuration, now) && PushesAndTicksFrom(now, ops)
    ensures var w' := Exec(c, w, ops);
            && |w'.pushed| >= |w.pushed|
            && (var discarded := |w'.pushed| - |w.pushed|;
                w'.buffer == w.buffer.(stats := w.buffer.stats.(expired := w.buffer.stats.expired + discarded)))
            && w'.received == w.received
  {
    hide Mark, With;
    if ops == [] {
    } else {
      ExpiredStaysStuck(c, w, now, ops[..|ops| - 1]);
      assert ops[|ops| - 1].now >= now;
    }
  }

  // --- The sink ---------------------------------------------------------------------------

  /** The records whose send was accepted, or those whose send was not. */
  function Chosen<T>(records: seq<T>, accepts: seq<bool>, which: bool): seq<T>
    requires |accepts| == |records|
  {
    if records == [] then []
    else (if accepts[0] == which then [records[0]] else []) + Chosen(records[1..], accepts[1..], which)
  }

  lemma {:induction false} ChosenAppended<T>(records: seq<T>, accepts: seq<bool>, record: T, a: bool,
                                          which: bool)
    requires |accepts| == |records|
    ensures Chosen(records + [record], accepts + [a], which) ==
            Chosen(records, accepts, which) + if a == which then [record] else []
  {
    if records == [] {
      assert records + [record] == [record] && accepts + [a] == [a];
    } else {
      ChosenAppended(records[1..], accepts[1..], record, a, which);
      assert (records + [record])[1..] == records[1..] + [record];
      assert (accepts + [a])[1..] == accepts[1..] + [a];
    }
  }

  lemma {:induction false} ChosenMembers<T(!new)>(records: seq<T>, accepts: seq<bool>, which: bool, x: T)
    requires |accepts| == |records|
    ensures x in Chosen(records, accepts, which) <==>
            exists i :: 0 <= i < |records| && records[i] == x && accepts[i] == which
  {
    if records == [] {
    } else {
      ChosenMembers(records[1..], accepts[1..], which, x);
      if i :| 0 <= i < |records| && records[i] == x && accepts[i] == which {
        assert i > 0 ==> records[1..][i - 1] == x && accepts[1..][i - 1] == which;
      }
      if j :| 0 <= j < |records| - 1 && records[1..][j] == x && accepts[1..][j] == which {
        assert records[j + 1] == x && accepts[j + 1] == which;
      }
    }
  }

  /** A channel that stays closed once closed accepts a first part of the batch and returns the
      rest: what Flush asks of a sink. */
  lemma {:induction false} PermanentClosingReturnsSuffix<T>(records: seq<T>, accepts: seq<bool>, k: nat)
    requires |accepts| == |records| && k <= |records|
    requires forall i :: 0 <= i < |accepts| ==> accepts[i] == (i < k)
    ensures Chosen(records, accepts, true) == records[..k] && Chosen(records, accepts, false) == records[k..]
  {
    if records == [] {
    } else {
      PermanentClosingReturnsSuffix(records[1..], accepts[1..], if k > 0 then k - 1 else 0);
    }
  }

  lemma RefusedFrom<T(!new)>(records: seq<T>, accepts: seq<bool>, k: nat, j: nat)
    requires |accepts| == |records| && NoDup(records) && k <= |records| && j < |records|
    requires Chosen(records, accepts, false) == records[k..]
    ensures accepts[j] <==> j < k
  {
    ChosenMembers(records, accepts, false, records[j]);
    if j >= k {
      assert records[j] == records[k..][j - k];
    }
  }

  lemma SuffixMeansPermanent<T(!new)>(records: seq<T>, accepts: seq<bool>, k: nat)
    requires |accepts| == |records| && NoDup(records) && k <= |records|
    requires Chosen(records, accepts, false) == records[k..]
    ensures forall i, j :: 0 <= i < j < |accepts| && accepts[j] ==> accepts[i]
  {
    forall i, j | 0 <= i < j < |accepts| && accepts[j] ensures accepts[i] {
      RefusedFrom(records, accepts, k, i);
      RefusedFrom(records, accepts, k, j);
    }
  }

  function Positions(n: nat): (r: seq<int>)
    ensures |r| == n
  {
    seq(n, i => i)
  }

  /** And only such a channel does: whatever the records, equal ones included, the positions refused
      are the last ones of the batch exactly if no send succeeds after one that failed. */
  lemma SuffixIffClosingIsPermanent(accepts: seq<bool>)
    ensures var ps := Positions(|accepts|);
            (exists k: nat :: k <= |ps| && Chosen(ps, accepts, false) == ps[k..]) <==>
            (forall i, j :: 0 <= i < j < |accepts| && accepts[j] ==> accepts[i])
  {
    var ps := Positions(|accepts|);
    if forall i, j :: 0 <= i < j < |accepts| && accepts[j] ==> accepts[i] {
      var k := 0;
      while k < |accepts| && accepts[k]
        invariant 0 <= k <= |accepts| && forall i :: 0 <= i < k ==> accepts[i]
      {
        k := k + 1;
      }
      PermanentClosingReturnsSuffix(ps, accepts, k);
    }
    if k: nat :| k <= |ps| && Chosen(ps, accepts, false) == ps[k..] {
      SuffixMeansPermanent(ps, accepts, k);
    }
  }

  /** chosen lists the records at the given positions. */
  ghost predicate AtPositions(records: seq<Record>, positions: seq<int>, chosen: seq<Record>) {
    |chosen| == |positions| &&
    forall j :: 0 <= j < |positions| ==> 0 <= positions[j] < |records| && chosen[j] == records[positions[j]]
  }

  lemma AtPositionsGrows(records: seq<Record>, positions: seq<int>, chosen: seq<Record>, record: Record)
    requires AtPositions(records, positions, chosen)
    ensures AtPositions(records + [record], positions, chosen)
    ensures AtPositions(records + [record], positions + [|records|], chosen + [record])
  {
  }

  /** The records accepted or refused are those at the positions accepted or refused. */
  lemma {:induction false} ChosenAtPositions(records: seq<Record>, accepts: seq<bool>, which: bool)
    requires |accepts| == |records|
    ensures AtPositions(records, Chosen(Positions(|accepts|), accepts, which), Chosen(records, accepts, which))
  {
    if records == [] {
    } else {
      hide Chosen, AtPositions;
      var n := |records| - 1;
      var init, a := records[..n], accepts[..n];
      ChosenAtPositions(init, a, which);
      assert Positions(n + 1) == Positions(n) + [n];
      assert records == init + [records[n]] && accepts == a + [accepts[n]];
      ChosenAppended(init, a, records[n], accepts[n], which);
      ChosenAppended(Positions(n), a, n, accepts[n], which);
      AtPositionsGrows(init, Chosen(Positions(n), a, which), Chosen(init, a, which), records[n]);
      var ps, rs := Chosen(Positions(n), a, which), Chosen(init, a, which);
      assert ps + [] == ps && rs + [] == rs;
    }
  }

  class ChannelAnalyzerSink {
    var received: seq<Record>

    constructor ()
      ensures received == []
    {
      received := [];
    }

    /** accepts[i] says whether the channel is still open for record i. */
    method SendBatch(records: seq<Record>, accepts: seq<bool>) returns (r: Result<(), seq<Record>>)
      requires |accepts| == |records|
      modifies this
      ensures received == old(received) + Chosen(records, accepts, true)
      ensures var failed := Chosen(records, accepts, false); r == if failed == [] then Ok(()) else Err(failed)
    {
      var failed := [];
      var i := 0;
      while i < |records|
        invariant 0 <= i <= |records|
        invariant received == old(received) + Chosen(records[..i], accepts[..i], true)
        invariant failed == Chosen(records[..i], accepts[..i], false)
      {
        ChosenAppended(records[..i], accepts[..i], records[i], accepts[i], true);
        ChosenAppended(records[..i], accepts[..i], records[i], accepts[i], false);
        assert records[..i + 1] == records[..i] + [records[i]] && accepts[..i + 1] == accepts[..i] + [accepts[i]];
        if accepts[i] {
          received := received + [records[i]];
        } else {
          failed := failed + [records[i]];
        }
        i := i + 1;
      }
      assert records[..i] == records && accepts[..i] == accepts;
      r := if failed == [] then Ok(()) else Err(failed);
    }
  }

  // --- The buffer as an object ------------------------------------------------------------

  class RetryBuffer {
    const config: Config
    var records: seq<Record>
    var retryState: RetryState
    var stats: Stats

    ghost function State(): Buffer
      reads this
    {
      Buffer(records, retryState, stats)
    }

    constructor (config: Config)
      ensures this.config == config && State() == EMPTY
    {
      this.config := config;
      records, retryState, stats := [], RESET, Stats(0, 0, 0, 0, 0);
    }

    method Reset()
      modifies this`retryState
      ensures retryState == RESET
    {
      retryState := RetryState(None, None, 0, INITIAL_RETRY_INTERVAL);
    }

    method RecordAttempt(now: int)
      modifies this`retryState
      ensures retryState == old(retryState).Recorded(now)
    {
      if retryState.bufferingStarted.None? {
        retryState := retryState.(bufferingStarted := Some(now));
      }
      retryState := retryState.(lastAttempt := Some(now), attemptCount := retryState.attemptCount + 1);
      retryState := retryState.(currentBackoff := Min(retryState.currentBackoff * 2, MAX_RETRY_INTERVAL));
    }

    method PushRecord(record: Record, now: int)
      modifies this
      ensures State() == Push(config, old(State()), record, now)
    {
      if retryState.IsExpired(config.maxBufferDuration, now) {
        stats := stats.(expired := stats.expired + 1);
        return;
      }
      if retryState.bufferingStarted.None? {
        retryState := retryState.(bufferingStarted := Some(now));
      }
      if |records| >= config.capacity {
        if records != [] {
          records := records[1..];
        }
        stats := stats.(evicted := stats.evicted + 1);
      }
      records := records + [record];
      stats := stats.(bufferedCount := |records|);
    }

    /** Put undelivered records back in front, last one first. */
    method PushFrontAll(remaining: seq<Record>)
      modifies this`records
      ensures records == remaining + old(records)
    {
      var i := |remaining|;
      while i > 0
        invariant 0 <= i <= |remaining|
        invariant records == remaining[i..] + old(records)
      {
        i := i - 1;
        records := [remaining[i]] + records;
      }
    }

    /** A flush to any sink: `available` is what it says of itself, `reply` what it answers to the
        batch if it is asked. */
    method TryFlush(now: int, later: int, available: bool, reply: Result<(), seq<Record>>) returns (flushed: bool)
      modifies this
      ensures State() == Flush(old(State()), now, later, available, reply)
      ensures flushed <==> old(records) == [] || (Attempts(old(State()), now) && available && reply.Ok?)
    {
      if records == [] {
        return true;
      }
      if !retryState.ShouldRetry(now) {
        return false;
      }
      if !available {
        RecordAttempt(later);
        stats := stats.(retryAttempts := stats.retryAttempts + 1);
        return false;
      }
      records := [];
      match reply
      case Ok(_) =>
        Reset();
        stats := stats.(successfulFlushes := stats.successfulFlushes + 1, bufferedCount := 0);
        return true;
      case Err(remaining) =>
        PushFrontAll(remaining);
        RecordAttempt(later);
        stats := stats.(retryAttempts := stats.retryAttempts + 1, bufferedCount := |records|);
        return false;
    }

    /** A flush to the channel, which takes `taken` more records and then stays closed: the channel
        receives exactly what leaves the buffer. */
    method TryFlushToChannel(sink: ChannelAnalyzerSink, now: int, later: int, available: bool, taken: nat)
      returns (flushed: bool)
      modifies this, sink
      ensures State() == Flush(old(State()), now, later, available, Answer(old(records), taken))
      ensures sink.received == old(sink.received) + old(records)[..Delivery(old(State()), now, available, taken)]
      ensures flushed <==> records == []
    {
      var reply := Answer(records, taken);
      if records != [] && retryState.ShouldRetry(now) && available {
        var accepts := seq(|records|, i => i < taken);
        PermanentClosingReturnsSuffix(records, accepts, Min(taken, |records|));
        reply := sink.SendBatch(records, accepts);
      }
      flushed := TryFlush(now, later, available, reply);
    }

    /** What the flush loop does when it wakes up. */
    method FlushRound(now: int, check: int, later: int, available: bool, reply: Result<(), seq<Record>>)
      modifies this
      ensures State() == Tick(config, old(State()), now, check, later, available, reply)
    {
      if records != [] && !retryState.IsExpired(config.maxBufferDuration, now) {
        var _ := TryFlush(check, later, available, reply);
      }
    }

    method ClearAll()
      modifies this
      ensures State() == Clear(old(State()))
    {
      records := [];
      Reset();
      stats := stats.(bufferedCount := 0);
    }
  }
}
