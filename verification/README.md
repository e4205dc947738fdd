# tlapix: a verified model of its stateful core

tlapix watches TLS handshakes in the kernel, collects the certificates it sees, and acts on them
by writing entries into kernel maps that drop connections. This project models the parts of it
that keep state or parse bytes, and proves what they are for. Every file is one module; `dafny
verify dfyconfig.toml` checks them all.

**Deduplication** (`Lru`, `Dedup`, `Restart`, `RestartNoticed`, `Engine`, with the tables of
`Storage`). A bounded LRU cache of fingerprints stands in front of a table that counts connections.
Over every run the cache is the `capacity` most recently used fingerprints, the table's counts are exact and independent of
the capacity, restarts included, and forwarding is decided by reuse distance. After a crash the cache
is rebuilt from `ORDER BY last_seen DESC LIMIT capacity`. That reproduces the live cache exactly if
every event left a stamp later than all others; and, as long as there are as many unused fingerprints
as the cache has room for, this is also exactly when no later forwarding decision can ever tell that
there was a restart. Strictly increasing stamps ensure it and late stamps break it.

**Kernel parsers** (`Wire`, `Collector`, `KernelExecutor`, `Handshakes`). Two hand-written parsers read Ethernet,
IPv4 (section 3.1 of RFC 791), TCP (section 3.1 of RFC 9293) and the TLS Certificate message
(sections 6.2.1 and 7.4.2 of RFC 5246). `Wire` holds the encoder that serves as their
specification. The collector's parser recovers what was written, from the whole packet and from any
first part of it, and the executor's parser agrees with it on every packet. `Handshakes` says, on the
bytes of any packet whatsoever, what is collected, counted and dropped: a packet has at most one key it can
be dropped for, the leaf it shows, and other handshake messages always pass unharmed.

**Kernel maps** (`KernelMaps`). A seen-set and per-CPU counters updated without locks. In every
interleaving of map operations the counters add up, exactly if the fingerprints observed fit.

**Action maps** (`Directives`, `ActionEntry`, `MapWriter`, `ConcurrentWrites`). Directives are written
into three kernel maps under limits, with retries. Each map holds, for each key, the last successful
write not removed since, and a packet is dropped exactly if such a write says so. With k calls
interleaved lock by lock the maps are left as their successful writes would leave them one after the
other, and the limits are exceeded by at most k - 1 entries, which does happen.

**Retry buffer** (`RetryBuffer`). Records wait here while the analyzer is away: nothing is lost
unaccounted, duplicated or reordered; the backoff law holds; one hour allows ten attempts.

**Shadows and directives** (`Escalation`, `Reconciliation`, `ShadowLifecycle`, `ShadowInterleaving`,
`Conflicts`, `Expiry`, `Inventory`, `SniMatch`). Sweeps over shared tables, each proved against a
declarative account of the tables afterwards, and their interplay over whole runs: sweep by sweep, and
for the shadow table also statement by statement.

Objects the program mutates are classes whose methods are proved equal to functions of the old
state; the laws are lemmas about those functions. Where the code and its comments disagree, the code
is followed: kernel maps are keyed by the first 32 bytes of the certificate, not by its SHA-256 hash; a
kernel event's certificate length is the length copied, so it does not show truncation; a map at the
service's entry limit refuses to overwrite an existing key as well; an expired buffer is never
flushed by the loop, only cleared or flushed directly; the configured initial retry interval is not used.

What is assumed throughout: storage calls succeed; freshly drawn UUIDs are new; no certificate row is
deleted during a deduplication run; a sweep, refresh or pass has its tables to itself while it runs,
except in `ShadowInterleaving`, which drops this for the shadow table and shows what it costs; each sweep
reads its clock once; at most one escalation sweep and one reconciliation pass are under way at a time;
reading a field of a packet succeeds exactly if it lies within the packet; inserting into a per-CPU map
writes the calling CPU's slot and starts a fresh key's other slots at zero; the LRU library promotes on a
hit and evicts the least recently used entry; 64-bit arithmetic wraps around, as in release builds (with
overflow checks on, a backoff that does not fit stops the program instead).

## Model

| member | source | states |
|---|---|---|
| Lru.StackLaw | crates/tlapix-collector/src/dedup.rs:168-178 | after any sequence of uses the cache of capacity c is the first c distinct fingerprints by recency |
| Lru.ByRecencyIsByLastUse | crates/tlapix-collector/src/dedup.rs:168-178 | that recency order is the order of last uses, latest first |
| Lru.SmallerCacheIsPrefix | crates/tlapix-collector/src/dedup.rs:100-107 | a smaller cache is always a prefix of a larger one |
| Lru.MissesAntitone | crates/tlapix-collector/src/dedup.rs:168-178 | misses never increase with capacity |
| Lru.MissesIffReuseDistance | crates/tlapix-collector/src/dedup.rs:168-178 | a use misses iff the fingerprint is unknown or at least c others were used since |
| Lru.MissesOncePerKey | crates/tlapix-collector/src/dedup.rs:168-178 | one miss per distinct fingerprint when all fit |
| Lru.EveryKeyMisses | crates/tlapix-collector/src/dedup.rs:168-178 | and never fewer |
| Lru.LruCache.Put | crates/tlapix-collector/src/dedup.rs:168-178 | insertion moves the key to the front and drops only the least recent one when over capacity |
| Lru.LruCache.Get | crates/tlapix-collector/src/dedup.rs:168-178 | a hit promotes, a miss changes nothing |
| Dedup.RunIsLru | crates/tlapix-collector/src/dedup.rs:253-297 | the engine's cache is the LRU cache of the fingerprints handled; forwarded events are its misses; forwarded plus duplicates is the total |
| Dedup.ForwardedIffNotRecent | crates/tlapix-collector/src/dedup.rs:253-297 | an event is forwarded iff its fingerprint is unknown or at least capacity others have been seen since |
| Dedup.ForwardedCount | crates/tlapix-collector/src/dedup.rs:253-297 | at least one forward per distinct fingerprint, exactly one when they fit, never more with a larger cache |
| Dedup.EventStampsItsRow | crates/tlapix-collector/src/dedup.rs:263-290 | an event stamps its own row, with the clock on a hit and its own stamp otherwise, counts one connection if the row is there, and touches no other row |
| Dedup.HandleKeepsCounts | crates/tlapix-common/src/storage.rs:209-212 | handling one event keeps: every cached fingerprint has a row, and every row counts its events |
| Dedup.StoreCountsEveryEvent | crates/tlapix-collector/src/dedup.rs:253-297 | for every run and capacity each row's connection count is its first count plus its later events |
| Dedup.CapacityInvisibleInStore | crates/tlapix-collector/src/dedup.rs:253-297 | two capacities leave the same store, last-seen stamps aside |
| Restart.ListingIsUnique | crates/tlapix-common/src/storage.rs:339-362 | with distinct stamps the reload query has one answer, the most recent rows in order |
| Restart.FreshEventKeepsSync | crates/tlapix-collector/src/dedup.rs:253-297 | an event whose stamp is the latest keeps cache order and table order in step |
| Restart.RestartsAreInvisible | crates/tlapix-collector/src/dedup.rs:127-152 | with such stamps, restarts anywhere in the run change neither cache, store nor any forwarding decision |
| Restart.RestartsNeverMiscount | crates/tlapix-collector/src/dedup.rs:127-152 | with any stamps and any listings reloaded, every row still counts exactly its events |
| Restart.ReloadFaithfulIffFresh | crates/tlapix-collector/src/dedup.rs:127-152 | reloading would reproduce the live cache at every point of a run iff every event left the latest stamp |
| Restart.IncreasingStampsAreFresh | crates/tlapix-collector/src/dedup.rs:253-297 | stamps that strictly increase in handling order are enough |
| Restart.LateStampShowsRestart | crates/tlapix-collector/src/dedup.rs:253-297 | a concrete run with an event stamped before an earlier one was touched, where a restart is visible |
| RestartNoticed.CachesAreToldApart | crates/tlapix-collector/src/dedup.rs:168-178 | two different caches of equal size disagree about some key after some uses, given enough new keys |
| RestartNoticed.NeverNoticedIffFresh | crates/tlapix-collector/src/dedup.rs:127-152 | no restart at any point ever changes a forwarding decision afterwards iff every event left the latest stamp, given as many unused fingerprints as the capacity |
| Engine.ReloadRebuildsListing | crates/tlapix-collector/src/dedup.rs:127-152 | inserting a listing in reverse order makes the cache that listing |
| Engine.DeduplicationEngine.ReloadFromStorage | crates/tlapix-collector/src/dedup.rs:127-152 | the cache becomes a most-recent listing of the store, latest first |
| Engine.DeduplicationEngine.IsSeen | crates/tlapix-collector/src/dedup.rs:158-160 | answers membership in the cache and promotes |
| Engine.DeduplicationEngine.MarkSeen | crates/tlapix-collector/src/dedup.rs:168-178 | answers whether the fingerprint was cached, and makes it the most recent |
| Engine.DeduplicationEngine.HandleEvent | crates/tlapix-collector/src/dedup.rs:253-297 | one event takes engine, store and counters exactly one step of the specified run |
| Storage.Storage.UpsertCertificate | crates/tlapix-common/src/storage.rs:185-240 | on conflict only the stamp and the count change, by one |
| Storage.Storage.TouchCertificate | crates/tlapix-common/src/storage.rs:273-291 | updates stamp and count of an existing row only |
| Storage.Storage.ListRecentFingerprints | crates/tlapix-common/src/storage.rs:339-362 | some listing of the latest rows, ties in any order |
| Storage.Storage.UpdateDirectiveStatus | crates/tlapix-common/src/storage.rs:430-451 | sets status, execution time and reason of one row |
| Storage.Storage.UpsertShadowCertificate | crates/tlapix-common/src/storage.rs:546-580 | on conflict classification time, addresses and first sighting stay |
| Storage.SettlePendingDirectives | crates/tlapix-analyzer/src/shadow_escalation.rs:163-183 | one by one, exactly the certificate's pending directives get the new status; returns how many |
| Wire.FrameParts | crates/tlapix-ebpf/src/main.rs:155-370 | in a written frame the IP, TCP, TLS and certificate parts sit where the length fields say |
| Wire.IpFields | crates/tlapix-ebpf/src/main.rs:163-187 | the written IPv4 front reads back: type, header length, protocol, addresses |
| Wire.TcpFields | crates/tlapix-ebpf/src/main.rs:188-204 | the written TCP front reads back: ports and data offset |
| Wire.TlsFields | crates/tlapix-ebpf/src/main.rs:205-274 | the written record and handshake headers read back, lengths included |
| Collector.EntriesOfList | crates/tlapix-ebpf/src/main.rs:382-422 | counting entries of a written list stops at the list, the packet, or ten |
| Collector.RoundTripOfAnyPrefix | crates/tlapix-ebpf/src/main.rs:155-370 | of any first part of a written frame: an event iff a byte of the leaf arrived, with addresses, ports, depth, certificate bytes and both prefixes as far as they arrived |
| Collector.RoundTrip | crates/tlapix-ebpf/src/main.rs:155-370 | of a whole frame: depth min(n, 10), the leaf's first min(len, 4096) bytes zero-padded, the 32-byte prefixes of leaf and second certificate |
| Collector.EventTellsTheFrame | crates/tlapix-common/src/bpf.rs:12-44 | of a whole frame, every field of the event pushed to userspace is what the sender wrote |
| Collector.CountChainDepth | crates/tlapix-ebpf/src/main.rs:382-422 | the loop computes the bounded number of list entries |
| Collector.CopyCertData | crates/tlapix-ebpf/src/main.rs:427-451 | the chunked nested loop copies exactly the bytes available and leaves the rest alone |
| Collector.ReadPseudoFingerprint | crates/tlapix-ebpf/src/main.rs:311-322 | the first bytes of the certificate, zero-padded to 32 |
| Collector.ExtractIssuerPseudoFingerprint | crates/tlapix-ebpf/src/main.rs:456-508 | the same for the second certificate, zeros if it is not there |
| Collector.ReadLeaf | crates/tlapix-ebpf/src/main.rs:343-348 | the certificate field is the leaf as far as it arrived and fits, then zeros |
| Collector.KernelCollector.ParseIp | crates/tlapix-ebpf/src/main.rs:155-187 | stops with the specified code and drop counter, or yields addresses and the TCP offset |
| Collector.KernelCollector.ParseTcp | crates/tlapix-ebpf/src/main.rs:188-204 | the same for ports and the TLS offset |
| Collector.KernelCollector.ParseCertificate | crates/tlapix-ebpf/src/main.rs:205-305 | the same for record, handshake and certificate headers |
| Collector.KernelCollector.PushEvent | crates/tlapix-ebpf/src/main.rs:307-370 | counts the certificate in the kernel maps, and pushes the event iff the ring has room |
| Collector.KernelCollector.ParseTlsHandshake | crates/tlapix-ebpf/src/main.rs:155-370 | on every packet: outcome, drop counters, kernel maps and event ring as specified |
| Handshakes.CollectsIffLeafShown | crates/tlapix-ebpf/src/main.rs:155-322 | on every packet: an event is due iff its bytes are IPv4, TCP, a handshake record of possible length, a Certificate message and a byte of a leaf of 1 to 65535 bytes; its fingerprint is that leaf's first bytes |
| Handshakes.MalformedIff | crates/tlapix-ebpf/src/main.rs:169-280 | the malformed counter moves iff a header, record or leaf length cannot be; never for another message type or a cut packet |
| Handshakes.HandshakeCountedIff | crates/tlapix-ebpf/src/main.rs:205-227 | the handshake counter moves iff the header of a handshake record of possible length arrived |
| Handshakes.CodeTellsLayer | crates/tlapix-ebpf/src/main.rs:155-304 | each error code says how far the packet got |
| Handshakes.CountersMove | crates/tlapix-ebpf/src/maps.rs:239-246 | counter 1 is malformed packets, counter 2 handshakes, and the other two stay |
| Handshakes.EventGoesIfRoom | crates/tlapix-ebpf/src/main.rs:328-370 | the event is appended iff the ring has room, with its time and whether the certificate was new |
| Handshakes.ChainDepthIsLongestWalk | crates/tlapix-ebpf/src/main.rs:382-422 | on every packet the depth is the largest number of non-empty entries, 1 to 10, standing one behind the other in the list |
| Handshakes.OtherHandshakesPass | crates/tlapix-ebpf/src/main.rs:235-248 | of a written handshake message of any type but Certificate no part yields an event, moves the malformed counter or is dropped; it is counted as a handshake iff its record header arrived |
| KernelExecutor.ParsersAgree | crates/tlapix-ebpf/src/executor.rs:147-269 | on every packet the collector succeeds iff the executor does and the leaf claims at most 65535 bytes, and then with the same 32 bytes |
| KernelExecutor.ExtractsWhatWasWritten | crates/tlapix-ebpf/src/executor.rs:147-269 | the executor reads a written frame, whole or cut, like the collector |
| KernelExecutor.IsolateOnTheWire | crates/tlapix-ebpf/src/executor.rs:104-129 | a handshake packet is dropped iff a byte of the leaf shows and the bytes shown have an active entry |
| KernelExecutor.ProtectOnTheWire | crates/tlapix-ebpf/src/executor.rs:54-79 | it is dropped iff the bytes shown have an entry that pins other bytes |
| Handshakes.EveryPacketHasOneKey | crates/tlapix-ebpf/src/executor.rs:54-129 | for every packet, the leaf it shows, or nothing, is the one key such that under every table isolating drops it iff that key has an active entry, and protecting iff that key has an entry pinning another |
| Handshakes.OthersPass | crates/tlapix-ebpf/src/executor.rs:147-245 | empty tables drop nothing, and packets that are not IPv4, TCP, handshake record or Certificate message pass under every table |
| Handshakes.ExecutorCodeTellsLayer | crates/tlapix-ebpf/src/executor.rs:147-250 | each error code says how far the packet got |
| KernelExecutor.ExtractCertFingerprint | crates/tlapix-ebpf/src/executor.rs:147-269 | computes the specified fingerprint or error |
| KernelExecutor.FingerprintsEqual | crates/tlapix-ebpf/src/executor.rs:272-283 | the comparison loop decides equality |
| KernelExecutor.Protect | crates/tlapix-ebpf/src/executor.rs:46-79 | the verdict, a packet that cannot be parsed passes |
| KernelExecutor.Isolate | crates/tlapix-ebpf/src/executor.rs:96-129 | the verdict, a packet that cannot be parsed passes |
| KernelMaps.CountsAreExact | crates/tlapix-ebpf/src/maps.rs:199-231 | in every interleaving, with room for all fingerprints, per-CPU counts add up to completed observations at every moment, and no CPU reports a fingerprint new twice |
| KernelMaps.ReportedNewAtLeastOnce | crates/tlapix-ebpf/src/maps.rs:199-216 | a fingerprint observed has been reported new by some CPU once all are idle |
| KernelMaps.CountsExactIffTheyFit | crates/tlapix-ebpf/src/maps.rs:199-231 | with all CPUs idle every count is exact iff the fingerprints observed fit the map |
| KernelMaps.ExecTracks | crates/tlapix-ebpf/src/maps.rs:199-231 | the invariant every map operation keeps, for each fingerprint |
| KernelMaps.UninterruptedCall | crates/tlapix-ebpf/src/maps.rs:199-231 | a call nobody interrupts is three such operations |
| KernelMaps.KernelMaps.IsNewCert | crates/tlapix-ebpf/src/maps.rs:199-216 | the helper on one CPU has exactly the effect of that call |
| KernelMaps.KernelMaps.UpdateCertStats | crates/tlapix-ebpf/src/maps.rs:223-231 | adds one to this CPU's slot, or starts it at one |
| MapWriter.WriteOutcomes | crates/tlapix-executor/src/map_writer.rs:232-332 | refused iff its map's count or 88 bytes an entry leave no room; otherwise succeeds iff the map has the key or room for it and some allowed attempt is free of faults; success sets exactly the routed map's key; all else leaves the maps alone and notifies once |
| MapWriter.WriteSays | crates/tlapix-executor/src/map_writer.rs:237-332 | what a failure reports and what the notifier hears: map name and count, or directive, last error and attempts |
| MapWriter.OverwriteAlwaysSucceeds | crates/tlapix-executor/src/map_writer.rs:382-390 | within the service's limits and with one attempt free of faults, a directive for a key already there goes through, full map or not, and the map does not grow |
| MapWriter.SuccessDelay | crates/tlapix-executor/src/map_writer.rs:280-304 | a write that goes through at its k-th retry has paused base * (2^k - 1) ms, iff its longest pause fits 64 bits |
| MapWriter.RoutesByType | crates/tlapix-executor/src/map_writer.rs:210-227 | alert and renew go to the alert map, protect and isolate to their own, each with its name |
| MapWriter.BackoffDoublesIffItFits | crates/tlapix-executor/src/map_writer.rs:294-304 | n pauses total base * (2^n - 1) ms iff the longest fits 64 bits |
| MapWriter.FailureDelay | crates/tlapix-executor/src/map_writer.rs:280-308 | for any number of retries from one up, a write that fails for good pauses base * (2^(retries - 1) - 1) ms, iff its longest pause, if there is one, fits 64 bits; no write pauses longer |
| MapWriter.EntryTellsDirective | crates/tlapix-common/src/bpf.rs:51-64 | the entry's codes decode to the directive's action and severity, protect entries carry the pinned fingerprint, every entry is active, and equal entries ask for the same |
| MapWriter.SequentialRunsKeepLimits | crates/tlapix-executor/src/map_writer.rs:170-180 | one request at a time, writes and removals, never exceeds memory cap, entry limit or a map's capacity |
| MapWriter.MapsHoldWhatStands | crates/tlapix-executor/src/map_writer.rs:183-217 | after any run of writes and removals each map holds, per key, the entry of the last successful directive routed there and not removed since, and nothing else |
| MapWriter.IsolationReachesTheWire | crates/tlapix-executor/src/map_writer.rs:183-207 | after any such run a packet showing its leaf is dropped by the isolate program iff an isolate directive for the bytes shown stands |
| MapWriter.ProtectionReachesTheWire | crates/tlapix-executor/src/map_writer.rs:183-207 | it is dropped by the protect program iff the protect directive that stands for the bytes shown pins other bytes |
| MapWriter.ActionMap.WriteEntry | crates/tlapix-executor/src/map_writer.rs:370-391 | inserts or overwrites, unless a fault strikes or a new key finds the map full |
| MapWriter.ActionMap.RemoveEntry | crates/tlapix-executor/src/map_writer.rs:393-401 | removes exactly the key, unless a fault strikes |
| MapWriter.MapWriterService.WriteWithRetries | crates/tlapix-executor/src/map_writer.rs:280-308 | tries until the first success or the last attempt, and pauses between failures |
| MapWriter.MapWriterService.WriteDirective | crates/tlapix-executor/src/map_writer.rs:232-332 | outcome, maps, notifications and pauses as specified |
| ConcurrentWrites.ConcurrentWritesKeepLimits | crates/tlapix-executor/src/map_writer.rs:170-180 | in every lock-by-lock interleaving of at most k calls the total stays within floor(cap / 88) + k - 1, each map within the entry limit + k - 1, and within its own capacity |
| ConcurrentWrites.StepsGoByWhatTheySee | crates/tlapix-executor/src/map_writer.rs:237-308 | each step decides by the counts it sees: map count, the three counts in turn against the cap, and a write that goes through iff there is no fault and the map takes the key |
| ConcurrentWrites.ExecContained | crates/tlapix-executor/src/map_writer.rs:232-308 | the invariant: once a limit is reached, what is there plus the calls that may still pass stays under the bound |
| ConcurrentWrites.WriteStepContained | crates/tlapix-executor/src/map_writer.rs:280-292 | a successful write retires a call that might still pass |
| ConcurrentWrites.OvershootIsReached | crates/tlapix-executor/src/map_writer.rs:238-279 | the bound is exact: k calls that all count before any writes overshoot by k - 1 |
| ConcurrentWrites.WritesTakeEffectInTurn | crates/tlapix-executor/src/map_writer.rs:280-292 | every interleaving leaves the maps as its successful writes would, one after the other |
| ConcurrentWrites.MapsHoldLastWritten | crates/tlapix-executor/src/map_writer.rs:232-308 | after it each key holds the entry of the call whose write there went through last, and a key nobody wrote is as it was |
| RetryBuffer.OrderAndConservation | crates/tlapix-collector/src/buffer.rs:180-209 | over every run: records received and held are in push order, none twice, and the oldest leave first, sent, evicted or cleared; pushes = received + held + evicted + expired + cleared; the eviction count is right iff capacity is not zero or nothing was pushed |
| RetryBuffer.PushedRecordsFate | crates/tlapix-collector/src/buffer.rs:180-209 | over every run a push is discarded as expired iff records are held and the push that began the period is at least the maximum duration ago; otherwise it is let in and the latest records are kept, as many as the capacity allows |
| RetryBuffer.TriesWhenDue | crates/tlapix-collector/src/buffer.rs:215-269 | over every run the sink is tried iff records are held and no try failed in the period or the last did min(30 * 2^count, 480) s before, by the loop only within the period's maximum; with what follows from the answer |
| RetryBuffer.DefaultLimits | crates/tlapix-collector/src/buffer.rs:19-29 | 10,000 records and one hour |
| RetryBuffer.StepAccounted | crates/tlapix-collector/src/buffer.rs:180-323 | the invariant each of push, flush, loop round and clear keeps |
| RetryBuffer.ZeroCapacityHoldsOne | crates/tlapix-collector/src/buffer.rs:196-208 | with capacity zero one record is held all the same, and counted as evicted |
| RetryBuffer.BackoffLaw | crates/tlapix-collector/src/buffer.rs:69-86 | backoff is 30 s doubled per failed attempt, capped at 480 s; a buffering period runs exactly while there are records |
| RetryBuffer.PacingBreaksIffEmptyRefusal | crates/tlapix-collector/src/buffer.rs:215-269 | for any sink and answer a flush keeps that law iff the sink does not fail handing nothing back |
| RetryBuffer.SleepsJustLongEnough | crates/tlapix-collector/src/buffer.rs:301-316 | the loop's sleep ends exactly when an attempt is due |
| RetryBuffer.LoopAttempts | crates/tlapix-collector/src/buffer.rs:374-414 | the loop's n-th attempt in a period comes no earlier than the sum of the backoffs before it, so at most ten within the hour, unless one round's two clock readings are more than three minutes apart |
| RetryBuffer.TenAttemptsHappen | crates/tlapix-collector/src/buffer.rs:374-414 | ten do happen |
| RetryBuffer.ExpiredStaysStuck | crates/tlapix-collector/src/buffer.rs:180-191 | an expired buffer is moved by no pushes and loop rounds: records stay, nothing is sent, every push is counted as expired |
| RetryBuffer.PermanentClosingReturnsSuffix | crates/tlapix-collector/src/buffer.rs:342-357 | a channel that stays closed delivers a first part of the batch and returns the rest |
| RetryBuffer.SuffixIffClosingIsPermanent | crates/tlapix-collector/src/buffer.rs:342-357 | for any batch, equal records included, the positions refused are the last ones iff no send succeeds after a failed one |
| RetryBuffer.ChosenAtPositions | crates/tlapix-collector/src/buffer.rs:342-357 | the records received and returned are those at the positions accepted and refused, in order |
| RetryBuffer.ChannelAnalyzerSink.SendBatch | crates/tlapix-collector/src/buffer.rs:342-357 | receives the accepted records in order and returns the others |
| RetryBuffer.RetryBuffer.RecordAttempt | crates/tlapix-collector/src/buffer.rs:77-86 | advances count, stamps and backoff |
| RetryBuffer.RetryBuffer.PushRecord | crates/tlapix-collector/src/buffer.rs:180-209 | one push takes the buffer to the specified state |
| RetryBuffer.RetryBuffer.TryFlush | crates/tlapix-collector/src/buffer.rs:215-269 | whatever the sink answers, one flush takes the buffer to the specified state; true iff there was nothing to send or all of it was taken |
| RetryBuffer.RetryBuffer.TryFlushToChannel | crates/tlapix-collector/src/buffer.rs:342-357 | with the channel as sink, it receives exactly what leaves the buffer |
| RetryBuffer.RetryBuffer.FlushRound | crates/tlapix-collector/src/buffer.rs:404-411 | one round of the loop flushes, to any sink, only a buffer that is neither empty nor expired, reading the clock once for each check |
| RetryBuffer.RetryBuffer.ClearAll | crates/tlapix-collector/src/buffer.rs:319-323 | empties and resets |
| Escalation.EscalateStaleShadows | crates/tlapix-analyzer/src/shadow_escalation.rs:37-157 | in whatever order rows are listed, exactly the due ones climb, and exactly those reaching Critical get one new alert and their pending directives replaced |
| Escalation.EscalateRow | crates/tlapix-analyzer/src/shadow_escalation.rs:64-147 | one row's part of that |
| Escalation.ClimbsAfterADay | crates/tlapix-analyzer/src/shadow_escalation.rs:49-73 | an unresolved row below Critical climbs one tier iff 24 hours have passed since its last climb or its classification; nothing else changes |
| Escalation.AlertIsTheOnlyPending | crates/tlapix-analyzer/src/shadow_escalation.rs:93-147 | a certificate brought to Critical has one directive pending, a new alert of critical severity |
| Escalation.OthersStayOrAreReplaced | crates/tlapix-analyzer/src/shadow_escalation.rs:163-183 | what was pending for it is replaced, all other directives stay, and there is one new one for each such certificate |
| Escalation.SecondSweepIsIdle | crates/tlapix-analyzer/src/shadow_escalation.rs:54-62 | a second sweep at the same time does nothing |
| ShadowLifecycle.RowsOnlyClimb | crates/tlapix-analyzer/src/shadow_escalation.rs:37-157 | over any mix of sweeps and reconciliations a row never drops, counts one escalation per tier, takes a day for each, and freezes once resolved |
| ShadowLifecycle.OneAlertPerRow | crates/tlapix-analyzer/src/shadow_escalation.rs:90-147 | at most one critical alert per row, issued iff it has become Critical |
| ShadowLifecycle.CriticalTakesThreeDays | crates/tlapix-common/src/types.rs:190-200 | from an empty table: Critical means three escalations, 72 hours at least, one alert |
| ShadowLifecycle.ThreeDaysSuffice | crates/tlapix-analyzer/src/shadow_escalation.rs:54-69 | with daily sweeps an unresolved Low shadow is Critical after three days |
| ShadowLifecycle.RefreshThenReconcile | crates/tlapix-analyzer/src/reconciliation.rs:52-165 | reconciling with what a refresh dropped leaves no listed shadow unresolved and a row for each dropped certificate in traffic |
| ShadowInterleaving.InterleavingClimbsIffNoStaleWrite | crates/tlapix-analyzer/src/shadow_escalation.rs:38-83 | with a sweep and a pass interleaved statement by statement, rows climb at every step and stay frozen once resolved iff no row is written back after it changed since it was listed |
| ShadowInterleaving.NoStaleWriteMeansClimbing | crates/tlapix-analyzer/src/reconciliation.rs:60-82 | and then they climb over the whole run |
| ShadowInterleaving.ResolutionCanBeUndone | crates/tlapix-analyzer/src/shadow_escalation.rs:68-75 | a concrete interleaving where the sweep's write-back opens a resolved shadow again |
| ShadowInterleaving.UndisturbedSweep | crates/tlapix-analyzer/src/shadow_escalation.rs:38-83 | a sweep's statements on their own do what the whole sweep does |
| ShadowInterleaving.UndisturbedPass | crates/tlapix-analyzer/src/reconciliation.rs:60-82 | and so do those of a pass's first phase |
| Reconciliation.NoKnownShadowLeftIff | crates/tlapix-analyzer/src/reconciliation.rs:52-165 | afterwards no unresolved shadow is in the inventory iff nothing recently seen and new to the table is both removed and listed |
| Reconciliation.SecondPassIsIdleIff | crates/tlapix-analyzer/src/reconciliation.rs:52-165 | a second pass at the same time changes neither shadows nor directives, and returns three zeros, under exactly that condition |
| Reconciliation.PassInFull | crates/tlapix-analyzer/src/reconciliation.rs:58-162 | what becomes of each directive and row: resolved and expired with the reason iff in the inventory, new and Low iff dropped and seen within 24 hours, all else as it was |
| Reconciliation.CountersInFull | crates/tlapix-analyzer/src/reconciliation.rs:58-162 | each counter is the size of the set it stands for |
| Reconciliation.ResolveKnownShadows | crates/tlapix-analyzer/src/reconciliation.rs:58-110 | phase one, with exact counts |
| Reconciliation.ClassifyRemoved | crates/tlapix-analyzer/src/reconciliation.rs:112-162 | phase two, with an exact count even for repeated fingerprints |
| Reconciliation.ReconcileInventory | crates/tlapix-analyzer/src/reconciliation.rs:52-165 | both: tables as specified, all three counters exact |
| Conflicts.ResolveConflicts | crates/tlapix-executor/src/expiry.rs:168-213 | one winner per certificate; winners and losers together are the input; each discarded record names a loser and its winner's severity |
| Conflicts.PickWinner | crates/tlapix-executor/src/expiry.rs:184-193 | the loop finds the first of the most severe |
| Conflicts.WinnersAreEarliestOfHighest | crates/tlapix-executor/src/expiry.rs:160-167 | the earliest of the most severe candidates for a certificate wins, alone |
| Conflicts.DiscardedSayWhoLost | crates/tlapix-executor/src/expiry.rs:197-208 | each discarded record has its loser's id and severity, and the severity of the winner for the same certificate, which is no lower |
| Conflicts.RankByName | crates/tlapix-executor/src/expiry.rs:151-159 | critical over high over medium over anything else |
| Conflicts.ChampionIsEarliestOfHighest | crates/tlapix-executor/src/expiry.rs:184-193 | every winner is such a candidate |
| Conflicts.SeverityParsesByName | crates/tlapix-executor/src/expiry.rs:151-159 | parsing inverts the stored names in any case, and anything else is low |
| Conflicts.EscalationAlertPrevails | crates/tlapix-analyzer/src/shadow_escalation.rs:107-134 | where an escalation's alert competes, the winner is critical |
| Conflicts.ResolutionIsUnique | crates/tlapix-executor/src/expiry.rs:168-213 | the hash map's order does not matter: any two outcomes have the same winners and the same discarded records, up to order |
| Conflicts.ResolvingIsIncremental | crates/tlapix-executor/src/expiry.rs:168-213 | new directives may be resolved against earlier winners alone |
| Expiry.ExpireStaleDirectives | crates/tlapix-executor/src/expiry.rs:81-144 | exactly the live directives of unknown or long unseen certificates expire, and the map loses their entries as far as removal works, and no others |
| Expiry.SweepInFull | crates/tlapix-executor/src/expiry.rs:94-125 | an active or pending directive expires iff its certificate is unknown or was last seen before the cutoff; nothing else changes |
| Expiry.SweepLeavesOnlyFresh | crates/tlapix-executor/src/expiry.rs:81-144 | what is live afterwards is for a certificate seen since the cutoff; the rest is unchanged; a second sweep is idle |
| Expiry.RemovedHasNoLiveDirective | crates/tlapix-executor/src/expiry.rs:106-126 | a certificate that lost its map entry keeps no live directive |
| Expiry.SweepsCompose | crates/tlapix-executor/src/expiry.rs:81-144 | an earlier sweep and a later one expire together what the later one alone would |
| Inventory.RefreshInventory | crates/tlapix-analyzer/src/inventory.rs:215-266 | upsert and sweep replace the inventory by the valid entries whatever was there; accepted plus skipped is the input; removed is what was there and is not listed |
| Inventory.ImportedIsLastEntry | crates/tlapix-analyzer/src/inventory.rs:215-247 | a certificate is there iff a valid entry names it, with the last such entry's subject |
| Inventory.AcceptedIff | crates/tlapix-analyzer/src/inventory.rs:373-383 | an entry is accepted iff it has a fingerprint with 64 hex digits and a non-empty subject |
| Inventory.ValidCountCounts | crates/tlapix-analyzer/src/inventory.rs:215-242 | the total is the number of accepted entries, repeated ones included |
| Inventory.ImportEntries | crates/tlapix-analyzer/src/inventory.rs:215-242 | upserting overlays the imported entries on what was there |
| Inventory.RemoveStaleEntries | crates/tlapix-common/src/storage.rs:982-995 | keeps exactly the rows of this refresh and counts the others |
| Inventory.ParsingInvertsPrinting | crates/tlapix-analyzer/src/inventory.rs:401-415 | a string parses to a fingerprint iff, non-hex characters dropped and letters lowered, it is the fingerprint's printing |
| Inventory.DigitsAreTheUsual | crates/tlapix-analyzer/src/inventory.rs:403-412 | digits and their values are the usual ones in either case |
| Inventory.ParseAlikeIffSameDigits | crates/tlapix-analyzer/src/inventory.rs:401-415 | two strings parse alike iff they have the same hex digits, case aside, or neither has 64 |
| Inventory.PrintedParsesBack | crates/tlapix-analyzer/src/inventory.rs:401-415 | a printed fingerprint parses back, each letter in either case, with any non-hex separators between, before and after its digits |
| Inventory.ParseHexFingerprint | crates/tlapix-analyzer/src/inventory.rs:401-415 | the filter and the byte loop compute that parse |
| Inventory.ValidateEntry | crates/tlapix-analyzer/src/inventory.rs:373-383 | both fields present, subject non-empty, fingerprint readable |
| SniMatch.MatchingIsByLabels | crates/tlapix-analyzer/src/sni_match.rs:32-57 | stripping suffixes equals matching labels: equal up to case, or a wildcard whose base's labels follow one non-empty label (section 6.4.3 of RFC 6125, whole labels) |
| SniMatch.MatchingKeepsLabelCount | crates/tlapix-analyzer/src/sni_match.rs:32-57 | names that match have equally many labels |
| SniMatch.AnyNameMayMatch | crates/tlapix-analyzer/src/sni_match.rs:78-80 | a list matches iff some name in it does, and an empty one never |
| SniMatch.CaseNeverMatters | crates/tlapix-analyzer/src/sni_match.rs:78-80 | ASCII case matters on neither side, for one name or a list |

## Left out

- HTTP, OTLP, StatsD, Prometheus, the web interface, webhooks and daemon wiring: presentation and network only.
- ACME renewal and the ONNX backend: foreign protocols and libraries.
- X.509 parsing, SHA-256 and key sizes: library calls or single-branch tables.
- Anomaly rules, shadow risk tiers, reasoning texts and the renewal score: each settled by reading one branch.
- SQL text, locking inside the database library, foreign keys and cascades: tables are maps from primary key to row, and columns no modelled operation reads are not represented.
- Failing storage calls: the error paths that log and skip, or stop a sweep early.
- `new_entries` of an inventory refresh: the source calls it approximate. Refresh log rows and staleness are left out with it, and so is the import that fails before any entry is read.
- The server name bytes and the padding of a kernel event; 64-bit wrap-around of event, drop and connection counters.
- Collector.KernelCollector.ParseTlsHandshake: the source's one function is cut into one method per header, in the same order with the same checks.
- ConcurrentWrites.ConcurrentWritesKeepLimits: the entry count put into a refusal's notification, read once more after the check, is not modelled; only writers run, so maps only grow. With removals in between, counts read earlier may be too high and the bound is not claimed.
- ShadowInterleaving.InterleavingClimbsIffNoStaleWrite: covers the shadow table; the directive statements of the two sweeps are interleaved nowhere.
- RetryBuffer.OrderAndConservation: runs use a sink that takes a first part of a batch and hands back the rest, as the channel does once closed; a sink that answers otherwise may lose or repeat records.
- MapWriter.MapWriterService.WriteDirective: the failed outcome carries the last error as a value, not its message; log lines are not modelled.
- Expiry.ExpireStaleDirectives: "entry not found" and success of a removal are one case, as the sweep treats them alike.
- Conflicts.ResolveConflicts: severity names are lowered as ASCII; no other letters lower to a severity name.
