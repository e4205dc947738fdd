/** The kernel's seen-set and per-CPU statistics, updated without locks by several CPUs. Each
    map operation is one step; steps of different CPUs interleave in any order. */
module KernelMaps {
  import opened Common

  // --- Map operations ---------------------------------------------------------------------

  type Seen = map<Fingerprint, nat>
  type Stats = map<Fingerprint, seq<nat>>

  function Zeros(n: nat): (z: seq<nat>)
    ensures |z| == n
  {
    seq(n, i => 0)
  }

  function WithSlot(slots: seq<nat>, cpu: nat, v: nat): (r: seq<nat>)
    requires cpu < |slots|
    ensures |r| == |slots|
  {
    slots[cpu := v]
  }

  /** Insert into a bounded hash map: an existing key is overwritten, a new one needs room. */
  function SeenInsert(capacity: nat, seen: Seen, fp: Fingerprint, ts: nat): Seen {
    if fp in seen || |seen| < capacity then seen[fp := ts] else seen
  }

  /** Insert into a bounded per-CPU hash map: only the calling CPU's slot is written, and a
      fresh key starts the other CPUs' slots at zero. */
  function StatsInsert(capacity: nat, cpus: nat, stats: Stats, fp: Fingerprint, cpu: nat, v: nat): Stats
    requires cpu < cpus && forall k :: k in stats ==> |stats[k]| == cpus
  {
    if fp in stats then stats[fp := WithSlot(stats[fp], cpu, v)]
    else if |stats| < capacity then stats[fp := WithSlot(Zeros(cpus), cpu, v)]
    else stats
  }

  /** Increment through a pointer to the calling CPU's slot. */
  function SlotIncremented(cpus: nat, stats: Stats, fp: Fingerprint, cpu: nat): Stats
    requires cpu < cpus && fp in stats && |stats[fp]| == cpus
  {
    stats[fp := WithSlot(stats[fp], cpu, stats[fp][cpu] + 1)]
  }

  function SlotOf(stats: Stats, fp: Fingerprint, cpu: nat): nat {
    if fp in stats && cpu < |stats[fp]| then stats[fp][cpu] else 0
  }

  function SlotsOf(cpus: nat, stats: Stats, fp: Fingerprint): (slots: seq<nat>)
    requires forall k :: k in stats ==> |stats[k]| == cpus
    ensures |slots| == cpus
  {
    if fp in stats then stats[fp] else Zeros(cpus)
  }

  function Sum(s: seq<nat>): nat {
    if s == [] then 0 else s[0] + Sum(s[1..])
  }

  /** What userspace reads back for a fingerprint: the slots of all CPUs added up. */
  function ConnectionCount(stats: Stats, fp: Fingerprint): nat {
    if fp in stats then Sum(stats[fp]) else 0
  }

  // --- Interleaved steps ------------------------------------------------------------------

  /** Where a CPU is inside is_new_cert. */
  datatype Phase =
    | Idle
    | Missing(fp: Fingerprint, ts: nat)  // not in the seen-set: about to record it
    | Recorded(fp: Fingerprint)          // recorded: about to initialise its count
    | Found(fp: Fingerprint)             // in the seen-set: about to look up its slot
    | HasSlot(fp: Fingerprint)           // holds a pointer to its slot
    | NoSlot(fp: Fingerprint)            // no entry found: about to insert one

  datatype Report = Report(cpu: nat, fp: Fingerprint, isNew: bool)

  /** The maps, every CPU's position, and the history: completed calls, and every fingerprint
      that was ever looked up. */
  datatype Machine = Machine(
    seen: Seen,
    stats: Stats,
    phases: seq<Phase>,
    log: seq<Report>,
    looked: set<Fingerprint>)

  datatype Action = Call(cpu: nat, fp: Fingerprint, ts: nat) | Continue(cpu: nat)

  predicate WellFormed(cpus: nat, m: Machine) {
    |m.phases| == cpus && forall k | k in m.stats :: |m.stats[k]| == cpus
  }

  function Boot(cpus: nat): (m: Machine)
    ensures WellFormed(cpus, m)
  {
    Machine(map[], map[], seq(cpus, i => Idle), [], {})
  }

  function Finish(m: Machine, cpu: nat, fp: Fingerprint, isNew: bool): Machine
    requires cpu < |m.phases|
  {
    m.(phases := m.phases[cpu := Idle], log := m.log + [Report(cpu, fp, isNew)])
  }

  /** One map operation of one CPU. A CPU that is not there, or busy when called, does nothing. */
  function Next(capacity: nat, cpus: nat, m: Machine, a: Action): (m': Machine)
    requires WellFormed(cpus, m)
    ensures WellFormed(cpus, m')
  {
    if a.cpu >= cpus then m
    else
      var c := a.cpu;
      match (a, m.phases[c])
      case (Call(_, fp, ts), Idle) =>
        m.(phases := m.phases[c := if fp in m.seen then Found(fp) else Missing(fp, ts)],
           looked := m.looked + {fp})
      case (Continue(_), Missing(fp, ts)) =>
        m.(seen := SeenInsert(capacity, m.seen, fp, ts), phases := m.phases[c := Recorded(fp)])
      case (Continue(_), Recorded(fp)) =>
        Finish(m.(stats := StatsInsert(capacity, cpus, m.stats, fp, c, 1)), c, fp, true)
      case (Continue(_), Found(fp)) =>
        m.(phases := m.phases[c := if fp in m.stats then HasSlot(fp) else NoSlot(fp)])
      case (Continue(_), HasSlot(fp)) =>
        Finish(if fp in m.stats then m.(stats := SlotIncremented(cpus, m.stats, fp, c)) else m, c, fp, false)
      case (Continue(_), NoSlot(fp)) =>
        Finish(m.(stats := StatsInsert(capacity, cpus, m.stats, fp, c, 1)), c, fp, false)
      case _ => m
  }

  function Exec(capacity: nat, cpus: nat, actions: seq<Action>): (m: Machine)
    ensures WellFormed(cpus, m)
  {
    if actions == [] then Boot(cpus)
    else Next(capacity, cpus, Exec(capacity, cpus, actions[..|actions| - 1]), actions[|actions| - 1])
  }

  // --- Counting the history ---------------------------------------------------------------

  /** Completed calls for fp, on every CPU. */
  function Completed(log: seq<Report>, fp: Fingerprint): nat {
    if log == [] then 0
    else Completed(log[..|log| - 1], fp) + if log[|log| - 1].fp == fp then 1 else 0
  }

  /** Completed calls for fp on one CPU. */
  function CompletedOn(log: seq<Report>, fp: Fingerprint, cpu: nat): nat {
    if log == [] then 0
    else
      var r := log[|log| - 1];
      CompletedOn(log[..|log| - 1], fp, cpu) + if r.fp == fp && r.cpu == cpu then 1 else 0
  }

  /** Calls on one CPU that reported fp as new. */
  function NewOn(log: seq<Report>, fp: Fingerprint, cpu: nat): nat {
    if log == [] then 0
    else NewOn(log[..|log| - 1], fp, cpu) + if log[|log| - 1] == Report(cpu, fp, true) then 1 else 0
  }

  lemma LogAppend(log: seq<Report>, r: Report)
    ensures forall fp :: Completed(log + [r], fp) == Completed(log, fp) + if r.fp == fp then 1 else 0
    ensures forall fp, c :: CompletedOn(log + [r], fp, c) ==
              CompletedOn(log, fp, c) + if r.fp == fp && r.cpu == c then 1 else 0
    ensures forall fp, c :: NewOn(log + [r], fp, c) ==
              NewOn(log, fp, c) + if r == Report(c, fp, true) then 1 else 0
  {
  }

  lemma {:induction false} SumUpdate(s: seq<nat>, i: nat, v: nat)
    requires i < |s|
    ensures Sum(WithSlot(s, i, v)) == Sum(s) - s[i] + v
  {
    if i == 0 {
      assert WithSlot(s, i, v)[1..] == s[1..];
    } else {
      assert WithSlot(s, i, v)[1..] == WithSlot(s[1..], i - 1, v);
      SumUpdate(s[1..], i - 1, v);
    }
  }

  lemma {:induction false} SumZeros(n: nat)
    ensures Sum(Zeros(n)) == 0
  {
    if n > 0 {
      assert Zeros(n)[1..] == Zeros(n - 1);
      SumZeros(n - 1);
    }
  }

  // --- The invariant ----------------------------------------------------------------------

  /** A CPU in this phase is at work on k. */
  predicate Holds(p: Phase, k: Fingerprint) {
    !p.Idle? && p.fp == k
  }

  /** Only fingerprints that were looked up ever get into a map or a CPU's hands. */
  ghost predicate OnlyLooked(m: Machine) {
    && (forall k :: k in m.seen ==> k in m.looked)
    && (forall k :: k in m.stats ==> k in m.looked)
    && (forall c :: 0 <= c < |m.phases| && !m.phases[c].Idle? ==> m.phases[c].fp in m.looked)
    && (forall c :: 0 <= c < |m.phases| && m.phases[c].HasSlot? ==> m.phases[c].fp in m.stats)
  }

  ghost predicate KnownCpus(m: Machine) {
    forall i :: 0 <= i < |m.log| ==> m.log[i].cpu < |m.phases|
  }

  /** What a CPU at work on fp knows. */
  ghost predicate PhaseKnows(m: Machine, fp: Fingerprint, c: nat)
    requires c < |m.phases|
  {
    match m.phases[c]
    case Idle => true
    case Missing(k, _) => k == fp ==> CompletedOn(m.log, fp, c) == 0
    case Recorded(k) => k == fp ==> CompletedOn(m.log, fp, c) == 0 && fp in m.seen
    case Found(k) => k == fp ==> fp in m.seen
    case HasSlot(k) => k == fp ==> fp in m.seen
    case NoSlot(k) => k == fp ==> fp in m.seen && CompletedOn(m.log, fp, c) == 0
  }

  /** Some CPU reported fp as new, or is about to. */
  ghost predicate SomeoneReports(m: Machine, fp: Fingerprint) {
    exists c :: 0 <= c < |m.phases| && (NewOn(m.log, fp, c) >= 1 || m.phases[c] == Recorded(fp))
  }

  ghost predicate CountsAgree(cpus: nat, m: Machine, fp: Fingerprint) {
    && (forall c :: 0 <= c < cpus ==> SlotOf(m.stats, fp, c) == CompletedOn(m.log, fp, c))
    && ConnectionCount(m.stats, fp) == Completed(m.log, fp)
  }

  ghost predicate Tracks(cpus: nat, m: Machine, fp: Fingerprint) {
    && WellFormed(cpus, m)
    && |m.phases| == cpus
    && CountsAgree(cpus, m, fp)
    && (forall c :: 0 <= c < cpus ==> PhaseKnows(m, fp, c))
    && (forall c :: 0 <= c < cpus ==> NewOn(m.log, fp, c) <= Min(1, CompletedOn(m.log, fp, c)))
    && (forall c :: 0 <= c < cpus && CompletedOn(m.log, fp, c) > 0 ==> fp in m.seen)
    && (fp in m.seen ==> SomeoneReports(m, fp))
  }

  /** What any step of CPU c may change: its own phase, and in the maps its own fingerprint. */
  ghost predicate StepOf(m: Machine, m': Machine, c: nat) {
    && c < |m.phases| == |m'.phases|
    && (forall d :: 0 <= d < |m.phases| && d != c ==> m'.phases[d] == m.phases[d])
    && (forall k :: k in m'.seen ==> k in m.seen || Holds(m.phases[c], k))
    && (forall k :: k in m.stats ==> k in m'.stats)
    && (forall k :: k in m'.stats ==> k in m.stats || Holds(m.phases[c], k))
    && (forall k :: k in m.looked ==> k in m'.looked)
    && (forall k :: k in m'.looked ==> k in m.looked || Holds(m'.phases[c], k))
    && (!m'.phases[c].Idle? ==> m'.phases[c].fp in m'.looked)
    && (m'.phases[c].HasSlot? ==> m'.phases[c].fp in m'.stats)
    && if |m'.log| == |m.log| then
         m'.log == m.log && forall k :: Holds(m.phases[c], k) ==> Holds(m'.phases[c], k)
       else
         |m'.log| == |m.log| + 1 &&
         var r := m'.log[|m.log|];
         m'.log == m.log + [r] && r.cpu == c && forall k :: Holds(m.phases[c], k) ==> r.fp == k
  }

  predicate Finishing(p: Phase) {
    p.Recorded? || p.HasSlot? || p.NoSlot?
  }

  lemma FinishIsStep(capacity: nat, cpus: nat, m: Machine, c: nat)
    requires WellFormed(cpus, m) && |m.phases| == cpus && c < cpus && OnlyLooked(m)
    requires Finishing(m.phases[c])
    ensures StepOf(m, Next(capacity, cpus, m, Continue(c)), c)
  {
  }

  lemma OtherIsStep(capacity: nat, cpus: nat, m: Machine, a: Action)
    requires WellFormed(cpus, m) && |m.phases| == cpus && a.cpu < cpus && OnlyLooked(m)
    requires a.Call? || !Finishing(m.phases[a.cpu])
    ensures StepOf(m, Next(capacity, cpus, m, a), a.cpu)
  {
  }

  lemma NextIsStep(capacity: nat, cpus: nat, m: Machine, a: Action)
    requires WellFormed(cpus, m) && |m.phases| == cpus && a.cpu < cpus && OnlyLooked(m)
    ensures StepOf(m, Next(capacity, cpus, m, a), a.cpu)
  {
    if a.Continue? && Finishing(m.phases[a.cpu]) {
      FinishIsStep(capacity, cpus, m, a.cpu);
    } else {
      OtherIsStep(capacity, cpus, m, a);
    }
  }

  lemma StepKeepsOnlyLooked(m: Machine, m': Machine, c: nat)
    requires StepOf(m, m', c) && OnlyLooked(m) && KnownCpus(m)
    ensures OnlyLooked(m') && KnownCpus(m')
  {
  }

  lemma BootTracks(cpus: nat, fp: Fingerprint)
    ensures Tracks(cpus, Boot(cpus), fp) && OnlyLooked(Boot(cpus))
  {
  }

  /** Room for one more: a key that was looked up but is not in the map finds space. */
  lemma RoomLeft(keys: set<Fingerprint>, looked: set<Fingerprint>, fp: Fingerprint, capacity: nat)
    requires keys <= looked && fp in looked && fp !in keys && |looked| <= capacity
    ensures |keys| < capacity
  {
    assert keys <= looked - {fp};
    SubsetSize(keys, looked - {fp});
  }

  /** The slot update of one completed call keeps the counts in agreement with the history. */
  lemma CompletedKeepsCounts(cpus: nat, m: Machine, m': Machine, fp: Fingerprint, r: Report, v: nat)
    requires CountsAgree(cpus, m, fp) && WellFormed(cpus, m) && r.cpu < cpus
    requires m'.log == m.log + [r] && WellFormed(cpus, m')
    requires r.fp != fp ==> (fp in m'.stats <==> fp in m.stats) && (fp in m.stats ==> m'.stats[fp] == m.stats[fp])
    requires r.fp == fp ==> v == SlotOf(m.stats, fp, r.cpu) + 1 && fp in m'.stats
    requires r.fp == fp ==> m'.stats[fp] == WithSlot(SlotsOf(cpus, m.stats, fp), r.cpu, v)
    ensures CountsAgree(cpus, m', fp)
  {
    LogAppend(m.log, r);
    if r.fp == fp {
      SumZeros(cpus);
      SumUpdate(SlotsOf(cpus, m.stats, fp), r.cpu, v);
    }
  }

  lemma RecordTracks(capacity: nat, cpus: nat, m: Machine, c: nat, fp: Fingerprint)
    requires Tracks(cpus, m, fp) && OnlyLooked(m) && |m.looked| <= capacity
    requires c < cpus && m.phases[c].Missing?
    ensures Tracks(cpus, Next(capacity, cpus, m, Continue(c)), fp)
  {
    var k := m.phases[c].fp;
    var m' := Next(capacity, cpus, m, Continue(c));
    if k !in m.seen {
      RoomLeft(m.seen.Keys, m.looked, k, capacity);
      assert |m.seen| == |m.seen.Keys|;
    }
    assert k in m'.seen;
    forall d | 0 <= d < cpus ensures PhaseKnows(m', fp, d) {
      assert PhaseKnows(m, fp, d);
    }
    if k == fp {
      assert m'.phases[c] == Recorded(fp);
    } else if fp in m.seen {
      var d :| 0 <= d < |m.phases| && (NewOn(m.log, fp, d) >= 1 || m.phases[d] == Recorded(fp));
      assert m'.phases[d] == Recorded(fp) || NewOn(m'.log, fp, d) >= 1;
    }
  }

  lemma LookupTracks(capacity: nat, cpus: nat, m: Machine, a: Action, fp: Fingerprint)
    requires Tracks(cpus, m, fp) && a.cpu < cpus
    requires var p := m.phases[a.cpu]; if a.Call? then true else p.Idle? || p.Found?
    ensures Tracks(cpus, Next(capacity, cpus, m, a), fp)
  {
    var m' := Next(capacity, cpus, m, a);
    if fp in m.seen {
      var d :| 0 <= d < |m.phases| && (NewOn(m.log, fp, d) >= 1 || m.phases[d] == Recorded(fp));
      assert m'.phases[d] == Recorded(fp) || NewOn(m'.log, fp, d) >= 1;
    }
    forall d | 0 <= d < cpus ensures PhaseKnows(m', fp, d) {
      assert PhaseKnows(m, fp, d);
    }
  }

  lemma FinishTracks(capacity: nat, cpus: nat, m: Machine, c: nat, fp: Fingerprint)
    requires Tracks(cpus, m, fp) && OnlyLooked(m) && |m.looked| <= capacity
    requires c < cpus && Finishing(m.phases[c])
    ensures Tracks(cpus, Next(capacity, cpus, m, Continue(c)), fp)
  {
    var k := m.phases[c].fp;
    var r := Report(c, k, m.phases[c].Recorded?);
    var m' := Next(capacity, cpus, m, Continue(c));
    assert PhaseKnows(m, fp, c);
    FinishWrites(capacity, cpus, m, c);
    CompletedKeepsCounts(cpus, m, m', fp, r, if k == fp then SlotOf(m.stats, fp, c) + 1 else 0);
    FinishKeepsKnowledge(cpus, m, m', fp, r);
  }

  /** The last step of a call adds one to its CPU's slot if it got there by a lookup, and starts
      the slot at one otherwise. */
  lemma FinishWrites(capacity: nat, cpus: nat, m: Machine, c: nat)
    requires WellFormed(cpus, m) && |m.phases| == cpus && OnlyLooked(m) && |m.looked| <= capacity
    requires c < cpus && Finishing(m.phases[c])
    requires m.phases[c].HasSlot? ==> m.phases[c].fp in m.stats
    ensures var k, m' := m.phases[c].fp, Next(capacity, cpus, m, Continue(c));
            && m'.log == m.log + [Report(c, k, m.phases[c].Recorded?)]
            && m'.stats == m.stats[k := WithSlot(SlotsOf(cpus, m.stats, k), c,
                                                 if m.phases[c].HasSlot? then m.stats[k][c] + 1 else 1)]
            && m'.phases == m.phases[c := Idle] && m'.seen == m.seen
  {
    var k := m.phases[c].fp;
    if k !in m.stats {
      RoomLeft(m.stats.Keys, m.looked, k, capacity);
      assert |m.stats| == |m.stats.Keys|;
    }
  }

  lemma FinishKeepsKnowledge(cpus: nat, m: Machine, m': Machine, fp: Fingerprint, r: Report)
    requires Tracks(cpus, m, fp) && WellFormed(cpus, m') && CountsAgree(cpus, m', fp)
    requires r.cpu < cpus && Holds(m.phases[r.cpu], r.fp)
    requires r.isNew <==> m.phases[r.cpu] == Recorded(r.fp)
    requires !m.phases[r.cpu].Missing?
    requires m'.log == m.log + [r] && m'.phases == m.phases[r.cpu := Idle] && m'.seen == m.seen
    requires m.stats.Keys <= m'.stats.Keys
    ensures Tracks(cpus, m', fp)
  {
    LogAppend(m.log, r);
    assert PhaseKnows(m, fp, r.cpu);
    forall d | 0 <= d < cpus ensures PhaseKnows(m', fp, d) {
      assert PhaseKnows(m, fp, d);
    }
    if fp in m.seen {
      var d :| 0 <= d < |m.phases| && (NewOn(m.log, fp, d) >= 1 || m.phases[d] == Recorded(fp));
      assert m'.phases[d] == Recorded(fp) || NewOn(m'.log, fp, d) >= 1;
    }
  }

  lemma NextTracks(capacity: nat, cpus: nat, m: Machine, a: Action, fp: Fingerprint)
    requires Tracks(cpus, m, fp) && OnlyLooked(m) && |Next(capacity, cpus, m, a).looked| <= capacity
    ensures Tracks(cpus, Next(capacity, cpus, m, a), fp)
  {
    var m', c := Next(capacity, cpus, m, a), a.cpu;
    if c < cpus {
      if a.Continue? && m.phases[c].Missing? {
        RecordTracks(capacity, cpus, m, c, fp);
      } else if a.Continue? && !m.phases[c].Idle? && !m.phases[c].Found? {
        FinishTracks(capacity, cpus, m, c, fp);
      } else {
        LookupTracks(capacity, cpus, m, a, fp);
      }
    }
  }

  /** Every reachable machine whose lookups so far fit the maps tracks every fingerprint. */
  lemma {:induction false} ExecTracks(capacity: nat, cpus: nat, actions: seq<Action>, fp: Fingerprint)
    ensures OnlyLooked(Exec(capacity, cpus, actions)) && KnownCpus(Exec(capacity, cpus, actions))
    ensures |Exec(capacity, cpus, actions).phases| == cpus
    ensures |Exec(capacity, cpus, actions).looked| <= capacity ==> Tracks(cpus, Exec(capacity, cpus, actions), fp)
  {
    if actions == [] {
      BootTracks(cpus, fp);
    } else {
      var init, a := actions[..|actions| - 1], actions[|actions| - 1];
      var m := Exec(capacity, cpus, init);
      ExecTracks(capacity, cpus, init, fp);
      if a.cpu < cpus {
        NextIsStep(capacity, cpus, m, a);
        StepKeepsOnlyLooked(m, Next(capacity, cpus, m, a), a.cpu);
      }
      SubsetSize(m.looked, Next(capacity, cpus, m, a).looked);
      if |Next(capacity, cpus, m, a).looked| <= capacity {
        NextTracks(capacity, cpus, m, a, fp);
      }
    }
  }

  // --- Main results -----------------------------------------------------------------------

  predicate Quiet(m: Machine) {
    forall c :: 0 <= c < |m.phases| ==> m.phases[c] == Idle
  }

  /** Lock-free counting is exact: in every interleaving, as long as no more fingerprints than
      fit the maps were looked up, the per-CPU counts of a fingerprint always add up to its
      completed observations, and no CPU reports it as new twice. */
  lemma CountsAreExact(capacity: nat, cpus: nat, actions: seq<Action>, fp: Fingerprint)
    requires |Exec(capacity, cpus, actions).looked| <= capacity
    ensures var m := Exec(capacity, cpus, actions);
            && ConnectionCount(m.stats, fp) == Completed(m.log, fp)
            && forall c :: 0 <= c < cpus ==>
                 NewOn(m.log, fp, c) <= 1 && SlotOf(m.stats, fp, c) == CompletedOn(m.log, fp, c)
  {
    ExecTracks(capacity, cpus, actions, fp);
  }

  lemma {:induction false} CompletedSomewhere(log: seq<Report>, fp: Fingerprint) returns (i: nat)
    requires Completed(log, fp) > 0
    ensures i < |log| && log[i].fp == fp
  {
    if log[|log| - 1].fp == fp {
      i := |log| - 1;
    } else {
      i := CompletedSomewhere(log[..|log| - 1], fp);
    }
  }

  lemma {:induction false} CompletedOnAt(log: seq<Report>, i: nat)
    requires i < |log|
    ensures CompletedOn(log, log[i].fp, log[i].cpu) > 0 && Completed(log, log[i].fp) > 0
  {
    if i < |log| - 1 {
      CompletedOnAt(log[..|log| - 1], i);
    }
  }

  /** No fingerprint slips in unreported: once one has been observed and the CPUs have finished,
      some CPU has reported it as new. */
  lemma ReportedNewAtLeastOnce(capacity: nat, cpus: nat, actions: seq<Action>, fp: Fingerprint)
    requires var m := Exec(capacity, cpus, actions);
             |m.looked| <= capacity && Quiet(m) && Completed(m.log, fp) > 0
    ensures var m := Exec(capacity, cpus, actions);
            exists c :: 0 <= c < cpus && NewOn(m.log, fp, c) == 1
  {
    var m := Exec(capacity, cpus, actions);
    ExecTracks(capacity, cpus, actions, fp);
    var i := CompletedSomewhere(m.log, fp);
    CompletedOnAt(m.log, i);
    var c :| 0 <= c < |m.phases| && (NewOn(m.log, fp, c) >= 1 || m.phases[c] == Recorded(fp));
    assert NewOn(m.log, fp, c) == 1;
  }

  /** The statistics map never outgrows its capacity, and every lookup is completed or under way. */
  ghost predicate Accounted(capacity: nat, m: Machine) {
    && |m.stats| <= capacity
    && forall k :: k in m.looked ==> Completed(m.log, k) > 0 || UnderWay(m, k)
  }

  ghost predicate UnderWay(m: Machine, k: Fingerprint) {
    exists c :: 0 <= c < |m.phases| && Holds(m.phases[c], k)
  }

  lemma StepKeepsAccounts(capacity: nat, m: Machine, m': Machine, c: nat)
    requires StepOf(m, m', c) && Accounted(capacity, m) && |m'.stats| <= capacity
    ensures Accounted(capacity, m')
  {
  }

  lemma {:induction false} ExecAccounted(capacity: nat, cpus: nat, actions: seq<Action>)
    ensures Accounted(capacity, Exec(capacity, cpus, actions))
    ensures |Exec(capacity, cpus, actions).phases| == cpus
  {
    if actions == [] {
    } else {
      var init, a := actions[..|actions| - 1], actions[|actions| - 1];
      var m := Exec(capacity, cpus, init);
      ExecAccounted(capacity, cpus, init);
      ExecTracks(capacity, cpus, init, ZeroFingerprint());
      if a.cpu < cpus {
        NextIsStep(capacity, cpus, m, a);
        StepKeepsAccounts(capacity, m, Next(capacity, cpus, m, a), a.cpu);
      }
    }
  }

  /** Exactly when the counts can be trusted: with all CPUs finished, every fingerprint's count
      equals its observations if and only if the fingerprints observed fit the map. */
  lemma CountsExactIffTheyFit(capacity: nat, cpus: nat, actions: seq<Action>)
    requires Quiet(Exec(capacity, cpus, actions))
    ensures var m := Exec(capacity, cpus, actions);
            (forall fp :: ConnectionCount(m.stats, fp) == Completed(m.log, fp)) <==> |m.looked| <= capacity
  {
    var m := Exec(capacity, cpus, actions);
    if |m.looked| <= capacity {
      forall fp ensures ConnectionCount(m.stats, fp) == Completed(m.log, fp) {
        CountsAreExact(capacity, cpus, actions, fp);
      }
    }
    if forall fp :: ConnectionCount(m.stats, fp) == Completed(m.log, fp) {
      ExecAccounted(capacity, cpus, actions);
      forall k | k in m.looked ensures k in m.stats.Keys {
        assert Completed(m.log, k) > 0;
      }
      SubsetSize(m.looked, m.stats.Keys);
      assert |m.stats| == |m.stats.Keys|;
    }
  }

  // --- The helpers as one CPU runs them ---------------------------------------------------

  /** The seen-set after a call nobody interrupts. */
  function SeenAfter(capacity: nat, seen: Seen, fp: Fingerprint, ts: nat): Seen {
    if fp in seen then seen else SeenInsert(capacity, seen, fp, ts)
  }

  /** The statistics after a call nobody interrupts. */
  function StatsAfter(capacity: nat, cpus: nat, seen: Seen, stats: Stats, fp: Fingerprint, cpu: nat): Stats
    requires cpu < cpus && forall k :: k in stats ==> |stats[k]| == cpus
  {
    if fp in seen && fp in stats then SlotIncremented(cpus, stats, fp, cpu)
    else StatsInsert(capacity, cpus, stats, fp, cpu, 1)
  }

  /** The call as a whole is one of the interleavings: three steps of one idle CPU in a row take
      the maps to SeenAfter and StatsAfter, and report what the lookup found. */
  lemma UninterruptedCall(capacity: nat, cpus: nat, m: Machine, cpu: nat, fp: Fingerprint, ts: nat)
    requires WellFormed(cpus, m) && |m.phases| == cpus && cpu < cpus && m.phases[cpu].Idle?
    ensures var m1 := Next(capacity, cpus, m, Call(cpu, fp, ts));
            var m2 := Next(capacity, cpus, m1, Continue(cpu));
            var m3 := Next(capacity, cpus, m2, Continue(cpu));
            && m3.seen == SeenAfter(capacity, m.seen, fp, ts)
            && m3.stats == StatsAfter(capacity, cpus, m.seen, m.stats, fp, cpu)
            && m3.phases == m.phases
            && m3.log == m.log + [Report(cpu, fp, fp !in m.seen)]
  {
    var m1 := Next(capacity, cpus, m, Call(cpu, fp, ts));
    var m2 := Next(capacity, cpus, m1, Continue(cpu));
    var m3 := Next(capacity, cpus, m2, Continue(cpu));
    if fp in m.seen {
      assert m1.phases[cpu] == Found(fp);
      assert m2.phases[cpu] == if fp in m.stats then HasSlot(fp) else NoSlot(fp);
    } else {
      assert m1.phases[cpu] == Missing(fp, ts);
      assert m2.phases[cpu] == Recorded(fp);
    }
    assert m3.phases == m.phases;
  }

  class KernelMaps {
    const capacity: nat
    const cpus: nat
    var seen: Seen
    var stats: Stats

    ghost predicate Valid()
      reads this
    {
      forall k :: k in stats ==> |stats[k]| == cpus
    }

    constructor (capacity: nat, cpus: nat)
      ensures Valid() && this.capacity == capacity && this.cpus == cpus
      ensures seen == map[] && stats == map[]
    {
      this.capacity, this.cpus := capacity, cpus;
      seen, stats := map[], map[];
    }

    /** Look the fingerprint up, record it if it is missing, and count the connection. */
    method IsNewCert(cpu: nat, fp: Fingerprint, ts: nat) returns (isNew: byte)
      requires Valid() && cpu < cpus
      modifies this
      ensures Valid()
      ensures seen == SeenAfter(capacity, old(seen), fp, ts)
      ensures stats == StatsAfter(capacity, cpus, old(seen), old(stats), fp, cpu)
      ensures isNew == if fp in old(seen) then 0 else 1
    {
      if fp in seen {
        UpdateCertStats(cpu, fp);
        isNew := 0;
      } else {
        seen := SeenInsert(capacity, seen, fp, ts);
        stats := StatsInsert(capacity, cpus, stats, fp, cpu, 1);
        isNew := 1;
      }
    }

    /** Increment this CPU's count, starting it at one if the map has no entry. */
    method UpdateCertStats(cpu: nat, fp: Fingerprint)
      requires Valid() && cpu < cpus
      modifies this`stats
      ensures Valid()
      ensures stats == if fp in old(stats) then SlotIncremented(cpus, old(stats), fp, cpu)
                       else StatsInsert(capacity, cpus, old(stats), fp, cpu, 1)
    {
      if fp in stats {
        stats := SlotIncremented(cpus, stats, fp, cpu);
      } else {
        stats := StatsInsert(capacity, cpus, stats, fp, cpu, 1);
      }
    }
  }
}
