/** The scheduler tracepoint on a machine with several CPUs: what it stores, and what it reports.
    A start is stored at switch-in and read at switch-out, so a scheduler event measures a slice
    that the task spent running. */
module Scheduler {
  import opened Numbers
  import opened Fields
  import opened Wire
  import opened ProbeMap
  import opened ProbeRuns
  import opened Clocks
  import Events

  /** The task on each CPU after the steps; 0 is the idle task. */
  function Current(steps: seq<Step>, initial: seq<u32>): (cur: seq<u32>)
    ensures |cur| == |initial|
  {
    if steps == [] then initial
    else
      var cur, st := Current(Front(steps), initial), Last(steps);
      if st.Switch? && st.cpu < |cur| then cur[st.cpu := st.next] else cur
  }

  /** No task runs on two CPUs. */
  ghost predicate Exclusive(cur: seq<u32>) {
    forall i, j :: 0 <= i < j < |cur| && cur[i] > 0 ==> cur[i] != cur[j]
  }

  /** A switch replaces the task of its CPU by the idle task or by one that runs on no other CPU. */
  ghost predicate Legal(cur: seq<u32>, st: Step) {
    && ValidStep(st)
    && (st.Switch? ==>
          && st.cpu < |cur|
          && cur[st.cpu] == st.prev
          && forall i :: 0 <= i < |cur| && i != st.cpu && st.next > 0 ==> cur[i] != st.next)
  }

  ghost predicate LegalRun(steps: seq<Step>, initial: seq<u32>) {
    if steps == [] then Exclusive(initial)
    else LegalRun(Front(steps), initial) && Legal(Current(Front(steps), initial), Last(steps))
  }

  lemma {:induction false} StaysExclusive(steps: seq<Step>, initial: seq<u32>)
    requires LegalRun(steps, initial)
    ensures Exclusive(Current(steps, initial))
  {
    if steps != [] {
      StaysExclusive(Front(steps), initial);
    }
  }

  function TaskKey(p: u32): u64 {
    GetKey(p, 0)
  }

  function After(steps: seq<Step>, cap: Capacity): State {
    Run(Flatten(steps), cap)
  }

  lemma {:induction false} OtherKeysStay(s: State, actions: seq<Action>, key: u64, cap: Capacity)
    requires forall a :: a in actions ==> a.key != key
    ensures SameOn(s, Perform(s, actions, cap), key)
  {
    if actions != [] {
      assert Last(actions) in actions;
      assert forall a :: a in Front(actions) ==> a in actions;
      OtherKeysStay(s, Front(actions), key, cap);
      ApplyElsewhere(Perform(s, Front(actions), cap), Last(actions), key, cap);
    }
  }

  /** What one step does to a task's entry. */
  lemma StepOnTask(s: State, st: Step, p: u32, cap: Capacity)
    requires p > 0 && ValidStep(st)
    ensures var m, m' := s.startTimes, Perform(s, Actions(st), cap).startTimes;
            if st.Switch? && p == st.next then TaskKey(p) in m' ==> m'[TaskKey(p)] == st.at
            else if st.Switch? && p == st.prev then TaskKey(p) !in m'
            else SameOn(s, Perform(s, Actions(st), cap), TaskKey(p))
  {
    var key := TaskKey(p);
    match st {
      case Enter(pid, tid, _, _, _) =>
        GetKeyInjective(pid, tid, p, 0);
        OtherKeysStay(s, Actions(st), key, cap);
      case Return(pid, tid, _, _, _, _, _) =>
        GetKeyInjective(pid, tid, p, 0);
        OtherKeysStay(s, Actions(st), key, cap);
      case Switch(_, prev, next, stamp, now, at) =>
        SwitchOnTask(s, prev, next, stamp, now, at, p, cap);
    }
  }

  lemma StartedOrRefused(s: State, a: Action, cap: Capacity)
    requires a.Start?
    ensures a.key in Apply(s, a, cap).startTimes ==> Apply(s, a, cap).startTimes[a.key] == a.at
  {
  }

  lemma FinishedIsGone(s: State, a: Action, cap: Capacity)
    requires a.Finish?
    ensures a.key !in Apply(s, a, cap).startTimes
  {
  }

  lemma SwitchOnTask(s: State, prev: u32, next: u32, stamp: u64, now: u64, at: u64, p: u32, cap: Capacity)
    requires p > 0
    ensures var t := Perform(s, SwitchOut(prev, stamp, now) + SwitchIn(next, at), cap);
            if p == next then TaskKey(p) in t.startTimes ==> t.startTimes[TaskKey(p)] == at
            else if p == prev then TaskKey(p) !in t.startTimes
            else SameOn(s, t, TaskKey(p))
  {
    var out, inn := SwitchOut(prev, stamp, now), SwitchIn(next, at);
    PerformConcat(s, out, inn, cap);
    SwitchOutOnTask(s, prev, stamp, now, p, cap);
    SwitchInOnTask(Perform(s, out, cap), next, at, p, cap);
  }

  lemma SwitchOutOnTask(s: State, prev: u32, stamp: u64, now: u64, p: u32, cap: Capacity)
    requires p > 0
    ensures var t := Perform(s, SwitchOut(prev, stamp, now), cap);
            if p == prev then TaskKey(p) !in t.startTimes else SameOn(s, t, TaskKey(p))
  {
    var out := SwitchOut(prev, stamp, now);
    GetKeyInjective(prev, 0, p, 0);
    if p == prev {
      PerformSingle(s, out[0], cap);
      FinishedIsGone(s, out[0], cap);
    } else {
      OtherKeysStay(s, out, TaskKey(p), cap);
    }
  }

  lemma SwitchInOnTask(s: State, next: u32, at: u64, p: u32, cap: Capacity)
    requires p > 0
    ensures var t := Perform(s, SwitchIn(next, at), cap);
            if p == next then TaskKey(p) in t.startTimes ==> t.startTimes[TaskKey(p)] == at
            else SameOn(s, t, TaskKey(p))
  {
    var inn := SwitchIn(next, at);
    GetKeyInjective(next, 0, p, 0);
    if p == next {
      PerformSingle(s, inn[0], cap);
      StartedOrRefused(s, inn[0], cap);
    } else {
      OtherKeysStay(s, inn, TaskKey(p), cap);
    }
  }

  lemma AfterStep(steps: seq<Step>, cap: Capacity)
    requires steps != []
    ensures After(steps, cap) == Perform(After(Front(steps), cap), Actions(Last(steps)), cap)
  {
    PerformConcat(EMPTY, Flatten(Front(steps)), Actions(Last(steps)), cap);
  }

  /** Only tasks now on a CPU have a scheduler entry. */
  lemma {:induction false} OnlyRunningTasks(steps: seq<Step>, initial: seq<u32>, cap: Capacity, p: u32)
    requires LegalRun(steps, initial) && p > 0
    requires TaskKey(p) in After(steps, cap).startTimes
    ensures p in Current(steps, initial)
  {
    if steps != [] {
      var st, before := Last(steps), Current(Front(steps), initial);
      var cur := Current(steps, initial);
      AfterStep(steps, cap);
      StepOnTask(After(Front(steps), cap), st, p, cap);
      if st.Switch? && p == st.next {
        assert cur[st.cpu] == p;
      } else {
        OnlyRunningTasks(Front(steps), initial, cap, p);
        var i :| 0 <= i < |before| && before[i] == p;
        assert cur[i] == p;
      }
    }
  }

  predicate IsTaskKey(key: u64) {
    key > 0 && key % 0x1_0000_0000 == 0
  }

  lemma TaskOfKey(key: u64) returns (p: u32)
    requires IsTaskKey(key)
    ensures p > 0 && TaskKey(p) == key
  {
    p := key / 0x1_0000_0000;
  }

  function KeysOf(cur: seq<u32>): (keys: set<u64>)
    ensures |keys| <= |cur|
    ensures forall p :: p in cur ==> TaskKey(p) in keys
  {
    if cur == [] then {} else KeysOf(Front(cur)) + {TaskKey(Last(cur))}
  }

  /** At most one scheduler entry per CPU. */
  lemma TaskEntriesBound(steps: seq<Step>, initial: seq<u32>, cap: Capacity)
    requires LegalRun(steps, initial)
    ensures |set key | key in After(steps, cap).startTimes && IsTaskKey(key)| <= |initial|
  {
    var keys := set key | key in After(steps, cap).startTimes && IsTaskKey(key);
    var bound := KeysOf(Current(steps, initial));
    forall key | key in keys
      ensures key in bound
    {
      var p := TaskOfKey(key);
      OnlyRunningTasks(steps, initial, cap, p);
    }
    SubsetSize(keys, bound);
  }

  // ----- slices

  function LatestSwitch(steps: seq<Step>, cpu: nat): (r: Option<Step>)
    ensures r.Some? ==> r.value.Switch? && r.value.cpu == cpu
  {
    if steps == [] then None
    else if Last(steps).Switch? && Last(steps).cpu == cpu then Some(Last(steps))
    else LatestSwitch(Front(steps), cpu)
  }

  /** The entry of the task on a CPU is the time of that CPU's latest switch, which put it there. */
  lemma {:induction false} EntryIsSliceStart(steps: seq<Step>, initial: seq<u32>, cap: Capacity, cpu: nat)
    requires LegalRun(steps, initial) && cpu < |initial|
    ensures var p, m := Current(steps, initial)[cpu], After(steps, cap).startTimes;
            p > 0 && TaskKey(p) in m ==>
              && LatestSwitch(steps, cpu).Some?
              && LatestSwitch(steps, cpu).value.next == p
              && LatestSwitch(steps, cpu).value.at == m[TaskKey(p)]
  {
    if steps != [] {
      EntryIsSliceStart(Front(steps), initial, cap, cpu);
      StaysExclusive(Front(steps), initial);
      var p := Current(steps, initial)[cpu];
      AfterStep(steps, cap);
      if p > 0 {
        StepOnTask(After(Front(steps), cap), Last(steps), p, cap);
      }
    }
  }

  lemma {:induction false} NeverFullPrefix(a: seq<Action>, b: seq<Action>, cap: Capacity)
    requires NeverFull(a + b, cap)
    ensures NeverFull(a, cap)
  {
    if b == [] {
      assert a + b == a;
    } else {
      ConcatFront(a, b);
      NeverFullPrefix(a, Front(b), cap);
    }
  }

  lemma NeverFullSteps(steps: seq<Step>, cap: Capacity)
    requires steps != [] && NeverFull(Flatten(steps), cap)
    ensures NeverFull(Flatten(Front(steps)), cap)
    ensures var st := Last(steps);
            st.Switch? && st.next > 0 ==>
              var between := Perform(After(Front(steps), cap), SwitchOut(st.prev, st.stamp, st.now), cap);
              HasRoom(between.startTimes, TaskKey(st.next), cap)
  {
    var flat, st := Flatten(Front(steps)), Last(steps);
    NeverFullPrefix(flat, Actions(st), cap);
    if st.Switch? && st.next > 0 {
      var out, inn := SwitchOut(st.prev, st.stamp, st.now), SwitchIn(st.next, st.at);
      var trace := flat + out + inn;
      assert Flatten(steps) == trace;
      assert Front(trace) == flat + out && Last(trace) == inn[0];
      PerformConcat(EMPTY, flat, out, cap);
    }
  }

  lemma SwitchInStored(s: State, st: Step, cap: Capacity)
    requires st.Switch? && st.next > 0
    requires HasRoom(Perform(s, SwitchOut(st.prev, st.stamp, st.now), cap).startTimes, TaskKey(st.next), cap)
    ensures TaskKey(st.next) in Perform(s, Actions(st), cap).startTimes
  {
    var out, inn := SwitchOut(st.prev, st.stamp, st.now), SwitchIn(st.next, st.at);
    PerformConcat(s, out, inn, cap);
    PerformSingle(Perform(s, out, cap), inn[0], cap);
  }

  /** With room in the map, the task that a CPU's latest switch put there has its entry. */
  lemma {:induction false} RunningTaskHasEntry(steps: seq<Step>, initial: seq<u32>, cap: Capacity, cpu: nat)
    requires LegalRun(steps, initial) && cpu < |initial| && NeverFull(Flatten(steps), cap)
    requires LatestSwitch(steps, cpu).Some?
    ensures var p := Current(steps, initial)[cpu];
            p == LatestSwitch(steps, cpu).value.next && (p > 0 ==> TaskKey(p) in After(steps, cap).startTimes)
  {
    var st, p := Last(steps), Current(steps, initial)[cpu];
    AfterStep(steps, cap);
    NeverFullSteps(steps, cap);
    if st.Switch? && st.cpu == cpu {
      if p > 0 {
        SwitchInStored(After(Front(steps), cap), st, cap);
      }
    } else {
      RunningTaskHasEntry(Front(steps), initial, cap, cpu);
      StaysExclusive(Front(steps), initial);
      if p > 0 {
        StepOnTask(After(Front(steps), cap), st, p, cap);
      }
    }
  }

  /** The action of a switch that reads a slice, if there is one. */
  function SliceEnd(s: State, st: Step): (es: seq<Emission>)
    ensures |es| <= 1
    ensures forall e :: e in es ==> e.fn == SchedSwitch
  {
    if st.Switch? && st.prev > 0 then Fire(s, SwitchOut(st.prev, st.stamp, st.now)[0]) else []
  }

  /** A scheduler event reports the slice that its task has just run on that CPU: from the CPU's
      latest switch, which switched the task in, to this one. */
  lemma SliceExactness(steps: seq<Step>, initial: seq<u32>, cap: Capacity)
    requires steps != [] && LegalRun(steps, initial) && Last(steps).Switch?
    ensures var st, es := Last(steps), SliceEnd(After(Front(steps), cap), Last(steps));
            var latest := LatestSwitch(Front(steps), st.cpu);
            es != [] ==>
              && latest.Some? && latest.value.next == st.prev
              && es[0].start == latest.value.at && es[0].now == st.now
              && es[0].record.pid == st.prev && es[0].record.kind == 7
              && es[0].record.latency == CalcLatency(latest.value.at, st.now) > 1_000_000
              && es[0].record.timestamp == st.stamp && es[0].record.error == 0
              && es[0].record.target == Pad([]) && es[0].record.details == Pad([])
  {
    EntryIsSliceStart(Front(steps), initial, cap, Last(steps).cpu);
  }

  /** With room in the map no slice above 1 ms goes unreported, once its switch-in was seen. */
  lemma NoSliceMissed(steps: seq<Step>, initial: seq<u32>, cap: Capacity)
    requires steps != [] && LegalRun(steps, initial) && Last(steps).Switch? && Last(steps).prev > 0
    requires NeverFull(Flatten(Front(steps)), cap)
    ensures var st, latest := Last(steps), LatestSwitch(Front(steps), Last(steps).cpu);
            latest.Some? && CalcLatency(latest.value.at, st.now) > 1_000_000 ==>
              SliceEnd(After(Front(steps), cap), st) != []
  {
    if LatestSwitch(Front(steps), Last(steps).cpu).Some? {
      RunningTaskHasEntry(Front(steps), initial, cap, Last(steps).cpu);
      EntryIsSliceStart(Front(steps), initial, cap, Last(steps).cpu);
    }
  }

  lemma SwitchOutput(s: State, st: Step, cap: Capacity)
    requires st.Switch?
    ensures Perform(s, Actions(st), cap).output == s.output + Records(SliceEnd(s, st))
  {
    var out, inn := SwitchOut(st.prev, st.stamp, st.now), SwitchIn(st.next, st.at);
    PerformConcat(s, out, inn, cap);
    SliceEndOutput(s, st, cap);
    if inn != [] {
      PerformSingle(Perform(s, out, cap), inn[0], cap);
    }
  }

  lemma SliceEndOutput(s: State, st: Step, cap: Capacity)
    requires st.Switch?
    ensures Perform(s, SwitchOut(st.prev, st.stamp, st.now), cap).output == s.output + Records(SliceEnd(s, st))
  {
    if st.prev > 0 {
      PerformSingle(s, SwitchOut(st.prev, st.stamp, st.now)[0], cap);
    }
    assert s.output + [] == s.output;
  }

  /** A task other than the idle task leaves after a slice of more than 1 ms whose beginning was seen. */
  predicate LongSlice(latest: Option<Step>, st: Step)
    requires st.Switch? && (latest.Some? ==> latest.value.Switch?)
  {
    latest.Some? && st.prev > 0 && st.now - latest.value.at > 1_000_000
  }

  ghost predicate SliceRecord(r: Record, latest: Option<Step>, st: Step)
    requires st.Switch? && (latest.Some? ==> latest.value.Switch?)
  {
    && LongSlice(latest, st) && latest.value.next == st.prev
    && Reports(r, st.stamp, st.prev, 7, latest.value.at, st.now, 0)
    && IsBlank(r.target)
  }

  /** A switch puts nothing on the ring buffer, or a record of the slice of the task that leaves; and with
      room always that record, if the slice is long. */
  lemma SliceRecorded(steps: seq<Step>, initial: seq<u32>, cap: Capacity)
    requires steps != [] && LegalRun(steps, initial) && Last(steps).Switch?
    ensures var st, latest := Last(steps), LatestSwitch(Front(steps), Last(steps).cpu);
            var before, after := After(Front(steps), cap).output, After(steps, cap).output;
            || after == before
            || (|after| == |before| + 1 && Front(after) == before && SliceRecord(Last(after), latest, st))
    ensures var latest := LatestSwitch(Front(steps), Last(steps).cpu);
            NeverFull(Flatten(Front(steps)), cap) && LongSlice(latest, Last(steps)) ==>
              After(steps, cap).output != After(Front(steps), cap).output
  {
    var st, s := Last(steps), After(Front(steps), cap);
    AfterStep(steps, cap);
    SwitchOutput(s, st, cap);
    SliceEndRecords(steps, initial, cap);
    AppendAtMostOne(s.output, Records(SliceEnd(s, st)));
  }

  lemma AppendAtMostOne<T>(before: seq<T>, more: seq<T>)
    requires |more| <= 1
    ensures before + more == before <==> more == []
    ensures more != [] ==> Front(before + more) == before && Last(before + more) == more[0]
  {
    assert more == [] ==> before + more == before;
  }

  lemma SliceEndRecords(steps: seq<Step>, initial: seq<u32>, cap: Capacity)
    requires steps != [] && LegalRun(steps, initial) && Last(steps).Switch?
    ensures var st, latest := Last(steps), LatestSwitch(Front(steps), Last(steps).cpu);
            var records := Records(SliceEnd(After(Front(steps), cap), st));
            && |records| <= 1
            && (records != [] ==> SliceRecord(records[0], latest, st))
            && (NeverFull(Flatten(Front(steps)), cap) && LongSlice(latest, st) ==> records != [])
  {
    SliceExactness(steps, initial, cap);
    if NeverFull(Flatten(Front(steps)), cap) && Last(steps).prev > 0 {
      NoSliceMissed(steps, initial, cap);
    }
  }

  function CpuEvents(steps: seq<Step>, cpu: nat, cap: Capacity): seq<Emission> {
    if steps == [] then []
    else
      CpuEvents(Front(steps), cpu, cap) +
      if Last(steps).Switch? && Last(steps).cpu == cpu then SliceEnd(After(Front(steps), cap), Last(steps)) else []
  }

  /** The clock of one CPU never goes back, and stays within the run. */
  ghost predicate CpuClock(steps: seq<Step>, cpu: nat, lo: int, hi: int) {
    && (forall i :: 0 <= i < |steps| && steps[i].Switch? && steps[i].cpu == cpu ==>
                     lo <= steps[i].now <= steps[i].at <= hi)
    && (forall i, j :: 0 <= i < j < |steps| &&
                       steps[i].Switch? && steps[j].Switch? && steps[i].cpu == cpu && steps[j].cpu == cpu ==>
                         steps[i].at <= steps[j].now)
  }

  ghost predicate CpuClocks(steps: seq<Step>, cpus: nat, lo: int, hi: int) {
    forall cpu: nat :: cpu < cpus ==> CpuClock(steps, cpu, lo, hi)
  }

  lemma LatestSwitchIsThere(steps: seq<Step>, cpu: nat)
    requires LatestSwitch(steps, cpu).Some?
    ensures exists i :: 0 <= i < |steps| && steps[i] == LatestSwitch(steps, cpu).value
  {
    if !(Last(steps).Switch? && Last(steps).cpu == cpu) {
      LatestSwitchIsThere(Front(steps), cpu);
      var i :| 0 <= i < |Front(steps)| && Front(steps)[i] == LatestSwitch(Front(steps), cpu).value;
      assert steps[i] == Front(steps)[i];
    }
  }

  lemma CpuClockFront(steps: seq<Step>, cpu: nat, lo: int, hi: int)
    requires steps != [] && CpuClock(steps, cpu, lo, hi)
    ensures CpuClock(Front(steps), cpu, lo, hi)
    ensures LatestSwitch(Front(steps), cpu).Some? ==>
              var latest := LatestSwitch(Front(steps), cpu).value;
              && lo <= latest.now <= latest.at
              && (Last(steps).Switch? && Last(steps).cpu == cpu ==> latest.at <= Last(steps).now <= hi)
  {
    assert forall i :: 0 <= i < |Front(steps)| ==> Front(steps)[i] == steps[i];
    if LatestSwitch(Front(steps), cpu).Some? {
      LatestSwitchIsThere(Front(steps), cpu);
    }
  }

  ghost predicate SlicesUpTo(es: seq<Emission>, lo: int, end: int) {
    Disjoint(es) && Measured(es) && Within(es, lo, end)
  }

  lemma SlicesSnoc(es: seq<Emission>, more: seq<Emission>, lo: int, end: int, end': int)
    requires SlicesUpTo(es, lo, end) && |more| <= 1 && end <= end'
    requires more != [] ==> && lo <= end <= more[0].start <= more[0].now <= end'
                            && more[0].record.latency == CalcLatency(more[0].start, more[0].now)
    ensures SlicesUpTo(es + more, lo, end')
  {
  }

  ghost predicate SlicesSoFar(steps: seq<Step>, cpu: nat, cap: Capacity, lo: int) {
    var es, latest := CpuEvents(steps, cpu, cap), LatestSwitch(steps, cpu);
    if latest.None? then es == [] else SlicesUpTo(es, lo, latest.value.now)
  }

  lemma NextSlice(steps: seq<Step>, initial: seq<u32>, cap: Capacity, lo: int, hi: int)
    requires steps != [] && LegalRun(steps, initial) && Last(steps).Switch?
    requires CpuClock(steps, Last(steps).cpu, lo, hi)
    requires SlicesSoFar(Front(steps), Last(steps).cpu, cap, lo)
    ensures SlicesSoFar(steps, Last(steps).cpu, cap, lo)
  {
    var st := Last(steps);
    CpuClockFront(steps, st.cpu, lo, hi);
    SliceExactness(steps, initial, cap);
    var latest := LatestSwitch(Front(steps), st.cpu);
    if latest.Some? {
      var before, more := CpuEvents(Front(steps), st.cpu, cap), SliceEnd(After(Front(steps), cap), st);
      SlicesSnoc(before, more, lo, latest.value.now, st.now);
    }
  }

  /** The slices reported on one CPU follow one another. */
  lemma {:induction false} CpuSlices(steps: seq<Step>, initial: seq<u32>, cpu: nat, cap: Capacity, lo: int, hi: int)
    requires LegalRun(steps, initial) && cpu < |initial| && CpuClock(steps, cpu, lo, hi)
    ensures SlicesSoFar(steps, cpu, cap, lo)
  {
    if steps != [] {
      CpuClockFront(steps, cpu, lo, hi);
      CpuSlices(Front(steps), initial, cpu, cap, lo, hi);
      if Last(steps).Switch? && Last(steps).cpu == cpu {
        NextSlice(steps, initial, cap, lo, hi);
      } else {
        assert CpuEvents(steps, cpu, cap) == CpuEvents(Front(steps), cpu, cap);
      }
    }
  }

  /** The slices reported on one CPU add up to no more than the time that passed. */
  lemma CpuConservation(steps: seq<Step>, initial: seq<u32>, cpu: nat, cap: Capacity, lo: int, hi: int)
    requires LegalRun(steps, initial) && cpu < |initial| && CpuClock(steps, cpu, lo, hi) && lo <= hi
    ensures TotalLatency(CpuEvents(steps, cpu, cap)) <= hi - lo
  {
    CpuSlices(steps, initial, cpu, cap, lo, hi);
    if LatestSwitch(steps, cpu).Some? {
      LatestSwitchIsThere(steps, cpu);
      DisjointSum(CpuEvents(steps, cpu, cap), lo, hi);
    }
  }

  // ----- all CPUs together

  function SchedulerLatency(es: seq<Emission>): nat {
    if es == [] then 0
    else SchedulerLatency(Front(es)) + if Last(es).fn == SchedSwitch then Last(es).record.latency else 0
  }

  lemma {:induction false} SchedulerLatencyConcat(a: seq<Emission>, b: seq<Emission>)
    ensures SchedulerLatency(a + b) == SchedulerLatency(a) + SchedulerLatency(b)
  {
    if b == [] {
      assert a + b == a;
    } else {
      SchedulerLatencyConcat(a, Front(b));
      ConcatFront(a, b);
    }
  }

  /** The latency reported on each CPU. */
  function CpuLatencies(steps: seq<Step>, cpus: nat, cap: Capacity): (ls: seq<nat>)
    ensures |ls| == cpus
    ensures forall cpu :: 0 <= cpu < cpus ==> ls[cpu] == TotalLatency(CpuEvents(steps, cpu, cap))
  {
    seq(cpus, cpu requires 0 <= cpu < cpus => TotalLatency(CpuEvents(steps, cpu, cap)))
  }

  lemma SwitchEmissions(flat: seq<Action>, out: seq<Action>, inn: seq<Action>, cap: Capacity)
    requires |out| <= 1 && |inn| <= 1
    requires forall a :: a in out ==> a.Finish? && a.fn == SchedSwitch
    requires forall a :: a in inn ==> a.Start?
    ensures SchedulerLatency(Emissions(flat + out + inn, cap)) ==
            SchedulerLatency(Emissions(flat, cap)) +
            if out == [] then 0 else SchedulerLatency(Fire(Run(flat, cap), out[0]))
  {
    EmissionsOne(flat, out, cap);
    EmissionsOne(flat + out, inn, cap);
    if inn != [] {
      assert inn[0] in inn;
      assert Fire(Run(flat + out, cap), inn[0]) == [];
    }
    if out != [] {
      assert out[0] in out;
    }
  }

  lemma ActionsOfCall(st: Step)
    requires !st.Switch?
    ensures |Actions(st)| == 1 && Actions(st)[0].fn == st.fn
  {
  }

  lemma ActionsOfSwitch(st: Step)
    requires st.Switch?
    ensures var out, inn := SwitchOut(st.prev, st.stamp, st.now), SwitchIn(st.next, st.at);
            && |out| <= 1 && |inn| <= 1 && Actions(st) == out + inn
            && (forall a :: a in out ==> a.Finish? && a.fn == SchedSwitch)
            && (forall a :: a in inn ==> a.Start?)
  {
  }

  lemma StepEmissions(steps: seq<Step>, cap: Capacity)
    requires steps != [] && ValidStep(Last(steps))
    ensures SchedulerLatency(Emissions(Flatten(steps), cap)) ==
            SchedulerLatency(Emissions(Flatten(Front(steps)), cap)) +
            SchedulerLatency(SliceEnd(After(Front(steps), cap), Last(steps)))
  {
    var flat, st := Flatten(Front(steps)), Last(steps);
    if st.Switch? {
      ActionsOfSwitch(st);
      SwitchStepEmissions(flat, st, cap);
    } else {
      ActionsOfCall(st);
      EmissionsOne(flat, Actions(st), cap);
      assert SliceEnd(After(Front(steps), cap), st) == [];
    }
  }

  lemma SwitchStepEmissions(flat: seq<Action>, st: Step, cap: Capacity)
    requires st.Switch?
    ensures SchedulerLatency(Emissions(flat + Actions(st), cap)) ==
            SchedulerLatency(Emissions(flat, cap)) + SchedulerLatency(SliceEnd(Run(flat, cap), st))
  {
    ActionsOfSwitch(st);
    var out, inn := SwitchOut(st.prev, st.stamp, st.now), SwitchIn(st.next, st.at);
    SwitchEmissions(flat, out, inn, cap);
    Regroup(flat, out, inn);
  }

  lemma EmissionsOne(trace: seq<Action>, more: seq<Action>, cap: Capacity)
    requires |more| <= 1
    ensures SchedulerLatency(Emissions(trace + more, cap)) ==
            SchedulerLatency(Emissions(trace, cap)) +
            if more != [] && more[0].fn == SchedSwitch then SchedulerLatency(Fire(Run(trace, cap), more[0])) else 0
  {
    if more == [] {
      assert trace + more == trace;
    } else {
      assert Front(trace + more) == trace;
      SchedulerLatencyConcat(Emissions(trace, cap), Fire(Run(trace, cap), more[0]));
    }
  }

  lemma CpuLatencyStep(steps: seq<Step>, cpu: nat, cap: Capacity)
    requires steps != []
    ensures var st := Last(steps);
            TotalLatency(CpuEvents(steps, cpu, cap)) == TotalLatency(CpuEvents(Front(steps), cpu, cap)) +
              if st.Switch? && st.cpu == cpu then SchedulerLatency(SliceEnd(After(Front(steps), cap), st)) else 0
  {
    var before, es := CpuEvents(Front(steps), cpu, cap), SliceEnd(After(Front(steps), cap), Last(steps));
    TotalOfSlice(before, es);
    assert before + [] == before;
  }

  lemma TotalOfSlice(before: seq<Emission>, es: seq<Emission>)
    requires |es| <= 1 && forall e :: e in es ==> e.fn == SchedSwitch
    ensures TotalLatency(before + es) == TotalLatency(before) + SchedulerLatency(es)
  {
    if es == [] {
      assert before + es == before;
    } else {
      assert es[0] in es;
      assert Front(before + es) == before && Front(es) == [];
    }
  }

  lemma {:induction false} SumAfterUpdate(before: seq<nat>, after: seq<nat>, k: nat, more: nat)
    requires k < |before| == |after|
    requires forall i :: 0 <= i < |before| ==> after[i] == if i == k then before[i] + more else before[i]
    ensures Events.Sum(after) == Events.Sum(before) + more
  {
    var n := |before| - 1;
    if k < n {
      SumAfterUpdate(before[..n], after[..n], k, more);
    } else {
      assert before[..n] == after[..n];
    }
  }

  lemma CpuLatenciesStep(steps: seq<Step>, cpus: nat, cap: Capacity)
    requires steps != [] && (Last(steps).Switch? ==> Last(steps).cpu < cpus)
    ensures Events.Sum(CpuLatencies(steps, cpus, cap)) ==
            Events.Sum(CpuLatencies(Front(steps), cpus, cap)) +
            SchedulerLatency(SliceEnd(After(Front(steps), cap), Last(steps)))
  {
    var st, before, after := Last(steps), CpuLatencies(Front(steps), cpus, cap), CpuLatencies(steps, cpus, cap);
    forall cpu | 0 <= cpu < cpus
      ensures after[cpu] == before[cpu] +
              if st.Switch? && st.cpu == cpu then SchedulerLatency(SliceEnd(After(Front(steps), cap), st)) else 0
    {
      CpuLatencyStep(steps, cpu, cap);
    }
    if st.Switch? {
      SumAfterUpdate(before, after, st.cpu, SchedulerLatency(SliceEnd(After(Front(steps), cap), st)));
    } else {
      assert after == before;
    }
  }

  /** Every scheduler event is one CPU's. */
  lemma {:induction false} SchedulerLatencyByCpu(steps: seq<Step>, initial: seq<u32>, cap: Capacity)
    requires LegalRun(steps, initial)
    ensures SchedulerLatency(Emissions(Flatten(steps), cap)) == Events.Sum(CpuLatencies(steps, |initial|, cap))
  {
    if steps == [] {
      Events.SumAtMost(CpuLatencies(steps, |initial|, cap), 0);
    } else {
      SchedulerLatencyByCpu(Front(steps), initial, cap);
      StepEmissions(steps, cap);
      CpuLatenciesStep(steps, |initial|, cap);
    }
  }

  /** All scheduler latencies of a run add up to at most the number of CPUs times the time it took. */
  lemma SchedulerConservation(steps: seq<Step>, initial: seq<u32>, cap: Capacity, lo: int, elapsed: nat)
    requires LegalRun(steps, initial) && CpuClocks(steps, |initial|, lo, lo + elapsed)
    ensures SchedulerLatency(Emissions(Flatten(steps), cap)) <= |initial| * elapsed
  {
    EachCpu(steps, initial, cap, lo, lo + elapsed);
    Events.SumAtMost(CpuLatencies(steps, |initial|, cap), elapsed);
    SchedulerLatencyByCpu(steps, initial, cap);
  }

  lemma EachCpu(steps: seq<Step>, initial: seq<u32>, cap: Capacity, lo: int, hi: int)
    requires LegalRun(steps, initial) && lo <= hi
    requires CpuClocks(steps, |initial|, lo, hi)
    ensures forall cpu: nat :: cpu < |initial| ==> TotalLatency(CpuEvents(steps, cpu, cap)) <= hi - lo
  {
    forall cpu: nat | cpu < |initial|
      ensures TotalLatency(CpuEvents(steps, cpu, cap)) <= hi - lo
    {
      CpuConservation(steps, initial, cpu, cap, lo, hi);
    }
  }
}
