/** Activity per process, and the CPU usage section that is computed from it. */
module CpuShare {
  import opened Numbers
  import opened Events
  import opened Diagnosis
  import opened Tally

  function Pids(es: seq<Event>): (ps: seq<u32>)
    ensures |ps| == |es|
  {
    if es == [] then [] else Pids(es[..|es| - 1]) + [es[|es| - 1].pid]
  }

  ghost function EventsOfPid(es: seq<Event>, pid: u32): set<int> {
    set i | 0 <= i < |es| && es[i].pid == pid
  }

  function HasPid(pid: u32): Event -> bool {
    (e: Event) => e.pid == pid
  }

  /** A process is counted once for each of its events. */
  lemma PidsExactly(es: seq<Event>, pid: u32)
    ensures multiset(Pids(es))[pid] == |EventsOfPid(es, pid)|
  {
    PidsCount(es, pid);
    CountIfExactly(es, HasPid(pid));
    assert Positions(es, HasPid(pid)) == EventsOfPid(es, pid);
  }

  lemma {:induction false} PidsCount(es: seq<Event>, pid: u32)
    ensures multiset(Pids(es))[pid] == CountIf(es, HasPid(pid))
  {
    if es != [] {
      PidsCount(es[..|es| - 1], pid);
      MultisetSnoc(Pids(es[..|es| - 1]), es[|es| - 1].pid);
    }
  }

  function HasPrefix(s: string, prefix: string): bool {
    prefix <= s
  }

  /** strings.ToLower as far as an ASCII prefix can tell: the two non-ASCII letters that fold to ASCII
      are the Kelvin sign and the dotted capital I. */
  function LowerChar(c: char): char {
    if 'A' <= c <= 'Z' then c - 'A' + 'a'
    else if c == '\U{212A}' then 'k'
    else if c == '\U{0130}' then 'i'
    else c
  }

  function ToLower(s: string): string {
    seq(|s|, i requires 0 <= i < |s| => LowerChar(s[i]))
  }

  const KERNEL_PREFIXES := [
    "kworker", "irq/", "ksoftirqd", "migration", "rcu_", "rcu_sched", "rcu_bh",
    "watchdog", "khugepaged", "kswapd", "kthreadd", "jbd2", "dmcrypt", "kcryptd"]

  predicate IsKernelThread(name: string) {
    (exists i :: 0 <= i < |KERNEL_PREFIXES| && HasPrefix(ToLower(name), KERNEL_PREFIXES[i]))
    || (HasPrefix(name, "[") && name[|name| - 1] == ']')
  }

  /** Capital letters are lowered, and every other character but the two stays. */
  lemma LowerCharExactly(c: char)
    ensures 'A' <= c <= 'Z' ==> LowerChar(c) as int == c as int + 32
    ensures !('A' <= c <= 'Z') && c != '\U{212A}' && c != '\U{0130}' ==> LowerChar(c) == c
  {
  }

  /** The beginnings that make a kernel thread; two of the fourteen of the code add nothing to "rcu_". */
  ghost predicate KernelBeginning(s: string) {
    || s == "kworker" || s == "irq/" || s == "ksoftirqd" || s == "migration" || s == "rcu_" || s == "watchdog"
    || s == "khugepaged" || s == "kswapd" || s == "kthreadd" || s == "jbd2" || s == "dmcrypt" || s == "kcryptd"
  }

  /** A kernel thread has a lower-cased name with one of these beginnings, or a name in brackets. */
  lemma KernelNames(name: string)
    ensures IsKernelThread(name) <==>
            || (exists n :: 0 <= n <= |name| && KernelBeginning(ToLower(name)[..n]))
            || (|name| >= 2 && name[0] == '[' && name[|name| - 1] == ']')
  {
    var lower := ToLower(name);
    if exists i :: 0 <= i < |KERNEL_PREFIXES| && HasPrefix(lower, KERNEL_PREFIXES[i]) {
      var i :| 0 <= i < |KERNEL_PREFIXES| && HasPrefix(lower, KERNEL_PREFIXES[i]);
      PrefixBegins(lower, i);
    }
    if n: int :| 0 <= n <= |name| && KernelBeginning(lower[..n]) {
      BeginningIsPrefix(lower, n);
    }
  }

  lemma PrefixBegins(s: string, i: nat)
    requires i < |KERNEL_PREFIXES| && HasPrefix(s, KERNEL_PREFIXES[i])
    ensures exists n :: 0 <= n <= |s| && KernelBeginning(s[..n])
  {
    var p := if i == 5 || i == 6 then "rcu_" else KERNEL_PREFIXES[i];
    assert p <= KERNEL_PREFIXES[i];
    assert s[..|p|] == p;
  }

  lemma BeginningIsPrefix(s: string, n: nat)
    requires n <= |s| && KernelBeginning(s[..n])
    ensures exists i :: 0 <= i < |KERNEL_PREFIXES| && HasPrefix(s, KERNEL_PREFIXES[i])
  {
    var p := s[..n];
    var i := if p == "kworker" then 0 else if p == "irq/" then 1 else if p == "ksoftirqd" then 2
             else if p == "migration" then 3 else if p == "rcu_" then 4 else if p == "watchdog" then 7
             else if p == "khugepaged" then 8 else if p == "kswapd" then 9 else if p == "kthreadd" then 10
             else if p == "jbd2" then 11 else if p == "dmcrypt" then 12 else 13;
    assert KERNEL_PREFIXES[i] == p;
    assert HasPrefix(s, KERNEL_PREFIXES[i]);
  }

  /** The name shown for a process: the first one an event carries, else what /proc says, else "unknown". */
  function NameOf(es: seq<Event>, pid: u32, procName: u32 -> string): string {
    if es == [] then (if procName(pid) == "" then "unknown" else procName(pid))
    else if es[0].pid == pid && es[0].processName != "" then es[0].processName
    else NameOf(es[1..], pid, procName)
  }

  function IsKernel(es: seq<Event>, procName: u32 -> string): Entry<u32> -> bool {
    (e: Entry<u32>) => IsKernelThread(NameOf(es, e.key, procName))
  }

  function IsPod(es: seq<Event>, procName: u32 -> string): Entry<u32> -> bool {
    (e: Entry<u32>) => !IsKernelThread(NameOf(es, e.key, procName))
  }

  predicate Names(e: Event, pid: u32) {
    e.pid == pid && e.processName != ""
  }

  /** Event i is the first that names the process: then its name is shown. */
  lemma {:induction false} NameFromEvent(es: seq<Event>, pid: u32, procName: u32 -> string, i: nat)
    requires i < |es| && Names(es[i], pid) && forall k :: 0 <= k < i ==> !Names(es[k], pid)
    ensures NameOf(es, pid, procName) == es[i].processName
  {
    if i > 0 {
      assert !Names(es[0], pid);
      NameFromEvent(es[1..], pid, procName, i - 1);
    }
  }

  /** No event names the process: then /proc is asked, and if it knows none either the name is unknown. */
  lemma {:induction false} NameFromProc(es: seq<Event>, pid: u32, procName: u32 -> string)
    requires forall e :: e in es ==> !Names(e, pid)
    ensures NameOf(es, pid, procName) == if procName(pid) != "" then procName(pid) else "unknown"
  {
    if es != [] {
      assert es[0] in es;
      NameFromProc(es[1..], pid, procName);
    }
  }

  method FindName(es: seq<Event>, pid: u32, procName: u32 -> string) returns (name: string)
    ensures name == NameOf(es, pid, procName)
  {
    for i := 0 to |es|
      invariant NameOf(es, pid, procName) == NameOf(es[i..], pid, procName)
    {
      if es[i].pid == pid && es[i].processName != "" {
        return es[i].processName;
      }
    }
    name := procName(pid);
    if name == "" {
      name := "unknown";
    }
  }

  datatype PidInfo = PidInfo(pid: u32, name: string, count: nat, percentage: real)

  function EntriesOf(infos: seq<PidInfo>): (entries: seq<Entry<u32>>)
    ensures |entries| == |infos|
    ensures forall i :: 0 <= i < |infos| ==> entries[i] == Entry(infos[i].pid, infos[i].count)
  {
    seq(|infos|, i requires 0 <= i < |infos| => Entry(infos[i].pid, infos[i].count))
  }

  /** Each process with its name and its share of the events. */
  ghost predicate Described(infos: seq<PidInfo>, es: seq<Event>, procName: u32 -> string) {
    forall info :: info in infos ==>
                     && info.name == NameOf(es, info.pid, procName)
                     && info.percentage == Percent(info.count, |es|)
  }

  method Describe(entries: seq<Entry<u32>>, es: seq<Event>, procName: u32 -> string) returns (infos: seq<PidInfo>)
    ensures EntriesOf(infos) == entries && Described(infos, es, procName)
  {
    infos := [];
    for i := 0 to |entries|
      invariant EntriesOf(infos) == entries[..i]
      invariant Described(infos, es, procName)
    {
      var name := FindName(es, entries[i].key, procName);
      infos := infos + [PidInfo(entries[i].key, name, entries[i].count, Percent(entries[i].count, |es|))];
    }
    assert entries[..|entries|] == entries;
  }

  /** Events per process, the most active first; ties and the map's order are nobody's promise. */
  method AnalyzeProcessActivity(es: seq<Event>, procName: u32 -> string) returns (pidInfos: seq<PidInfo>)
    ensures Lists(EntriesOf(pidInfos), Pids(es)) && Descending(EntriesOf(pidInfos))
    ensures Described(pidInfos, es, procName)
  {
    var pidMap: map<u32, nat> := map[];
    for i := 0 to |es|
      invariant pidMap == Counters(Pids(es[..i]))
    {
      NextEvent(es, i);
      CountersSnoc(Pids(es[..i]), es[i].pid);
      pidMap := Bump(pidMap, es[i].pid);
    }
    assert es[..|es|] == es;
    var ranked := RankCounters(pidMap, Pids(es));
    pidInfos := Describe(ranked, es, procName);
  }

  /** The processes of each group that the report shows, and the two figures below them. */
  datatype Usage = Usage(pods: seq<Entry<u32>>, kernel: seq<Entry<u32>>, total: real, idle: real)

  function Shown<T>(s: seq<T>, limit: nat): seq<T> {
    if |s| > limit then s[..limit] else s
  }

  function Cut<T>(s: seq<T>, limit: nat): seq<T> {
    if |s| > limit then s[limit..] else []
  }

  method AddPercentages(infos: seq<Entry<u32>>, limit: nat, events: nat) returns (shown: seq<Entry<u32>>, sum: real)
    ensures shown == Shown(infos, limit)
    ensures sum == Percent(Total(shown), events)
  {
    shown, sum := [], 0.0;
    for i := 0 to |infos|
      invariant i <= limit
      invariant shown == infos[..i]
      invariant sum == Percent(Total(shown), events)
    {
      if i >= limit {
        break;
      }
      PercentAdds(Total(shown), infos[i].count, events);
      TotalConcat(shown, [infos[i]]);
      shown := shown + [infos[i]];
      sum := sum + Percent(infos[i].count, events);
    }
  }

  /** The processes of each group. */
  method Separate(activity: seq<Entry<u32>>, es: seq<Event>, procName: u32 -> string)
    returns (pods: seq<Entry<u32>>, kernel: seq<Entry<u32>>)
    ensures pods == Filter(activity, IsPod(es, procName)) && kernel == Filter(activity, IsKernel(es, procName))
  {
    pods, kernel := [], [];
    for i := 0 to |activity|
      invariant pods == Filter(activity[..i], IsPod(es, procName))
      invariant kernel == Filter(activity[..i], IsKernel(es, procName))
    {
      NextEvent(activity, i);
      if IsKernelThread(NameOf(es, activity[i].key, procName)) {
        kernel := kernel + [activity[i]];
      } else {
        pods := pods + [activity[i]];
      }
    }
    assert activity[..|activity|] == activity;
  }

  /** The figures of the report; with no events the caller prints another text instead. */
  method GenerateCPUUsageReport(es: seq<Event>, procName: u32 -> string)
    returns (r: Option<Usage>, ghost ranked: seq<Entry<u32>>)
    ensures Lists(ranked, Pids(es)) && Descending(ranked)
    ensures es == [] <==> r.None?
    ensures r.Some? ==>
              && r.value.pods == Shown(Filter(ranked, IsPod(es, procName)), 10)
              && r.value.kernel == Shown(Filter(ranked, IsKernel(es, procName)), 5)
              && r.value.total == Percent(Total(r.value.pods), |es|) + Percent(Total(r.value.kernel), |es|)
              && r.value.idle == 100.0 - r.value.total
  {
    var pidActivity := AnalyzeProcessActivity(es, procName);
    var activity := SortByCount(EntriesOf(pidActivity));
    ReorderingLists(EntriesOf(pidActivity), activity, Pids(es));
    ranked := activity;
    CountsAddUp(ranked, Pids(es));
    if |activity| == 0 {
      return None, ranked;
    }
    assert es != [] by {
      assert activity[0].key in Pids(es);
    }
    var podProcesses, kernelProcesses := Separate(activity, es, procName);
    var pods, podPercent := AddPercentages(podProcesses, 10, |es|);
    var kernel, kernelPercent := AddPercentages(kernelProcesses, 5, |es|);
    r := Some(Usage(pods, kernel, podPercent + kernelPercent, 100.0 - (podPercent + kernelPercent)));
  }

  // ----- conservation

  lemma {:induction false} TotalConcat(a: seq<Entry<u32>>, b: seq<Entry<u32>>)
    ensures Total(a + b) == Total(a) + Total(b)
  {
    if a == [] {
      assert a + b == b;
    } else {
      TotalConcat(a[1..], b);
      assert (a + b)[1..] == a[1..] + b;
    }
  }

  lemma {:induction false} GroupsAddUp(ranked: seq<Entry<u32>>, es: seq<Event>, procName: u32 -> string)
    ensures Total(Filter(ranked, IsPod(es, procName))) + Total(Filter(ranked, IsKernel(es, procName))) == Total(ranked)
  {
    if ranked != [] {
      var front, e := ranked[..|ranked| - 1], ranked[|ranked| - 1];
      GroupsAddUp(front, es, procName);
      assert ranked == front + [e];
      TotalConcat(front, [e]);
      TotalFiltered(front, e, IsPod(es, procName));
      TotalFiltered(front, e, IsKernel(es, procName));
    }
  }

  lemma TotalFiltered(front: seq<Entry<u32>>, e: Entry<u32>, p: Entry<u32> -> bool)
    ensures Total(Filter(front + [e], p)) == Total(Filter(front, p)) + if p(e) then Total([e]) else 0
  {
    FilterSnoc(front, e, p);
    TotalConcat(Filter(front, p), [e]);
    assert Filter(front, p) + [] == Filter(front, p);
  }

  lemma ShownAndCut(s: seq<Entry<u32>>, limit: nat)
    ensures Total(Shown(s, limit)) + Total(Cut(s, limit)) == Total(s)
    ensures Shown(s, limit) + Cut(s, limit) == s && |Shown(s, limit)| == if |s| < limit then |s| else limit
  {
    if |s| > limit {
      assert s == s[..limit] + s[limit..];
      TotalConcat(s[..limit], s[limit..]);
    }
  }

  lemma {:induction false} FilterDescends(ranked: seq<Entry<u32>>, p: Entry<u32> -> bool)
    requires Descending(ranked)
    ensures Descending(Filter(ranked, p))
  {
    if ranked != [] {
      var front, last := ranked[..|ranked| - 1], ranked[|ranked| - 1];
      FilterDescends(front, p);
      FilterKeepsMembers(front, p);
      assert forall e :: e in front ==> e.count >= last.count;
      AppendSmaller(Filter(front, p), last);
    }
  }

  lemma AppendSmaller(es: seq<Entry<u32>>, last: Entry<u32>)
    requires Descending(es) && forall e :: e in es ==> e.count >= last.count
    ensures Descending(es + [last])
  {
  }

  lemma {:induction false} PositiveTotal(s: seq<Entry<u32>>)
    requires forall e :: e in s ==> e.count > 0
    ensures Total(s) == 0 <==> s == []
  {
    if s != [] {
      assert s[0] in s;
      PositiveTotal(s[1..]);
    }
  }

  lemma Quotient(x: real, t: real)
    requires t > 0.0 && x >= 0.0
    ensures x / t >= 0.0 && (x / t == 0.0 <==> x == 0.0)
  {
  }

  lemma PercentPositive(count: nat, total: nat)
    requires total > 0
    ensures Percent(count, total) >= 0.0
    ensures Percent(count, total) == 0.0 <==> count == 0
  {
    var t, x := total as real, count as real * 100.0;
    Quotient(x, t);
  }

  /** What the two figures say of two groups of processes that stand for `events` events. */
  ghost predicate SharesAddUp(pods: seq<Entry<u32>>, kernel: seq<Entry<u32>>, events: nat) {
    var total := Percent(Total(Shown(pods, 10)), events) + Percent(Total(Shown(kernel, 5)), events);
    && Total(pods) + Total(kernel) == events
    && 0.0 <= total <= 100.0
    && 100.0 - total == Percent(Total(Cut(pods, 10)) + Total(Cut(kernel, 5)), events)
    && (total == 100.0 <==> |pods| <= 10 && |kernel| <= 5)
  }

  lemma GroupShares(pods: seq<Entry<u32>>, kernel: seq<Entry<u32>>, events: nat)
    requires Total(pods) + Total(kernel) == events > 0
    requires Total(Cut(pods, 10)) == 0 <==> |pods| <= 10
    requires Total(Cut(kernel, 5)) == 0 <==> |kernel| <= 5
    ensures SharesAddUp(pods, kernel, events)
  {
    ShownAndCut(pods, 10);
    ShownAndCut(kernel, 5);
    var cut := Total(Cut(pods, 10)) + Total(Cut(kernel, 5));
    Shares(Total(Shown(pods, 10)), Total(Shown(kernel, 5)), cut, events);
    assert cut == 0 <==> |pods| <= 10 && |kernel| <= 5;
  }

  /** Whatever the order of ties: the two groups cover all events, and the idle figure is exactly the
      share of the processes that the limits of 10 and 5 cut off, so it is zero exactly when none is. */
  lemma CpuShareConservation(es: seq<Event>, procName: u32 -> string, ranked: seq<Entry<u32>>)
    requires es != [] && Lists(ranked, Pids(es))
    ensures SharesAddUp(Filter(ranked, IsPod(es, procName)), Filter(ranked, IsKernel(es, procName)), |es|)
  {
    var pods, kernel := Filter(ranked, IsPod(es, procName)), Filter(ranked, IsKernel(es, procName));
    assert Total(pods) + Total(kernel) == |es| by {
      CountsAddUp(ranked, Pids(es));
      GroupsAddUp(ranked, es, procName);
    }
    CutIsPositive(ranked, Pids(es), IsPod(es, procName), 10);
    CutIsPositive(ranked, Pids(es), IsKernel(es, procName), 5);
    GroupShares(pods, kernel, |es|);
  }

  /** No process cut off has more events than one shown of its group. */
  lemma CutProcessesAreSmaller(ranked: seq<Entry<u32>>, p: Entry<u32> -> bool, limit: nat,
      shown: Entry<u32>, cut: Entry<u32>)
    requires Descending(ranked)
    requires shown in Shown(Filter(ranked, p), limit) && cut in Cut(Filter(ranked, p), limit)
    ensures cut.count <= shown.count
  {
    FilterDescends(ranked, p);
  }

  lemma Shares(a: nat, b: nat, cut: nat, events: nat)
    requires a + b + cut == events > 0
    ensures var total := Percent(a, events) + Percent(b, events);
            && 0.0 <= total <= 100.0
            && 100.0 - total == Percent(cut, events)
            && (total == 100.0 <==> cut == 0)
  {
    PercentAdds(a, b, events);
    PercentAdds(a + b, cut, events);
    FullPercent(events);
    PercentPositive(a + b, events);
    PercentPositive(cut, events);
  }

  lemma CutIsPositive(ranked: seq<Entry<u32>>, keys: seq<u32>, p: Entry<u32> -> bool, limit: nat)
    requires Lists(ranked, keys)
    ensures Total(Cut(Filter(ranked, p), limit)) == 0 <==> |Filter(ranked, p)| <= limit
  {
    FilterKeepsMembers(ranked, p);
    var cut := Cut(Filter(ranked, p), limit);
    forall e | e in cut
      ensures e.count > 0
    {
      assert e in ranked;
    }
    PositiveTotal(cut);
  }
}
