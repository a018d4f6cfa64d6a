# A model of podtrace in Dafny

podtrace attaches probes to a handful of kernel and libc functions, measures how long each call
takes, sends one record per call through a ring buffer, and lets a Go program turn the records into
a diagnostic report and into metrics. This project models the three parts whose behaviour is hard to
see from a single function body, and the two small ones between them:

- the kernel probe state machine: two bounded maps shared by all probes of all threads and by the
  scheduler tracepoint (`ProbeMap`, `Handlers`, `ProbeRuns`, `Nesting`, `Clocks`, `Scheduler`,
  `Occupancy`, `LeafCalls`);
- the address formatters, the wire record and its reader (`AddressText`, `Formatters`, `Wire`,
  `EndToEnd`);
- the report analytics (`Percentiles`, `Diagnosis`, `Windows`, `Timeline`, `CpuShare`, on top of
  `Events` and `Tally`);
- the cgroup filter (`Cgroup`), the event channel with its two consumers (`Channel`), and the way of an
  event through all of them (`Pipeline`).

`Numbers` and `Fields` hold fixed-width integers, little-endian bytes, and splitting and joining.

## How the probes are modelled

A handler run is one action, or two for the scheduler tracepoint: a `Start` writes the clock into
`start_times` (and a host name into `dns_targets`), a `Finish` looks its key up, perhaps emits an
event, and deletes the entry. `Handlers.KernelProbes` performs the handlers on mutable maps; each of
its methods is proved equal to those actions at capacity 1024, and `Handlers.Replay` shows that calling
them one after the other gives the run of their steps. A run is any sequence of actions, so
theorems about runs hold for every interleaving. A capacity is a number of entries or unlimited; a
new key is refused by a full map, an existing key is always overwritten.

What the theorems say of the code:

- A return reports only a *leaf* call, one during which no other probed call of the same thread
  started. A `vfs_write` on a socket (which runs `tcp_sendmsg`) is never reported, and a
  `getaddrinfo` that connects, reads or writes is not reported either.
- `LeafCalls.LeafCallRecorded` says in full what such a call puts on the ring buffer, from the arguments of
  its entry and return probes, in every interleaving.
- A smaller map reports a subsequence of what a larger one reports, and loses at most one event for each
  start it refuses. No start is refused while the CPUs and the calls in progress fit the 1024 entries,
  however many tasks the machine has seen.
- Host names are not as safe as latencies: a lookup without a host name can report the host of an
  earlier lookup (`Nesting.StaleHostName`). `Nesting.TargetFromHistory` says exactly when, in terms of the
  calls made; `Nesting.DnsTarget` says it for full maps too. A full map can also make the difference
  (`Nesting.CapacityCanChangeHost`).
- The spike rate can be listed as an issue although the P95 is at most 100 ms (`Diagnosis.IssueWithoutP95`).
- The scheduler event is described as time blocked (README.md:19 and bpf/podtrace.bpf.c:463 of the
  repository), but the code stores at switch-in and reads at switch-out, so the model follows the code: the event
  measures the slice that the task has just run.
- `parseEvent` tests for 32 bytes, but `binary.Read` needs all 156.
- The "idle time" of the CPU section is the share of the processes that the limits of 10 and 5 hide.
- Events of kind read are not exported by the metrics loop, so one that it takes is in neither output.

Latencies, times and durations are whole nanoseconds, and rates and percentages are compared as
products of integers or as exact reals; floating-point rounding is not modelled. Where Go leaves an
order open (map iteration, `sort.Slice` on ties), the methods choose arbitrarily and the theorems
hold for every choice.

## Model

| member | source | states |
|---|---|---|
| Numbers.TruncateToI32 | bpf/podtrace.bpf.c:225-226 | the error field keeps a 64-bit result modulo 2^32 |
| Numbers.LittleEndianDecodes | internal/ebpf/tracer.go:222 | every value that fits n bytes is recovered from its n little-endian bytes |
| Numbers.LittleEndianEncodes | internal/ebpf/tracer.go:222 | every byte string is recovered from the number it denotes |
| Numbers.LittleEndianByte | internal/ebpf/tracer.go:222 | byte i of a number is its i-th digit in base 256, lowest first |
| Numbers.BitsAgree | bpf/podtrace.bpf.c:36 | the bits of a signed error are its value modulo 2^32 |
| AddressText.Ipv4RoundTrip | bpf/podtrace.bpf.c:69-98 | an independent reader recovers every IPv4 address and port from the text, which holds no NUL |
| AddressText.Ipv6RoundTrip | bpf/podtrace.bpf.c:100-141 | an independent reader recovers every IPv6 address and port from the text, which has exactly eight colons and no NUL |
| AddressText.FieldsOfIpv6 | bpf/podtrace.bpf.c:104-140 | the exact form: nine fields between colons, a zero group other than the first and last shows nothing, one below 0x1000 other than the first three hex digits, the others four, the port five |
| AddressText.FieldsOfIpv4 | bpf/podtrace.bpf.c:76-97 | the exact form: four fields of three digits between dots, and five digits of the port behind a colon |
| AddressText.CharacterTable | bpf/podtrace.bpf.c:79-127 | digits are written in lower case, and the separators are a dot and a colon |
| AddressText.GroupsText | bpf/podtrace.bpf.c:104-130 | before group i >= 1 the text is at most 5*i-1 bytes long |
| AddressText.Ipv6Text | bpf/podtrace.bpf.c:100-141 | the whole text is at most 45 bytes, so its NUL lands at index 45 or lower |
| Formatters.FormatIpPort | bpf/podtrace.bpf.c:69-98 | the buffer holds the IPv4 text, a NUL, and its old bytes after index 21 |
| Formatters.WriteGroup | bpf/podtrace.bpf.c:104-129 | one turn of the group loop appends the colon and all digits of its group, whose number AddressText.FieldsOfIpv6 states, although every write is behind a length guard |
| Formatters.FormatIpv6Port | bpf/podtrace.bpf.c:100-141 | no guard cuts the text: the buffer holds all of it, in the form of AddressText.FieldsOfIpv6, a NUL, and its old bytes behind that |
| Wire.ParseEvent | internal/ebpf/tracer.go:207-235 | reading succeeds exactly for data of at least 156 bytes |
| Wire.Layout | bpf/podtrace.bpf.c:31-39 | each field lies at its offset in the C struct |
| Wire.TrimNuls | internal/ebpf/tracer.go:232-233 | the trimmed text is the prefix behind which there are only NULs and which does not end in one |
| Wire.ParseInvertsEncode | bpf/podtrace.bpf.c:31-39 | reading the C layout gives back every field, signed error included, and ignores what follows it |
| Wire.EncodeInvertsParse | internal/ebpf/tracer.go:207-235 | laying a parsed event out again gives the first 156 bytes of the data, for all data |
| Wire.TrimInvertsPad | internal/ebpf/tracer.go:232-233 | every text of at most 64 bytes without trailing NUL survives padding and trimming |
| EndToEnd.Ipv6ConnectArrives | bpf/podtrace.bpf.c:173-208 | an IPv6 connect that has a start time is reported, and the event Go parses decodes to the address and port that the return probe read, with its process, timestamp, latency and error |
| EndToEnd.Ipv4ConnectArrives | bpf/podtrace.bpf.c:210-248 | the same for IPv4 |
| EndToEnd.LookupArrives | bpf/podtrace.bpf.c:506-543 | a lookup that has a start time is reported and arrives with its process, timestamp, latency and error, and with the host name stored for its key, or none |
| EndToEnd.ReturnArrives | internal/ebpf/tracer.go:207-235 | every return that finds a start time and passes its filter is reported, and all its fields arrive |
| ProbeMap.GetKeyInjective | bpf/podtrace.bpf.c:60-62 | two tasks share a key only if both numbers agree |
| ProbeMap.ShiftOrIsScaledSum | bpf/podtrace.bpf.c:60-62 | the shift-and-or of get_key on 64-bit words is the sum used by the model |
| ProbeMap.CalcLatency | bpf/podtrace.bpf.c:64-67 | start plus latency is the second reading, and the latency is zero, not wrapped, when that is earlier |
| Handlers.KernelProbes.Kprobe | bpf/podtrace.bpf.c:143-163 | an entry probe stores its clock under the task's key unless the map holds 1024 entries and the key is new; names and output are unchanged |
| Handlers.KernelProbes.UprobeGetaddrinfo | bpf/podtrace.bpf.c:488-504 | a lookup entry also stores its host name under the same condition, and without a name leaves the names as they are |
| Handlers.KernelProbes.KretprobeTcpV4Connect | bpf/podtrace.bpf.c:210-248 | a connect return with a start time emits one event with the formatted address and deletes the entry |
| Handlers.KernelProbes.KretprobeTcpV6Connect | bpf/podtrace.bpf.c:173-208 | the same for IPv6 |
| Handlers.KernelProbes.KretprobeTcpTransfer | bpf/podtrace.bpf.c:261-318 | a send return reports one record of kind 2, a receive return of kind 3, with their clock, process, latency and result, and deletes the entry; without an entry nothing changes |
| Handlers.KernelProbes.KretprobeVfs | bpf/podtrace.bpf.c:340-435 | a write, read or fsync return deletes the entry always and reports a record of kind 4, 5 or 6 only from 1 ms on |
| Handlers.KernelProbes.UretprobeGetaddrinfo | bpf/podtrace.bpf.c:506-543 | a lookup return without a start time changes nothing, not even the stored name; otherwise both entries go |
| Handlers.KernelProbes.TracepointSchedSwitch | bpf/podtrace.bpf.c:437-486 | a switch ends the slice of the task that leaves, reporting it above 1 ms with the first clock reading and error 0, and then stores the third reading for the task that comes; the idle task is passed over |
| Handlers.Replay | bpf/podtrace.bpf.c:143-543 | handlers called one after the other in any order leave the state of the run of their steps, and its emissions as output |
| ProbeRuns.OutputIsEmissions | bpf/podtrace.bpf.c:205-206 | the output of a run is the concatenation of what its actions emit |
| ProbeRuns.SizeBound | bpf/podtrace.bpf.c:46-58 | in every run both maps stay within their size |
| ProbeRuns.LatestStart | bpf/podtrace.bpf.c:143-435 | whatever the nesting and capacity, a key is in the map only while the last action on it is a start, and then with that start's time |
| ProbeRuns.NeverFullIsUnbounded | bpf/podtrace.bpf.c:46-58 | runs that never find a map full give the states and events of unlimited maps |
| ProbeRuns.RoomExactly | bpf/podtrace.bpf.c:46-51 | a run never finds the map of starts full exactly when the unlimited map never outgrows its size |
| ProbeRuns.FewKeysNeverFull | bpf/podtrace.bpf.c:46-58 | a run over no more keys than there are entries never finds a map full |
| ProbeRuns.CapacityMonotone | bpf/podtrace.bpf.c:143-543 | on one trace a map of some size reports a subsequence of what any larger or unlimited map reports (DNS targets aside): full maps lose events, but add none and change no latency |
| ProbeRuns.LossBound | bpf/podtrace.bpf.c:143-543 | against any larger or unlimited map, at most one event is lost for each start that was refused |
| ProbeRuns.NonInterference | bpf/podtrace.bpf.c:60-62 | while the maps have room, a key's events in any interleaving are those of its own actions alone |
| Nesting.LeafIsLatest | bpf/podtrace.bpf.c:143-435 | a call in progress is a leaf exactly when nothing happened on its key since it started |
| Nesting.LeafExactness | bpf/podtrace.bpf.c:143-435 | a return emits only for a leaf call, with that call's kind and start; if the map never filled, every leaf call that passes its filter is emitted |
| Nesting.ReportsAreLeafCalls | bpf/podtrace.bpf.c:143-543 | over a well-nested run a key's events are a subsequence of its leaf calls read off the calls alone (DNS targets aside), all of them when the map of starts never fills, and equal to them with their DNS targets when neither map fills |
| Nesting.DnsTarget | bpf/podtrace.bpf.c:488-543 | a reported lookup carries its own host name exactly when the name had room (or is empty) if it passed one, and exactly when no other name was left on its key if it passed none |
| Nesting.TargetFromHistory | bpf/podtrace.bpf.c:488-543 | with room, a leaf lookup reports its own host name or, if it passed none, the name that earlier calls left on its key: wrongly so exactly if that is not empty |
| Nesting.StaleHostName | bpf/podtrace.bpf.c:513-515 | a run in which a lookup without a name reports the host of an earlier one |
| Nesting.CapacityCanChangeHost | bpf/podtrace.bpf.c:498-515 | a run on which a map of one entry, when full, reports a host for a lookup that passed none, and an unlimited map does not |
| LeafCalls.LeafCallRecorded | bpf/podtrace.bpf.c:143-543 | with room, in every interleaving: a call that contains no other probed call of its thread puts one record on the ring buffer, unless it is a file call under 1 ms; the record has the kind of its function, its times, result, and its peer or host name |
| Clocks.DisjointIntervals | bpf/podtrace.bpf.c:64-67 | the measured intervals of one key's events never overlap |
| Clocks.TimeConservation | bpf/podtrace.bpf.c:64-67 | the latencies reported for a key add up to at most the time its run took |
| Clocks.ThreadOnKey | bpf/podtrace.bpf.c:60-62 | a thread's key sees exactly the steps of that thread, never the scheduler's |
| Clocks.ThreadNonInterference | bpf/podtrace.bpf.c:143-543 | while the maps have room, a thread's events in any interleaving with threads and scheduler are those of its own steps alone |
| Scheduler.OnlyRunningTasks | bpf/podtrace.bpf.c:457-483 | on any number of CPUs, only tasks now running have a scheduler entry |
| Scheduler.TaskEntriesBound | bpf/podtrace.bpf.c:457-483 | there are at most as many scheduler entries as CPUs |
| Scheduler.SliceExactness | bpf/podtrace.bpf.c:457-477 | a scheduler event measures from the CPU's latest switch, which put the task there, to this one, exceeds 1 ms, and carries the first clock reading, error 0 and no texts |
| Scheduler.SliceRecorded | bpf/podtrace.bpf.c:453-486 | a switch puts nothing on the ring buffer or the record of the slice that ends, and with room always that record, if the slice is long and its beginning was seen |
| Scheduler.NoSliceMissed | bpf/podtrace.bpf.c:457-483 | while the map has room, every slice above 1 ms whose switch-in was seen is reported |
| Scheduler.CpuSlices | bpf/podtrace.bpf.c:437-486 | the slices reported on one CPU are disjoint and in order |
| Scheduler.CpuConservation | bpf/podtrace.bpf.c:437-486 | they add up to at most the time that passed |
| Scheduler.SchedulerLatencyByCpu | bpf/podtrace.bpf.c:437-486 | the scheduler latencies of a run are the sum of those of its CPUs |
| Scheduler.SchedulerConservation | bpf/podtrace.bpf.c:437-486 | all scheduler latencies of a run are at most the number of CPUs times the elapsed time |
| Occupancy.OccupancyBound | bpf/podtrace.bpf.c:46-51 | at any capacity the map of starts holds at most one entry for each CPU and one for each thread with a call in progress |
| Occupancy.CallsFitNeverFull | bpf/podtrace.bpf.c:46-51 | while the CPUs and the calls in progress fit the map, no start is refused, however many tasks have run |
| Events.CountOfRearranged | internal/diagnose/diagnose.go:202-210 | counts over an event list do not depend on its order |
| Events.KindExactly | internal/diagnose/diagnose.go:202-210 | the events of a kind are all of them, as often as they occur, and no others |
| Events.EventTimeExactly | internal/diagnose/diagnose.go:661 | the time of an event is its timestamp as 64 signed bits |
| Percentiles.SortedIsUnique | internal/diagnose/diagnose.go:241 | any two sorted rearrangements of the latencies are the same list |
| Percentiles.SortLatencies | internal/diagnose/diagnose.go:281 | the in-place sort leaves the sorted rearrangement of the old contents |
| Percentiles.Rank | internal/diagnose/diagnose.go:387 | the index computed for a percentile is always in range |
| Percentiles.RankExactly | internal/diagnose/diagnose.go:387 | that index is the whole part of (n-1) * p / 100 |
| Percentiles.PercentileExactly | internal/diagnose/diagnose.go:383-389 | a percentile of a list is one of its values, with at most (n-1) * p / 100 below it and fewer than 1 + (n-1) * (100-p) / 100 above it |
| Percentiles.RankAboveBound | internal/diagnose/diagnose.go:383-389 | a sorted value exceeds a bound exactly when at least n - index values do |
| Percentiles.PercentileAboveBound | internal/diagnose/diagnose.go:383-389 | a percentile of an unsorted list exceeds a bound exactly when at least n - rank of its values do |
| Percentiles.SummaryIsOrdered | internal/diagnose/diagnose.go:257-287 | P50 <= P95 <= P99 <= maximum, the average is at most the maximum, and the maximum is the last sorted value |
| Percentiles.SummaryIgnoresOrder | internal/diagnose/diagnose.go:257-287 | total, maximum and percentiles depend only on the multiset of latencies |
| Diagnosis.AnalyzeTCP | internal/diagnose/diagnose.go:257-287 | the loop returns the summary of the latencies, the spikes above 100 ms and the errors other than EAGAIN |
| Diagnosis.SummaryExactly | internal/diagnose/diagnose.go:239-245 | the summary has the sum, the largest value, and the values at the 50th, 95th and 99th percentile |
| Diagnosis.CountsExactly | internal/diagnose/diagnose.go:264-277 | spikes are the latencies above 100 ms, failures the non-zero errors, and transfer errors the negative ones other than -11 |
| Diagnosis.ErrorCodesExactly | internal/diagnose/diagnose.go:304-307 | each error code is counted once for each event with it, and zero never |
| Diagnosis.TargetsExactly | internal/diagnose/diagnose.go:308-310 | each target is counted once for each event with it, and the four that are no names never |
| Diagnosis.AnalyzeConnections | internal/diagnose/diagnose.go:289-329 | the loop returns the summary, the failures, their count per error code, and each named target once with its count, largest first in any order of ties |
| Diagnosis.BreakdownAddsUp | internal/diagnose/diagnose.go:304-307 | the counts per error code add up to the failures |
| Diagnosis.Diagnostician.AddEvent | internal/diagnose/diagnose.go:28-30 | an event is stored behind the others |
| Diagnosis.Diagnostician.FilterEvents | internal/diagnose/diagnose.go:202-210 | the events of one kind, in order |
| Diagnosis.Diagnostician.DetectIssues | internal/diagnose/diagnose.go:392-424 | the issues are the failure rate above 10 percent and the spike rate above 5 percent |
| Diagnosis.ConnectionIssueExactly | internal/diagnose/diagnose.go:395-407 | the connection issue is listed exactly when more than 10 percent of the events of kind 1 failed, with these two numbers |
| Diagnosis.SpikeIssueExactly | internal/diagnose/diagnose.go:409-421 | the spike issue is listed exactly when more than 5 percent of the events of kinds 2 and 3 took over 100 ms, with these two numbers |
| Diagnosis.IssuesInOrder | internal/diagnose/diagnose.go:392-424 | each issue is listed at most once, the connection issue first |
| Diagnosis.P95IsSpike | internal/diagnose/diagnose.go:257-287 | the P95 is a spike exactly when at least n - rank of the n transfers are |
| Diagnosis.P95ImpliesIssue | internal/diagnose/diagnose.go:409-421 | a report whose TCP P95 is above 100 ms lists the high spike rate |
| Diagnosis.IssueAgainstP95 | internal/diagnose/diagnose.go:409-421 | exactly when the spike rate is listed although the P95 is at most 100 ms |
| Diagnosis.IssueWithoutP95 | internal/diagnose/diagnose.go:409-421 | 2 spikes among 22 transfers are such a case |
| Tally.CountsAddUp | internal/diagnose/diagnose.go:536-541 | listing each counted key once, in any order, the counts add up to the number of events |
| Tally.SortByCount | internal/diagnose/diagnose.go:567-569 | the ranking is a descending rearrangement, with ties in any order |
| Windows.WindowsCountExactly | internal/diagnose/diagnose.go:705-724 | counts over consecutive open windows add up to exactly the events inside the span that lie on no window boundary |
| Windows.DetectBursts | internal/diagnose/diagnose.go:690-727 | the loops return exactly the windows above twice the average rate, each with its rate and its multiple of the average, and none for fewer than ten events or two windows |
| Windows.BurstExactly | internal/diagnose/diagnose.go:690-727 | a one-second window that ends within the period is listed exactly when there are ten events, two seconds, and more than twice the average in it |
| Windows.BurstIsWindow | internal/diagnose/diagnose.go:705-724 | and nothing else is listed |
| Windows.InfoExactly | internal/diagnose/diagnose.go:714-721 | a listed rate is the window's number of events, and the multiplier is that rate over the average rate |
| Windows.MultiplierAboveTwo | internal/diagnose/diagnose.go:714-716 | the comparison of integer products in the model is the comparison of rates in the code: a window bursts exactly when its multiplier exceeds 2 |
| Windows.BurstBound | internal/diagnose/diagnose.go:690-727 | at most half of the windows can burst |
| Windows.BurstsInOrder | internal/diagnose/diagnose.go:703-724 | bursts come out in time order, at least one second apart |
| Windows.AnalyzeConnectionPattern | internal/diagnose/diagnose.go:729-794 | the loops classify the counts of ceil(period / width) windows and return the average rate, the rate of the fullest window and the number of distinct targets |
| Windows.ClassifyExactly | internal/diagnose/diagnose.go:760-771 | with the mean and variance of the counts as exact reals: bursty above half the mean, steady below a tenth of it, otherwise sporadic |
| Windows.PatternFigures | internal/diagnose/diagnose.go:734-793 | the average rate times the period is the number of events, the peak rate times the width the largest count, and the named targets are counted once each |
| Windows.WindowExactly | internal/diagnose/diagnose.go:740-753 | the count of a window is the number of events strictly between its ends |
| Windows.WindowWidthExactly | internal/diagnose/diagnose.go:735-738 | a window is a tenth of the period, but at least 100 ms |
| Windows.CeilingExactly | internal/diagnose/diagnose.go:742-753 | the windows cover the period, and the last one is needed |
| Windows.AtMostElevenWindows | internal/diagnose/diagnose.go:735-753 | over the collection period there are at most eleven windows |
| Windows.VarianceZeroIffEqual | internal/diagnose/diagnose.go:755-762 | the variance computed from sums and squares is never negative, and zero exactly for equal counts |
| Windows.EqualCountsPattern | internal/diagnose/diagnose.go:764-771 | equal counts are steady exactly when positive; empty windows, or no window, give sporadic |
| Timeline.AnalyzeTimeline | internal/diagnose/diagnose.go:651-688 | the loop counts the events of each of five buckets and gives their percentages; a period under 5 ns divides by zero |
| Timeline.QuotientExactly | internal/diagnose/diagnose.go:657-663 | division truncates: the remainder has the sign of the dividend and is smaller than the divisor; only the least number over -1 stays as it is |
| Timeline.ElapsedExactly | internal/diagnose/diagnose.go:662 | the elapsed time is the difference, or the nearest one that fits 64 bits |
| Timeline.TimelineAddsUp | internal/diagnose/diagnose.go:660-671 | every event is in exactly one bucket |
| Timeline.PercentagesAddUp | internal/diagnose/diagnose.go:674-685 | the five percentages add up to 100 |
| Timeline.BucketIsInterval | internal/diagnose/diagnose.go:662-669 | bucket b is the half-open interval [b, b+1) widths after the start, and the end buckets take what lies outside |
| Timeline.BucketsMonotone | internal/diagnose/diagnose.go:662-669 | later events never fall into an earlier bucket |
| CpuShare.AnalyzeProcessActivity | internal/diagnose/diagnose.go:535-572 | each process once with its number of events, largest first in any order of ties, with its name and its percentage |
| CpuShare.PidsExactly | internal/diagnose/diagnose.go:536-541 | a process is counted once for each of its events |
| CpuShare.NameFromEvent | internal/diagnose/diagnose.go:546-552 | the name shown is that of the first event which names the process |
| CpuShare.NameFromProc | internal/diagnose/diagnose.go:553-558 | without such an event it is what /proc says, or "unknown" |
| CpuShare.KernelNames | internal/diagnose/cpu_profiling.go:103-134 | exactly the names in brackets and those with one of twelve beginnings in lower case are kernel threads; the other two beginnings of the list add nothing |
| CpuShare.LowerCharExactly | internal/diagnose/cpu_profiling.go:122 | capital letters are lowered and other characters stay |
| CpuShare.GenerateCPUUsageReport | internal/diagnose/cpu_profiling.go:10-101 | the first 10 and 5 processes of the two groups, the sum of their percentages, and 100 minus it; nothing exactly when there are no events |
| CpuShare.CpuShareConservation | internal/diagnose/cpu_profiling.go:32-98 | the groups cover all events, the total is between 0 and 100, and the idle figure is exactly the share of the processes cut off, zero exactly when none is |
| CpuShare.CutProcessesAreSmaller | internal/diagnose/cpu_profiling.go:32-74 | no process cut off has more events than one shown of its group |
| Cgroup.ExtractCgroupPathFromProc | internal/ebpf/tracer.go:144-161 | the loop finds the third field of the last line that has three, or the rest of a unified line |
| Cgroup.LastPathExactly | internal/ebpf/tracer.go:149-160 | whichever line it is: the third field of the last line with three, or nothing |
| Cgroup.TrimSpaceExactly | internal/ebpf/tracer.go:109 | what is trimmed is white space, and none is left at the ends |
| Cgroup.AsciiSpace | internal/ebpf/tracer.go:109 | of the ASCII characters six are white space |
| Cgroup.LastHierarchy | internal/ebpf/tracer.go:149-159 | with several hierarchies the path is the last line's, up to its first colon |
| Cgroup.PrefixIsByComponents | internal/ebpf/tracer.go:118-128 | equality or a prefix with a slash is the same as a prefix of the component lists |
| Cgroup.Containment | internal/ebpf/tracer.go:98-131 | a process is accepted exactly when one path's components begin the other's |
| Cgroup.AcceptedExactly | internal/ebpf/tracer.go:98-131 | without a pod path every process is accepted; with one, none whose cgroup file cannot be read or shows no path, and of the others exactly those whose components begin, or are begun by, the pod's |
| Cgroup.NormalizeIgnoresMount | internal/ebpf/tracer.go:134-141 | the mount point in front and one slash behind make no difference |
| Cgroup.NormalizeExactly | internal/ebpf/tracer.go:134-141 | what is compared is the path below the mount point, with a slash in front, and without one slash behind |
| Cgroup.OwnProcessAccepted | internal/ebpf/tracer.go:98-161 | on the unified hierarchy a process in or below the pod's cgroup is accepted |
| Channel.NothingLostOrDuplicated | cmd/podtrace/main.go:72-84 | in every reachable state the accepted events are an order-preserving interleaving of what the two consumers took, then a buffer of at most 100, then at most one held event; and what the metrics loop took is what it exported and passed over, each in order |
| Channel.BlockedExactly | cmd/podtrace/main.go:72-73 | in every reachable state a held event waits only while 100 are buffered, and the consumers only while none is |
| Channel.OnlyReadsPassedOver | internal/metricsexporter/promexporter.go:115-136 | of the kinds that probes produce, only reads have no case |
| Channel.FullyDrained | internal/metricsexporter/promexporter.go:110-138 | once nothing waits, each accepted event was exported, passed over or stored exactly once |
| Pipeline.AcceptedAreExpected | internal/ebpf/tracer.go:165-184 | what the reader sends is, in order, each reported call of a process that the filter accepts, with its kind, latency, error and target |
| Pipeline.SentExactly | internal/ebpf/tracer.go:165-184 | a sample is sent exactly when it has 156 bytes and its process belongs to the pod by the components of a readable cgroup file; each field is read at its offset |
| Pipeline.KindOfSample | bpf/podtrace.bpf.c:20-29 | the event that Go reads from a reported call is of the kind of the probed function, for each of the eight kinds |
| Pipeline.DeliveredBelongs | internal/ebpf/tracer.go:165-184 | every exported, passed over or stored event was read from one sample, when its process belonged to the pod |
| Pipeline.FromProbesToStore | cmd/podtrace/main.go:72-104 | for every interleaving of probes and every schedule of reader and consumers, the reported calls are an interleaving of what the two consumers took, then what waits; what the metrics pass over are reads |
| Pipeline.EachCallOnce | cmd/podtrace/main.go:72-104 | once nothing waits, each reported call of a process in the cgroup was exported, passed over or stored exactly once |

## Left out

- Attaching probes, loading the program, resource limits, signals, /proc reads and the process name caches: system calls and foreign libraries. Process names are an arbitrary function of the process.
- Register and user-memory reads in the probes: return codes, socket addresses and host names are inputs of a step. So are all clock readings.
- Ring-buffer overflow: an emitted event is appended to the output.
- Interleavings inside one handler: a handler is one atomic step. Handlers on different CPUs work on different keys, so only the moment at which a map is full could differ.
- ProbeRuns.CapacityMonotone: leaves the DNS target out of the comparison, because with it the statement is false: a return without a start time keeps its stored name, so a smaller map can hold names that a larger one has deleted (Nesting.CapacityCanChangeHost). With room in both maps the targets agree too (ProbeRuns.NeverFullIsUnbounded), and Nesting.DnsTarget gives the target of each lookup at any capacity.
- Diagnosis.AnalyzeTCP: the analyses of DNS, file-system and CPU events are not modelled beside it, because they run the same latency loop with other counters.
- Windows.AnalyzeConnectionPattern: analyzeIOPattern is not modelled beside it; it takes one more maximum over one-second windows.
- Timeline.AnalyzeTimeline: states counts and percentages, not the printed clock times of each period.
- CpuShare.GenerateCPUUsageReport: states the processes and the two figures, not the report text or the CPU seconds derived from the percentages.
- Report text, clock-time strings and event messages; floating-point rounding; the relation between the kernel clock and the wall clock (both are integers on one axis).
- The Kubernetes lookup, the HTTP server, the Prometheus metric objects and the terminal output of the consumer loops.
