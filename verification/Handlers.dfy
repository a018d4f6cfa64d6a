/** The probe handlers, updating the two BPF maps and the output in place. */
module Handlers {
  import opened Numbers
  import opened AddressText
  import opened Formatters
  import opened Wire
  import opened ProbeMap
  import opened ProbeRuns
  import opened Clocks

  /** The error of a lookup, whose zero results are stored as they are. */
  function ErrorOf(ret: int): (error: i32)
    ensures error == TruncateToI32(ret)
  {
    if ret == 0 then
      TruncateKeeps(ret);
      0
    else TruncateToI32(ret)
  }

  /** A map of 1024 entries after storing a value for a task: unchanged if it is full and the task is new. */
  ghost predicate Stored<V>(before: map<u64, V>, after: map<u64, V>, pid: u32, tid: u32, value: V) {
    var key := pid * 0x1_0000_0000 + tid;
    after == if key in before || |before| < 1024 then before[key := value] else before
  }

  /** A return without a start time changes nothing. */
  ghost predicate NotStarted(before: State, pid: u32, tid: u32) {
    pid * 0x1_0000_0000 + tid !in before.startTimes
  }

  /** A return with a start time deletes it. */
  ghost predicate Ended(before: State, after: State, pid: u32, tid: u32) {
    after.startTimes == before.startTimes - {pid * 0x1_0000_0000 + tid}
  }

  /** It reports one record of a kind, and with a target. */
  ghost predicate Reported(before: State, after: State, pid: u32, tid: u32, kind: u32, stamp: u64, now: u64, rc: int,
      target: seq<u8>)
    requires !NotStarted(before, pid, tid) && |target| <= 63
  {
    && |after.output| == |before.output| + 1 && Front(after.output) == before.output
    && Reports(Last(after.output), stamp, pid, kind, before.startTimes[pid * 0x1_0000_0000 + tid], now, rc)
    && Last(after.output).target == Pad(target)
  }

  /** The end of a task's slice: it is reported above 1 ms, and its start is deleted. */
  ghost predicate SliceEnded(before: State, after: State, pid: u32, timestamp: u64, measured: u64) {
    if NotStarted(before, pid, 0) then after == before
    else
      && Ended(before, after, pid, 0) && after.dnsTargets == before.dnsTargets
      && if measured - before.startTimes[pid * 0x1_0000_0000] > 1_000_000 then
           Reported(before, after, pid, 0, 7, timestamp, measured, 0, [])
         else after.output == before.output
  }

  /** A switch ends the slice of a task other than the idle task, and then starts one for such a task. */
  ghost predicate Switched(before: State, after: State, prevPid: u32, nextPid: u32, timestamp: u64, measured: u64,
      now: u64)
  {
    exists between: State ::
      && (if prevPid > 0 then SliceEnded(before, between, prevPid, timestamp, measured) else between == before)
      && after.output == between.output && after.dnsTargets == between.dnsTargets
      && if nextPid > 0 then Stored(between.startTimes, after.startTimes, nextPid, 0, now)
         else after.startTimes == between.startTimes
  }

  /** The text of an address of one family, and none for anything else. */
  function TextV4(addr: SockAddr): (t: seq<u8>)
    ensures |t| <= 63
  {
    if addr.Inet? then Ipv4Text(addr.ip, addr.port) else []
  }

  function TextV6(addr: SockAddr): (t: seq<u8>)
    ensures |t| <= 63
  {
    if addr.Inet6? then Ipv6Text(addr.address, addr.port) else []
  }

  class KernelProbes {
    var startTimes: map<u64, u64>
    var dnsTargets: map<u64, HostName>
    var output: seq<Record>

    function Contents(): State
      reads this
    {
      State(startTimes, dnsTargets, output)
    }

    constructor ()
      ensures Contents() == EMPTY
    {
      startTimes, dnsTargets, output := map[], map[], [];
    }

    /** The seven entry kprobes, whose bodies are the same. */
    method Kprobe(pid: u32, tid: u32, fn: Probe, ts: u64)
      requires fn != GetAddrInfo && fn != SchedSwitch
      modifies this
      ensures Contents() == Apply(old(Contents()), EnterAction(pid, tid, fn, ts, None), MAX_ENTRIES)
      ensures Stored(old(startTimes), startTimes, pid, tid, ts)
      ensures dnsTargets == old(dnsTargets) && output == old(output)
    {
      var key := GetKey(pid, tid);
      startTimes := Update(startTimes, key, ts, MAX_ENTRIES);
    }

    method UprobeGetaddrinfo(pid: u32, tid: u32, ts: u64, node: Option<HostName>)
      modifies this
      ensures Contents() == Apply(old(Contents()), EnterAction(pid, tid, GetAddrInfo, ts, node), MAX_ENTRIES)
      ensures Stored(old(startTimes), startTimes, pid, tid, ts)
      ensures node.Some? ==> Stored(old(dnsTargets), dnsTargets, pid, tid, node.value)
      ensures node.None? ==> dnsTargets == old(dnsTargets)
      ensures output == old(output)
    {
      var key := GetKey(pid, tid);
      startTimes := Update(startTimes, key, ts, MAX_ENTRIES);
      if node.Some? {
        dnsTargets := Update(dnsTargets, key, node.value, MAX_ENTRIES);
      }
    }

    method KretprobeTcpV4Connect(pid: u32, tid: u32, stamp: u64, now: u64, rc: int, uaddr: SockAddr)
      modifies this
      ensures Contents() ==
              Apply(old(Contents()), ReturnAction(pid, tid, TcpV4Connect, now, stamp, rc, uaddr), MAX_ENTRIES)
      ensures var before := old(Contents());
              if NotStarted(before, pid, tid) then Contents() == before
              else
                && Ended(before, Contents(), pid, tid) && dnsTargets == before.dnsTargets
                && Reported(before, Contents(), pid, tid, 1, stamp, now, rc, TextV4(uaddr))
    {
      var key := GetKey(pid, tid);
      if key !in startTimes {
        return;
      }
      ApplyReturn(Contents(), pid, tid, TcpV4Connect, now, stamp, rc, uaddr);
      var target := TargetV4(uaddr);
      var latency := CalcLatency(startTimes[key], now);
      output := output + [Record(stamp, pid, 1, latency, TruncateToI32(rc), target, Pad([]))];
      startTimes := startTimes - {key};
    }

    method KretprobeTcpV6Connect(pid: u32, tid: u32, stamp: u64, now: u64, rc: int, uaddr: SockAddr)
      modifies this
      ensures Contents() ==
              Apply(old(Contents()), ReturnAction(pid, tid, TcpV6Connect, now, stamp, rc, uaddr), MAX_ENTRIES)
      ensures var before := old(Contents());
              if NotStarted(before, pid, tid) then Contents() == before
              else
                && Ended(before, Contents(), pid, tid) && dnsTargets == before.dnsTargets
                && Reported(before, Contents(), pid, tid, 1, stamp, now, rc, TextV6(uaddr))
    {
      var key := GetKey(pid, tid);
      if key !in startTimes {
        return;
      }
      ApplyReturn(Contents(), pid, tid, TcpV6Connect, now, stamp, rc, uaddr);
      var target := TargetV6(uaddr);
      var latency := CalcLatency(startTimes[key], now);
      output := output + [Record(stamp, pid, 1, latency, TruncateToI32(rc), target, Pad([]))];
      startTimes := startTimes - {key};
    }

    /** kretprobe/tcp_sendmsg and kretprobe/tcp_recvmsg, which differ in the event type. */
    method KretprobeTcpTransfer(pid: u32, tid: u32, fn: Probe, stamp: u64, now: u64, rc: int)
      requires fn == TcpSendmsg || fn == TcpRecvmsg
      modifies this
      ensures Contents() == Apply(old(Contents()), ReturnAction(pid, tid, fn, now, stamp, rc, NullPointer), MAX_ENTRIES)
      ensures var before := old(Contents());
              if NotStarted(before, pid, tid) then Contents() == before
              else
                var kind := if fn == TcpSendmsg then 2 else 3;
                && Ended(before, Contents(), pid, tid) && dnsTargets == before.dnsTargets
                && Reported(before, Contents(), pid, tid, kind, stamp, now, rc, [])
    {
      var key := GetKey(pid, tid);
      if key !in startTimes {
        return;
      }
      var latency := CalcLatency(startTimes[key], now);
      output := output + [Record(stamp, pid, Kind(fn), latency, TruncateToI32(rc), Pad([]), Pad([]))];
      startTimes := startTimes - {key};
    }

    /** kretprobe/vfs_read, vfs_write and vfs_fsync, which differ in the event type. */
    method KretprobeVfs(pid: u32, tid: u32, fn: Probe, now: u64, stamp: u64, rc: int)
      requires fn == VfsRead || fn == VfsWrite || fn == VfsFsync
      modifies this
      ensures Contents() == Apply(old(Contents()), ReturnAction(pid, tid, fn, now, stamp, rc, NullPointer), MAX_ENTRIES)
      ensures var before := old(Contents());
              if NotStarted(before, pid, tid) then Contents() == before
              else
                var kind := if fn == VfsWrite then 4 else if fn == VfsRead then 5 else 6;
                && Ended(before, Contents(), pid, tid) && dnsTargets == before.dnsTargets
                && if now - before.startTimes[pid * 0x1_0000_0000 + tid] < 1_000_000 then output == before.output
                   else Reported(before, Contents(), pid, tid, kind, stamp, now, rc, [])
    {
      var key := GetKey(pid, tid);
      if key !in startTimes {
        return;
      }
      ApplyReturn(Contents(), pid, tid, fn, now, stamp, rc, NullPointer);
      var latency := CalcLatency(startTimes[key], now);
      if latency < 1_000_000 {
        startTimes := startTimes - {key};
        return;
      }
      output := output + [Record(stamp, pid, Kind(fn), latency, TruncateToI32(rc), Pad([]), Pad([]))];
      startTimes := startTimes - {key};
    }

    method UretprobeGetaddrinfo(pid: u32, tid: u32, now: u64, stamp: u64, ret: int)
      modifies this
      ensures Contents() ==
              Apply(old(Contents()), ReturnAction(pid, tid, GetAddrInfo, now, stamp, ret, NullPointer), MAX_ENTRIES)
      ensures var before := old(Contents());
              if NotStarted(before, pid, tid) then Contents() == before
              else
                var key := pid * 0x1_0000_0000 + tid;
                var target := if key in before.dnsTargets then before.dnsTargets[key] else [];
                && Ended(before, Contents(), pid, tid) && dnsTargets == before.dnsTargets - {key}
                && Reported(before, Contents(), pid, tid, 0, stamp, now, ret, target)
    {
      var key := GetKey(pid, tid);
      if key !in startTimes {
        return;
      }
      var latency := CalcLatency(startTimes[key], now);
      var error := ErrorOf(ret);
      var target: seq<u8> := [];
      ghost var before := Contents();
      if key in dnsTargets {
        target := dnsTargets[key];
        dnsTargets := dnsTargets - {key};
      }
      output := output + [Record(stamp, pid, 0, latency, error, Pad(target), Pad([]))];
      startTimes := startTimes - {key};
      assert dnsTargets == before.dnsTargets - {key};
    }

    method TracepointSchedSwitch(prevPid: u32, nextPid: u32, timestamp: u64, measured: u64, now: u64)
      modifies this
      ensures Contents() ==
              Perform(old(Contents()), SwitchOut(prevPid, timestamp, measured) + SwitchIn(nextPid, now), MAX_ENTRIES)
      ensures Switched(old(Contents()), Contents(), prevPid, nextPid, timestamp, measured, now)
    {
      ghost var before := Contents();
      if prevPid > 0 {
        EndSlice(prevPid, timestamp, measured);
      }
      ghost var between := Contents();
      if nextPid > 0 {
        var newKey := GetKey(nextPid, 0);
        startTimes := Update(startTimes, newKey, now, MAX_ENTRIES);
      }
      ghost var out, inn := SwitchOut(prevPid, timestamp, measured), SwitchIn(nextPid, now);
      PerformTwo(before, between, Contents(), out, inn, MAX_ENTRIES);
    }

    /** The part of the tracepoint for the task that leaves. */
    method EndSlice(prevPid: u32, timestamp: u64, measured: u64)
      requires prevPid > 0
      modifies this
      ensures Contents() == Apply(old(Contents()), SwitchOut(prevPid, timestamp, measured)[0], MAX_ENTRIES)
      ensures SliceEnded(old(Contents()), Contents(), prevPid, timestamp, measured)
    {
      var key := GetKey(prevPid, 0);
      if key in startTimes {
        var ranFor := CalcLatency(startTimes[key], measured);
        if ranFor > 1_000_000 {
          output := output + [Record(timestamp, prevPid, 7, ranFor, 0, Pad([]), Pad([]))];
        }
        startTimes := startTimes - {key};
      }
    }
  }

  /** What a return with a start time does to the state, a lookup aside. */
  lemma ApplyReturn(s: State, pid: u32, tid: u32, fn: Probe, now: u64, stamp: u64, rc: int, addr: SockAddr)
    requires GetKey(pid, tid) in s.startTimes && fn != GetAddrInfo
    ensures var key := GetKey(pid, tid);
            var latency := CalcLatency(s.startTimes[key], now);
            var text := Pad(ConnectText(fn, addr));
            var reported := s.output + [Record(stamp, pid, Kind(fn), latency, TruncateToI32(rc), text, Pad([]))];
            Apply(s, ReturnAction(pid, tid, fn, now, stamp, rc, addr), MAX_ENTRIES) ==
            State(s.startTimes - {key}, s.dnsTargets, if Passes(fn, latency) then reported else s.output)
  {
  }

  /** The address written into the zeroed target of an event. */
  method TargetV4(uaddr: SockAddr) returns (target: Text64)
    ensures target == Pad(TextV4(uaddr)) && TextV4(uaddr) == ConnectText(TcpV4Connect, uaddr)
  {
    var buf := new u8[64](_ => 0);
    if uaddr.Inet? {
      FormatIpPort(uaddr.ip, uaddr.port, buf);
      PaddedText(buf[..], Ipv4Text(uaddr.ip, uaddr.port));
    }
    target := buf[..];
  }

  method TargetV6(uaddr: SockAddr) returns (target: Text64)
    ensures target == Pad(TextV6(uaddr)) && TextV6(uaddr) == ConnectText(TcpV6Connect, uaddr)
  {
    var buf := new u8[64](_ => 0);
    if uaddr.Inet6? {
      FormatIpv6Port(uaddr.address, uaddr.port, buf);
      PaddedText(buf[..], Ipv6Text(uaddr.address, uaddr.port));
    }
    target := buf[..];
  }

  /** Runs the handler of one step. */
  method Dispatch(probes: KernelProbes, st: Step)
    requires ValidStep(st)
    modifies probes
    ensures probes.Contents() == Perform(old(probes.Contents()), Actions(st), MAX_ENTRIES)
  {
    if !st.Switch? {
      PerformSingle(probes.Contents(), Actions(st)[0], MAX_ENTRIES);
    }
    match st {
      case Enter(pid, tid, fn, at, name) =>
        if fn == GetAddrInfo {
          probes.UprobeGetaddrinfo(pid, tid, at, name);
        } else {
          probes.Kprobe(pid, tid, fn, at);
        }
      case Return(pid, tid, fn, now, stamp, rc, addr) => DispatchReturn(probes, pid, tid, fn, now, stamp, rc, addr);
      case Switch(_, prev, next, stamp, now, at) => probes.TracepointSchedSwitch(prev, next, stamp, now, at);
    }
  }

  method DispatchReturn(probes: KernelProbes, pid: u32, tid: u32, fn: Probe, now: u64, stamp: u64, rc: int,
      addr: SockAddr)
    requires fn != SchedSwitch
    modifies probes
    ensures probes.Contents() ==
            Apply(old(probes.Contents()), ReturnAction(pid, tid, fn, now, stamp, rc, addr), MAX_ENTRIES)
  {
    match fn {
      case TcpV4Connect => probes.KretprobeTcpV4Connect(pid, tid, stamp, now, rc, addr);
      case TcpV6Connect => probes.KretprobeTcpV6Connect(pid, tid, stamp, now, rc, addr);
      case TcpSendmsg => probes.KretprobeTcpTransfer(pid, tid, fn, stamp, now, rc);
      case TcpRecvmsg => probes.KretprobeTcpTransfer(pid, tid, fn, stamp, now, rc);
      case VfsWrite => probes.KretprobeVfs(pid, tid, fn, now, stamp, rc);
      case VfsRead => probes.KretprobeVfs(pid, tid, fn, now, stamp, rc);
      case VfsFsync => probes.KretprobeVfs(pid, tid, fn, now, stamp, rc);
      case GetAddrInfo => probes.UretprobeGetaddrinfo(pid, tid, now, stamp, rc);
      case SchedSwitch => assert false;
    }
  }

  /** Handlers called one after the other leave behind the state and the output of the run of their steps. */
  method Replay(steps: seq<Step>) returns (probes: KernelProbes)
    requires forall st :: st in steps ==> ValidStep(st)
    ensures fresh(probes)
    ensures probes.Contents() == Run(Flatten(steps), MAX_ENTRIES)
    ensures probes.output == Records(Emissions(Flatten(steps), MAX_ENTRIES))
  {
    probes := new KernelProbes();
    for i := 0 to |steps|
      invariant probes.Contents() == Run(Flatten(steps[..i]), MAX_ENTRIES)
    {
      Dispatch(probes, steps[i]);
      FlattenNext(steps, i);
      PerformConcat(EMPTY, Flatten(steps[..i]), Actions(steps[i]), MAX_ENTRIES);
    }
    assert steps[..|steps|] == steps;
    OutputIsEmissions(Flatten(steps), MAX_ENTRIES);
  }

  lemma PaddedText(target: seq<u8>, text: seq<u8>)
    requires |text| < 64 && target == text + [0] + seq(63 - |text|, _ => 0)
    ensures target == Pad(text)
  {
  }

  ghost predicate Performs(s: State, actions: seq<Action>, t: State, cap: Capacity)
    requires |actions| <= 1
  {
    t == if actions == [] then s else Apply(s, actions[0], cap)
  }

  lemma PerformTwo(s: State, t: State, u: State, first: seq<Action>, second: seq<Action>, cap: Capacity)
    requires |first| <= 1 && |second| <= 1
    requires Performs(s, first, t, cap) && Performs(t, second, u, cap)
    ensures Perform(s, first + second, cap) == u
  {
    PerformAtMostOne(s, first, t, cap);
    PerformAtMostOne(t, second, u, cap);
    PerformConcat(s, first, second, cap);
  }

  lemma PerformAtMostOne(s: State, actions: seq<Action>, t: State, cap: Capacity)
    requires |actions| <= 1 && Performs(s, actions, t, cap)
    ensures Perform(s, actions, cap) == t
  {
    if actions != [] {
      PerformSingle(s, actions[0], cap);
      assert actions == [actions[0]];
    }
  }
}
