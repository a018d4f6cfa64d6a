/** What a probed call puts on the ring buffer, read off the steps of a thread's entry and return. */
module LeafCalls {
  import opened Numbers
  import opened AddressText
  import opened Wire
  import opened ProbeMap
  import opened ProbeRuns
  import opened Clocks
  import opened Nesting
  import Events

  /** A call entered at step j that returns at step k, with no other probed call of its thread in between. */
  ghost predicate LeafCall(steps: seq<Step>, j: nat, k: nat) {
    && j < k < |steps| && steps[j].Enter? && steps[k].Return?
    && steps[j].fn == steps[k].fn && SameThread(steps[j], steps[k])
    && forall i :: j < i < k && !steps[i].Switch? ==> !SameThread(steps[i], steps[j])
  }

  predicate SameThread(st: Step, other: Step)
    requires !st.Switch? && !other.Switch?
  {
    st.pid == other.pid && st.tid == other.tid
  }

  lemma {:induction false} OtherActions(trace: seq<Action>, more: seq<Action>, key: u64)
    requires forall a :: a in more ==> a.key != key
    ensures LatestOn(trace + more, key) == LatestOn(trace, key)
    ensures NameOn(trace + more, key) == NameOn(trace, key)
  {
    if more == [] {
      assert trace + more == trace;
    } else {
      ConcatFront(trace, more);
      assert Last(more) in more && forall a :: a in Front(more) ==> a in more;
      OtherActions(trace, Front(more), key);
    }
  }

  lemma OtherStep(st: Step, pid: u32, tid: u32)
    requires TaskId(pid, tid) && ValidStep(st) && (st.Switch? || st.pid != pid || st.tid != tid)
    ensures forall a :: a in Actions(st) ==> a.key != GetKey(pid, tid)
  {
    if st.Switch? {
      GetKeyInjective(st.prev, 0, pid, tid);
      GetKeyInjective(st.next, 0, pid, tid);
    } else {
      GetKeyInjective(st.pid, st.tid, pid, tid);
    }
  }

  lemma EnterIsLatest(trace: seq<Action>, st: Step)
    requires st.Enter?
    ensures var key, name := GetKey(st.pid, st.tid), if st.fn == GetAddrInfo then st.name else None;
            && LatestOn(trace + Actions(st), key) == Some(Start(key, st.fn, st.at, name))
            && NameOn(trace + Actions(st), key) == if name.Some? then name else NameOn(trace, key)
  {
    assert Front(trace + Actions(st)) == trace;
  }

  /** After k steps the start of the call at step j is the last thing on the key of its thread. */
  ghost predicate StartLatest(steps: seq<Step>, j: nat, k: nat)
    requires j < k <= |steps| && steps[j].Enter?
  {
    var st, key := steps[j], GetKey(steps[j].pid, steps[j].tid);
    var name := if st.fn == GetAddrInfo then st.name else None;
    && LatestOn(Flatten(steps[..k]), key) == Some(Start(key, st.fn, st.at, name))
    && NameOn(Flatten(steps[..k]), key) == if name.Some? then name else NameOn(Flatten(steps[..j]), key)
  }

  lemma CallStarts(steps: seq<Step>, j: nat)
    requires j < |steps| && steps[j].Enter?
    ensures StartLatest(steps, j, j + 1)
  {
    FlattenNext(steps, j);
    EnterIsLatest(Flatten(steps[..j]), steps[j]);
  }

  lemma StaysLatest(steps: seq<Step>, j: nat, k: nat)
    requires j < k < |steps| && steps[j].Enter? && ValidStep(steps[j]) && ValidStep(steps[k])
    requires !steps[k].Switch? ==> !SameThread(steps[k], steps[j])
    requires StartLatest(steps, j, k)
    ensures StartLatest(steps, j, k + 1)
  {
    FlattenNext(steps, k);
    OtherStep(steps[k], steps[j].pid, steps[j].tid);
    OtherActions(Flatten(steps[..k]), Actions(steps[k]), GetKey(steps[j].pid, steps[j].tid));
  }

  /** So it is until the call returns. */
  lemma {:induction false} CallIsLatest(steps: seq<Step>, j: nat, k: nat)
    requires j < k <= |steps| && steps[j].Enter?
    requires forall i :: j <= i < k ==> ValidStep(steps[i])
    requires forall i :: j < i < k && !steps[i].Switch? ==> !SameThread(steps[i], steps[j])
    ensures StartLatest(steps, j, k)
    decreases k - j
  {
    if k == j + 1 {
      CallStarts(steps, j);
    } else {
      CallIsLatest(steps, j, k - 1);
      StaysLatest(steps, j, k - 1);
    }
  }

  /** The latency above which a call is reported at all. */
  predicate LongEnough(fn: Probe, start: u64, now: u64) {
    fn == VfsRead || fn == VfsWrite || fn == VfsFsync ==> now - start >= 1_000_000
  }

  predicate KindOfCall(fn: Probe, kind: u32) {
    && (fn == GetAddrInfo ==> kind == Events.DNS)
    && (fn == TcpV4Connect || fn == TcpV6Connect ==> kind == Events.CONNECT)
    && (fn == TcpSendmsg ==> kind == Events.TCP_SEND)
    && (fn == TcpRecvmsg ==> kind == Events.TCP_RECV)
    && (fn == VfsWrite ==> kind == Events.WRITE)
    && (fn == VfsRead ==> kind == Events.READ)
    && (fn == VfsFsync ==> kind == Events.FSYNC)
    && (fn == SchedSwitch ==> kind == Events.SCHED_SWITCH)
  }

  /** The target of a call: the peer of a connect of its own family, the host of a lookup or else the one
      left on the thread, and nothing otherwise. */
  ghost predicate TargetOfCall(target: Text64, enter: Step, ret: Step, left: Option<HostName>)
    requires enter.Enter? && ret.Return?
  {
    if ret.fn == GetAddrInfo then
      target == Pad(if enter.name.Some? then enter.name.value else if left.Some? then left.value else [])
    else if ret.fn == TcpV4Connect && ret.addr.Inet? then
      DecodeIpv4(TrimNuls(target)) == Some((ret.addr.ip, ret.addr.port))
    else if ret.fn == TcpV6Connect && ret.addr.Inet6? then
      DecodeIpv6(TrimNuls(target)) == Some((ret.addr.address, ret.addr.port))
    else IsBlank(target)
  }

  /** The record of a call. */
  ghost predicate RecordOfCall(r: Record, enter: Step, ret: Step, left: Option<HostName>)
    requires enter.Enter? && ret.Return?
  {
    && Reports(r, ret.stamp, ret.pid, r.kind, enter.at, ret.now, ret.rc)
    && KindOfCall(ret.fn, r.kind)
    && TargetOfCall(r.target, enter, ret, left)
  }

  lemma ConnectTarget(enter: Step, ret: Step, left: Option<HostName>)
    requires enter.Enter? && ret.Return? && ret.fn != GetAddrInfo
    ensures TargetOfCall(Pad(ConnectText(ret.fn, ret.addr)), enter, ret, left)
  {
    if ret.fn == TcpV4Connect && ret.addr.Inet? {
      Ipv4RoundTrip(ret.addr.ip, ret.addr.port);
      TextTrims(Ipv4Text(ret.addr.ip, ret.addr.port));
    } else if ret.fn == TcpV6Connect && ret.addr.Inet6? {
      Ipv6RoundTrip(ret.addr.address, ret.addr.port);
      TextTrims(Ipv6Text(ret.addr.address, ret.addr.port));
    } else {
      assert ConnectText(ret.fn, ret.addr) == [];
    }
  }

  lemma TextTrims(t: seq<u8>)
    requires 0 !in t && |t| <= 64
    ensures TrimNuls(Pad(t)) == t
  {
    assert t != [] ==> t[|t| - 1] in t;
    TrimInvertsPad(t);
  }

  /** A return whose call is still on record. */
  lemma ReturnRecords(s: State, enter: Step, ret: Step, left: Option<HostName>, cap: Capacity)
    requires enter.Enter? && ret.Return? && enter.fn == ret.fn != SchedSwitch
    requires var key := GetKey(ret.pid, ret.tid);
             && key in s.startTimes && s.startTimes[key] == enter.at
             && (ret.fn == GetAddrInfo ==>
                   var name := if enter.name.Some? then enter.name else left;
                   if name.Some? then key in s.dnsTargets && s.dnsTargets[key] == name.value else key !in s.dnsTargets)
    ensures var after := Apply(s, Actions(ret)[0], cap).output;
            if LongEnough(ret.fn, enter.at, ret.now) then
              |after| == |s.output| + 1 && Front(after) == s.output && RecordOfCall(Last(after), enter, ret, left)
            else after == s.output
  {
    var a := Actions(ret)[0];
    Finishes(s, ret, cap);
    if LongEnough(ret.fn, enter.at, ret.now) {
      ReportOfCall(enter, ret, Target(s, a));
      if ret.fn != GetAddrInfo {
        ConnectTarget(enter, ret, left);
      }
    }
  }

  /** What a return emits when it finds a start time. */
  lemma Finishes(s: State, ret: Step, cap: Capacity)
    requires ret.Return? && ret.fn != SchedSwitch && GetKey(ret.pid, ret.tid) in s.startTimes
    ensures var a, start := Actions(ret)[0], s.startTimes[GetKey(ret.pid, ret.tid)];
            && a.Finish? && a.key == GetKey(ret.pid, ret.tid)
            && Target(s, a) == (if ret.fn != GetAddrInfo then ConnectText(ret.fn, ret.addr)
                                else if a.key in s.dnsTargets then s.dnsTargets[a.key] else [])
            && Apply(s, a, cap).output == s.output +
               if LongEnough(ret.fn, start, ret.now) then [ReportFor(ret, start, Target(s, a))] else []
  {
  }

  function ReportFor(ret: Step, start: u64, target: seq<u8>): Record
    requires ret.Return? && |target| <= 63
  {
    var draft := Draft(ret.stamp, ret.pid, TruncateToI32(ret.rc), ConnectText(ret.fn, ret.addr));
    Report(ret.fn, start, ret.now, draft, target)
  }

  lemma ReportOfCall(enter: Step, ret: Step, target: seq<u8>)
    requires enter.Enter? && ret.Return? && |target| <= 63
    ensures var r := ReportFor(ret, enter.at, target);
            && Reports(r, ret.stamp, ret.pid, r.kind, enter.at, ret.now, ret.rc)
            && KindOfCall(ret.fn, r.kind)
            && r.target == Pad(target)
  {
  }

  /** With room in the maps, in every interleaving: a call of a thread that contains no other probed call of
      it puts one record on the ring buffer when it returns, unless it is a file call under 1 ms. The
      record has the kind of its function, the time between its two clock readings, its result, and its
      peer or host. */
  lemma LeafCallRecorded(steps: seq<Step>, j: nat, k: nat, cap: Capacity)
    requires LeafCall(steps, j, k) && TaskId(steps[k].pid, steps[k].tid)
    requires forall i :: j <= i <= k ==> ValidStep(steps[i])
    requires NeverFull(Flatten(steps[..k]), cap) && NamesNeverFull(Flatten(steps[..k]), cap)
    ensures var before, after := Run(Flatten(steps[..k]), cap).output, Run(Flatten(steps[..k + 1]), cap).output;
            var left := NameOn(Flatten(steps[..j]), GetKey(steps[k].pid, steps[k].tid));
            if LongEnough(steps[k].fn, steps[j].at, steps[k].now) then
              |after| == |before| + 1 && Front(after) == before && RecordOfCall(Last(after), steps[j], steps[k], left)
            else after == before
  {
    var trace, key := Flatten(steps[..k]), GetKey(steps[k].pid, steps[k].tid);
    CallIsLatest(steps, j, k);
    LatestStart(trace, key, cap);
    NameIsLatest(trace, key, cap);
    FlattenNext(steps, k);
    PerformSnoc(EMPTY, trace, Actions(steps[k])[0], cap);
    assert Actions(steps[k]) == [Actions(steps[k])[0]];
    ReturnRecords(Run(trace, cap), steps[j], steps[k], NameOn(Flatten(steps[..j]), key), cap);
  }
}
