/** From a probe through the ring buffer to the event that Go sees. */
module EndToEnd {
  import opened Numbers
  import opened AddressText
  import opened Wire
  import opened ProbeMap

  lemma NulFree(t: seq<u8>)
    requires 0 !in t
    ensures NoTrailingNul(t)
  {
    if t != [] {
      assert t[|t| - 1] in t;
    }
  }

  /** A reported event arrives with the kernel's numbers and its text without padding. */
  lemma ReportArrives(s: State, a: Action, rest: seq<u8>)
    requires Fire(s, a) != [] && 0 !in Target(s, a)
    ensures var d, latency := a.draft, CalcLatency(s.startTimes[a.key], a.now);
            ParseEvent(Encode(Fire(s, a)[0].record) + rest) ==
            Some(Parsed(d.stamp, d.pid, Kind(a.fn), latency, d.error, Target(s, a), []))
  {
    ParseInvertsEncode(Fire(s, a)[0].record, rest);
    NulFree(Target(s, a));
    TrimInvertsPad(Target(s, a));
    TrimInvertsPad([]);
  }

  /** A parsed event with these numbers, and the low 32 bits of a result as its error. */
  ghost predicate Arrived(e: Option<Parsed>, pid: u32, kind: u32, stamp: u64, latency: u64, rc: int) {
    && e.Some?
    && e.value.pid == pid && e.value.kind == kind && e.value.timestamp == stamp && e.value.latency == latency
    && SameLowWord(rc, e.value.error)
  }

  /** Any return that finds a start time and passes its filter is reported, and arrives. */
  lemma ReturnArrives(s: State, st: Step, rest: seq<u8>)
    requires st.Return? && GetKey(st.pid, st.tid) in s.startTimes
    requires Passes(st.fn, CalcLatency(s.startTimes[GetKey(st.pid, st.tid)], st.now))
    requires 0 !in Target(s, Actions(st)[0])
    ensures var a := Actions(st)[0];
            && Fire(s, a) != []
            && var e := ParseEvent(Encode(Fire(s, a)[0].record) + rest);
            && Arrived(e, st.pid, Kind(st.fn), st.stamp, CalcLatency(s.startTimes[a.key], st.now), st.rc)
            && e.value.target == Target(s, a) && e.value.details == []
  {
    ReturnFires(s, st);
    ActionArrives(s, Actions(st)[0], st.rc, rest);
  }

  lemma ActionArrives(s: State, a: Action, rc: int, rest: seq<u8>)
    requires Fire(s, a) != [] && 0 !in Target(s, a) && SameLowWord(rc, a.draft.error)
    ensures var e := ParseEvent(Encode(Fire(s, a)[0].record) + rest);
            && Arrived(e, a.draft.pid, Kind(a.fn), a.draft.stamp, CalcLatency(s.startTimes[a.key], a.now), rc)
            && e.value.target == Target(s, a) && e.value.details == []
  {
    ReportArrives(s, a, rest);
  }

  lemma ReturnFires(s: State, st: Step)
    requires st.Return? && GetKey(st.pid, st.tid) in s.startTimes
    requires Passes(st.fn, CalcLatency(s.startTimes[GetKey(st.pid, st.tid)], st.now))
    ensures var a := Actions(st)[0];
            && a.Finish? && a.fn == st.fn && a.now == st.now && a.key == GetKey(st.pid, st.tid)
            && a.draft.stamp == st.stamp && a.draft.pid == st.pid
            && SameLowWord(st.rc, a.draft.error)
            && Fire(s, a) != []
  {
  }

  /** Every IPv6 connect that is reported arrives with the address and port that its return probe read. */
  lemma Ipv6ConnectArrives(s: State, pid: u32, tid: u32, now: u64, stamp: u64, rc: int,
      address: Ipv6, port: u16, rest: seq<u8>)
    requires GetKey(pid, tid) in s.startTimes
    ensures var a := ReturnAction(pid, tid, TcpV6Connect, now, stamp, rc, Inet6(address, port));
            && Fire(s, a) != []
            && var e := ParseEvent(Encode(Fire(s, a)[0].record) + rest);
            && Arrived(e, pid, 1, stamp, CalcLatency(s.startTimes[GetKey(pid, tid)], now), rc)
            && DecodeIpv6(e.value.target) == Some((address, port))
  {
    Ipv6RoundTrip(address, port);
    ReturnArrives(s, Return(pid, tid, TcpV6Connect, now, stamp, rc, Inet6(address, port)), rest);
  }

  /** Every IPv4 connect that is reported arrives with the address and port that its return probe read. */
  lemma Ipv4ConnectArrives(s: State, pid: u32, tid: u32, now: u64, stamp: u64, rc: int,
      ip: u32, port: u16, rest: seq<u8>)
    requires GetKey(pid, tid) in s.startTimes
    ensures var a := ReturnAction(pid, tid, TcpV4Connect, now, stamp, rc, Inet(ip, port));
            && Fire(s, a) != []
            && var e := ParseEvent(Encode(Fire(s, a)[0].record) + rest);
            && Arrived(e, pid, 1, stamp, CalcLatency(s.startTimes[GetKey(pid, tid)], now), rc)
            && DecodeIpv4(e.value.target) == Some((ip, port))
  {
    Ipv4RoundTrip(ip, port);
    ReturnArrives(s, Return(pid, tid, TcpV4Connect, now, stamp, rc, Inet(ip, port)), rest);
  }

  /** Every lookup that is reported arrives with the host name remembered for its key, and with none if
      there is none. */
  lemma LookupArrives(s: State, pid: u32, tid: u32, now: u64, stamp: u64, ret: int, rest: seq<u8>)
    requires GetKey(pid, tid) in s.startTimes
    ensures var a := ReturnAction(pid, tid, GetAddrInfo, now, stamp, ret, NullPointer);
            && Fire(s, a) != []
            && var e := ParseEvent(Encode(Fire(s, a)[0].record) + rest);
            && Arrived(e, pid, 0, stamp, CalcLatency(s.startTimes[GetKey(pid, tid)], now), ret)
            && e.value.target == if a.key in s.dnsTargets then s.dnsTargets[a.key] else []
  {
    ReturnArrives(s, Return(pid, tid, GetAddrInfo, now, stamp, ret, NullPointer), rest);
  }
}
