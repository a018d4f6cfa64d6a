/** The state behind the kernel probes and what one probe firing does to it.
    A handler is one or two actions on the shared maps: recording a start, or finishing on a key. */
module ProbeMap {
  import opened Numbers
  import opened AddressText
  import opened Wire

  /** A NUL-free text that fits a 64-byte buffer with its terminator. */
  type HostName = s: seq<u8> | |s| <= 63 && 0 !in s

  /** The attached functions; SchedSwitch stands for the scheduler tracepoint. */
  datatype Probe =
    | TcpV4Connect
    | TcpV6Connect
    | TcpSendmsg
    | TcpRecvmsg
    | VfsWrite
    | VfsRead
    | VfsFsync
    | GetAddrInfo
    | SchedSwitch

  /** enum event_type */
  function Kind(p: Probe): u32 {
    match p
    case GetAddrInfo => 0
    case TcpV4Connect => 1
    case TcpV6Connect => 1
    case TcpSendmsg => 2
    case TcpRecvmsg => 3
    case VfsWrite => 4
    case VfsRead => 5
    case VfsFsync => 6
    case SchedSwitch => 7
  }

  /** Which measured latencies a return probe reports. */
  predicate Passes(p: Probe, latency: nat) {
    match p
    case VfsWrite => latency >= 1_000_000
    case VfsRead => latency >= 1_000_000
    case VfsFsync => latency >= 1_000_000
    case SchedSwitch => latency > 1_000_000
    case _ => true
  }

  /** The process half in the high word, the thread half in the low one. */
  function GetKey(pid: u32, tid: u32): (key: u64) {
    pid * 0x1_0000_0000 + tid
  }

  lemma GetKeyInjective(pid: u32, tid: u32, pid': u32, tid': u32)
    ensures GetKey(pid, tid) == GetKey(pid', tid') <==> pid == pid' && tid == tid'
  {
  }

  /** The shift-and-or of get_key is the scaled sum above. */
  lemma ShiftOrIsScaledSum(pid: bv64, tid: bv64)
    requires pid < 0x1_0000_0000 && tid < 0x1_0000_0000
    ensures (pid << 32) | tid == pid * 0x1_0000_0000 + tid
  {
  }

  /** The time from start to now, and never a wrapped difference when the second reading is earlier. */
  function CalcLatency(start: u64, now: u64): (latency: u64)
    ensures start <= now ==> start + latency == now
    ensures now <= start ==> latency == 0
  {
    if now > start then now - start else 0
  }

  /** Room for entries in a BPF hash map; the kernel program uses Bounded(1024). */
  datatype Capacity = Bounded(size: nat) | Unbounded

  const MAX_ENTRIES := Bounded(1024)

  predicate HasRoom<K, V>(m: map<K, V>, key: K, cap: Capacity) {
    key in m || cap.Unbounded? || |m| < cap.size
  }

  /** bpf_map_update_elem with BPF_ANY: a new key is refused when the map is full. */
  function Update<K, V>(m: map<K, V>, key: K, value: V, cap: Capacity): map<K, V> {
    if HasRoom(m, key, cap) then m[key := value] else m
  }

  /** What a return probe has read apart from the latency: its record clock, process and result,
      and the address text of a connect. */
  datatype Draft = Draft(stamp: u64, pid: u32, error: i32, text: seq<u8>)

  type FittingDraft = d: Draft | |d.text| <= 63 witness Draft(0, 0, 0, [])

  datatype Action =
    | Start(key: u64, fn: Probe, at: u64, name: Option<HostName>)
    | Finish(key: u64, fn: Probe, now: u64, draft: FittingDraft)

  datatype State = State(startTimes: map<u64, u64>, dnsTargets: map<u64, HostName>, output: seq<Record>)

  const EMPTY := State(map[], map[], [])

  /** One reported event with the interval its latency was measured over. */
  datatype Emission = Emission(key: u64, fn: Probe, start: u64, now: u64, record: Record)

  function Target(s: State, a: Action): (t: seq<u8>)
    requires a.Finish?
    ensures |t| <= 63
  {
    if a.fn != GetAddrInfo then a.draft.text
    else if a.key in s.dnsTargets then s.dnsTargets[a.key]
    else []
  }

  function Report(fn: Probe, start: u64, now: u64, draft: Draft, target: seq<u8>): Record
    requires |target| <= 63
  {
    Record(draft.stamp, draft.pid, Kind(fn), CalcLatency(start, now), draft.error, Pad(target), Pad([]))
  }

  /** What an action emits: nothing, or one event. */
  function Fire(s: State, a: Action): (es: seq<Emission>)
    ensures |es| <= 1
  {
    if a.Finish? && a.key in s.startTimes && Passes(a.fn, CalcLatency(s.startTimes[a.key], a.now)) then
      var start := s.startTimes[a.key];
      [Emission(a.key, a.fn, start, a.now, Report(a.fn, start, a.now, a.draft, Target(s, a)))]
    else []
  }

  function Records(es: seq<Emission>): (rs: seq<Record>)
    ensures |rs| == |es|
    ensures forall i :: 0 <= i < |es| ==> rs[i] == es[i].record
  {
    seq(|es|, i requires 0 <= i < |es| => es[i].record)
  }

  function Apply(s: State, a: Action, cap: Capacity): State {
    match a
    case Start(key, _, at, name) =>
      State(
        Update(s.startTimes, key, at, cap),
        if name.Some? then Update(s.dnsTargets, key, name.value, cap) else s.dnsTargets,
        s.output)
    case Finish(key, fn, _, _) =>
      if key !in s.startTimes then s
      else
        State(
          s.startTimes - {key},
          if fn == GetAddrInfo then s.dnsTargets - {key} else s.dnsTargets,
          s.output + Records(Fire(s, a)))
  }

  // ----- handlers as actions

  datatype SockAddr =
    | NullPointer
    | OtherFamily
    | Inet(ip: u32, port: u16)
    | Inet6(address: Ipv6, port: u16)

  /** The text a connect return probe writes into its event. */
  function ConnectText(fn: Probe, addr: SockAddr): (t: seq<u8>)
    ensures |t| <= 45
  {
    match (fn, addr)
    case (TcpV4Connect, Inet(ip, port)) => Ipv4Text(ip, port)
    case (TcpV6Connect, Inet6(a, port)) => Ipv6Text(a, port)
    case _ => []
  }

  /** One handler run with the clock readings it takes, in the order it takes them; but the returns of
      connects, sends and receives read `stamp` before `now`. */
  datatype Step =
    | Enter(pid: u32, tid: u32, fn: Probe, at: u64, name: Option<HostName>)
    | Return(pid: u32, tid: u32, fn: Probe, now: u64, stamp: u64, rc: int, addr: SockAddr)
    | Switch(cpu: nat, prev: u32, next: u32, stamp: u64, now: u64, at: u64)

  function EnterAction(pid: u32, tid: u32, fn: Probe, at: u64, name: Option<HostName>): Action {
    Start(GetKey(pid, tid), fn, at, if fn == GetAddrInfo then name else None)
  }

  function ReturnAction(pid: u32, tid: u32, fn: Probe, now: u64, stamp: u64, rc: int, addr: SockAddr): Action {
    Finish(GetKey(pid, tid), fn, now, Draft(stamp, pid, TruncateToI32(rc), ConnectText(fn, addr)))
  }

  function SwitchOut(prev: u32, stamp: u64, now: u64): seq<Action> {
    if prev > 0 then [Finish(GetKey(prev, 0), SchedSwitch, now, Draft(stamp, prev, 0, []))] else []
  }

  function SwitchIn(next: u32, at: u64): seq<Action> {
    if next > 0 then [Start(GetKey(next, 0), SchedSwitch, at, None)] else []
  }

  function Actions(st: Step): (actions: seq<Action>)
    ensures |actions| <= 2
  {
    match st
    case Enter(pid, tid, fn, at, name) => [EnterAction(pid, tid, fn, at, name)]
    case Return(pid, tid, fn, now, stamp, rc, addr) => [ReturnAction(pid, tid, fn, now, stamp, rc, addr)]
    case Switch(_, prev, next, stamp, now, at) => SwitchOut(prev, stamp, now) + SwitchIn(next, at)
  }

  function Perform(s: State, actions: seq<Action>, cap: Capacity): State {
    if actions == [] then s else Apply(Perform(s, actions[..|actions| - 1], cap), actions[|actions| - 1], cap)
  }

  lemma PerformSnoc(s: State, actions: seq<Action>, a: Action, cap: Capacity)
    ensures Perform(s, actions + [a], cap) == Apply(Perform(s, actions, cap), a, cap)
  {
    assert (actions + [a])[..|actions|] == actions;
  }
}
