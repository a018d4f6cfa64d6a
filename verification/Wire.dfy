/** The event record on the ring buffer: the C struct's layout, and Go's reader of it. */
module Wire {
  import opened Numbers

  type Text64 = t: seq<u8> | |t| == 64 witness seq(64, _ => 0)

  /** struct event: 156 bytes of fields, padded to 160 by the compiler. */
  datatype Record = Record(
    timestamp: u64,
    pid: u32,
    kind: u32,
    latency: u64,
    error: i32,
    target: Text64,
    details: Text64)

  /** What parseEvent returns; the process name is looked up afterwards. */
  datatype Parsed = Parsed(
    timestamp: u64,
    pid: u32,
    kind: u32,
    latency: u64,
    error: i32,
    target: seq<u8>,
    details: seq<u8>)

  /** A record with these numbers, the time from start to now (or zero if that is negative) as its latency,
      the low 32 bits of a result as its error, and no details. */
  ghost predicate Reports(r: Record, stamp: u64, pid: u32, kind: u32, start: u64, now: u64, rc: int) {
    && r.timestamp == stamp && r.pid == pid && r.kind == kind
    && (start <= now ==> start + r.latency == now)
    && (now <= start ==> r.latency == 0)
    && SameLowWord(rc, r.error)
    && IsBlank(r.details)
  }

  ghost predicate IsBlank(t: Text64) {
    forall i :: 0 <= i < 64 ==> t[i] == 0
  }

  function Encode(r: Record): (bytes: seq<u8>)
    ensures |bytes| == 156
  {
    ToLittleEndian(r.timestamp, 8)
    + ToLittleEndian(r.pid, 4)
    + ToLittleEndian(r.kind, 4)
    + ToLittleEndian(r.latency, 8)
    + ToLittleEndian(BitsOfI32(r.error), 4)
    + r.target
    + r.details
  }

  function Pad(t: seq<u8>): (p: Text64)
    requires |t| <= 64
  {
    t + seq(64 - |t|, _ => 0)
  }

  ghost predicate NoTrailingNul(t: seq<u8>) {
    t != [] ==> t[|t| - 1] != 0
  }

  /** bytes.TrimRight(t, "\x00") */
  function TrimNuls(t: seq<u8>): (s: seq<u8>)
    ensures |s| <= |t| && s == t[..|s|]
    ensures NoTrailingNul(s)
    ensures forall k :: |s| <= k < |t| ==> t[k] == 0
  {
    if t != [] && t[|t| - 1] == 0 then TrimNuls(t[..|t| - 1]) else t
  }

  function Number(data: seq<u8>, at: nat, width: nat): nat
    requires at + width <= |data|
  {
    FromLittleEndian(data[at..at + width])
  }

  function ReadU32(data: seq<u8>, at: nat): u32
    requires at + 4 <= |data|
  {
    Widths();
    Number(data, at, 4)
  }

  function ReadU64(data: seq<u8>, at: nat): u64
    requires at + 8 <= |data|
  {
    Widths();
    Number(data, at, 8)
  }

  /** binary.Read fills the whole struct or fails, so the first length test is never the deciding one. */
  function ParseEvent(data: seq<u8>): (r: Option<Parsed>)
    ensures r.Some? <==> |data| >= 156
  {
    if |data| < 32 then None
    else if |data| < 156 then None
    else
      Some(Parsed(
        ReadU64(data, 0),
        ReadU32(data, 8),
        ReadU32(data, 12),
        ReadU64(data, 16),
        I32OfBits(ReadU32(data, 24)),
        TrimNuls(data[28..92]),
        TrimNuls(data[92..156])))
  }

  lemma TrimInvertsPad(t: seq<u8>)
    requires |t| <= 64 && NoTrailingNul(t)
    ensures TrimNuls(Pad(t)) == t
  {
    var p := Pad(t);
    assert t != [] ==> p[|t| - 1] == t[|t| - 1];
    assert forall k :: |t| <= k < 64 ==> p[k] == 0;
  }

  lemma PadInvertsTrim(t: Text64)
    ensures Pad(TrimNuls(t)) == t
  {
  }

  lemma Layout(r: Record, rest: seq<u8>)
    ensures var data := Encode(r) + rest;
            && data[0..8] == ToLittleEndian(r.timestamp, 8)
            && data[8..12] == ToLittleEndian(r.pid, 4)
            && data[12..16] == ToLittleEndian(r.kind, 4)
            && data[16..24] == ToLittleEndian(r.latency, 8)
            && data[24..28] == ToLittleEndian(BitsOfI32(r.error), 4)
            && data[28..92] == r.target
            && data[92..156] == r.details
  {
  }

  lemma U32At(data: seq<u8>, at: nat, v: u32)
    requires at + 4 <= |data| && data[at..at + 4] == ToLittleEndian(v, 4)
    ensures ReadU32(data, at) == v
  {
    Widths();
    LittleEndianDecodes(v, 4);
  }

  lemma U64At(data: seq<u8>, at: nat, v: u64)
    requires at + 8 <= |data| && data[at..at + 8] == ToLittleEndian(v, 8)
    ensures ReadU64(data, at) == v
  {
    Widths();
    LittleEndianDecodes(v, 8);
  }

  /** Reading what the kernel wrote gives back every field, whatever follows the fields. */
  lemma ParseInvertsEncode(r: Record, rest: seq<u8>)
    ensures ParseEvent(Encode(r) + rest) ==
            Some(Parsed(r.timestamp, r.pid, r.kind, r.latency, r.error, TrimNuls(r.target), TrimNuls(r.details)))
  {
    var data := Encode(r) + rest;
    Layout(r, rest);
    U64At(data, 0, r.timestamp);
    U32At(data, 8, r.pid);
    U32At(data, 12, r.kind);
    U64At(data, 16, r.latency);
    U32At(data, 24, BitsOfI32(r.error));
    FieldsParsed(data, r);
  }

  lemma FieldsParsed(data: seq<u8>, r: Record)
    requires |data| >= 156
    requires ReadU64(data, 0) == r.timestamp && ReadU32(data, 8) == r.pid && ReadU32(data, 12) == r.kind
    requires ReadU64(data, 16) == r.latency && ReadU32(data, 24) == BitsOfI32(r.error)
    requires data[28..92] == r.target && data[92..156] == r.details
    ensures ParseEvent(data) ==
            Some(Parsed(r.timestamp, r.pid, r.kind, r.latency, r.error, TrimNuls(r.target), TrimNuls(r.details)))
  {
  }

  function Unparse(p: Parsed): Record
    requires |p.target| <= 64 && |p.details| <= 64
  {
    Record(p.timestamp, p.pid, p.kind, p.latency, p.error, Pad(p.target), Pad(p.details))
  }

  lemma NumberBytes(data: seq<u8>, at: nat, width: nat)
    requires at + width <= |data|
    ensures ToLittleEndian(Number(data, at, width), width) == data[at..at + width]
  {
    LittleEndianEncodes(data[at..at + width]);
  }

  lemma Concatenated(data: seq<u8>)
    requires |data| >= 156
    ensures data[0..8] + data[8..12] + data[12..16] + data[16..24] + data[24..28] + data[28..92] + data[92..156] ==
             data[..156]
  {
  }

  /** Nothing in the first 156 bytes is lost by reading them. */
  lemma EncodeInvertsParse(data: seq<u8>)
    requires |data| >= 156
    ensures var p := ParseEvent(data).value;
            |p.target| <= 64 && |p.details| <= 64 && Encode(Unparse(p)) == data[..156]
  {
    var p := ParseEvent(data).value;
    var r := Unparse(p);
    assert ToLittleEndian(r.timestamp, 8) == data[0..8] by { NumberBytes(data, 0, 8); }
    assert ToLittleEndian(r.pid, 4) == data[8..12] by { NumberBytes(data, 8, 4); }
    assert ToLittleEndian(r.kind, 4) == data[12..16] by { NumberBytes(data, 12, 4); }
    assert ToLittleEndian(r.latency, 8) == data[16..24] by { NumberBytes(data, 16, 8); }
    assert ToLittleEndian(BitsOfI32(r.error), 4) == data[24..28] by { NumberBytes(data, 24, 4); }
    assert r.target == data[28..92] by { PadInvertsTrim(data[28..92]); }
    assert r.details == data[92..156] by { PadInvertsTrim(data[92..156]); }
    Concatenated(data);
  }
}
