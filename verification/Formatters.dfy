/** The two in-place address formatters of the kernel program, writing into an event's target. */
module Formatters {
  import opened Numbers
  import opened Fields
  import opened AddressText

  const MAX_STRING_LEN := 64

  /** The buffer holds a text from its start, and behind it the bytes it had before. */
  ghost predicate Holds(buf: array<u8>, text: seq<u8>, before: seq<u8>)
    reads buf
  {
    |text| <= |before| == buf.Length && buf[..] == text + before[|text|..]
  }

  /** buf[idx++] = c */
  method Append(buf: array<u8>, idx: nat, c: u8, ghost text: seq<u8>, ghost before: seq<u8>) returns (next: nat)
    requires idx == |text| < buf.Length && Holds(buf, text, before)
    modifies buf
    ensures next == idx + 1 && Holds(buf, text + [c], before)
  {
    buf[idx] := c;
    next := idx + 1;
  }

  method WriteThree(c0: u8, c1: u8, c2: u8, buf: array<u8>, at: nat, ghost text: seq<u8>, ghost before: seq<u8>)
    returns (idx: nat)
    requires at == |text| && at + 3 <= buf.Length && Holds(buf, text, before)
    modifies buf
    ensures idx == at + 3 && Holds(buf, text + [c0, c1, c2], before)
  {
    idx := Append(buf, at, c0, text, before);
    idx := Append(buf, idx, c1, text + [c0], before);
    idx := Append(buf, idx, c2, text + [c0] + [c1], before);
    assert text + [c0] + [c1] + [c2] == text + [c0, c1, c2];
  }

  /** Three decimal digits, zero padded. */
  method WriteOctet(n: u8, buf: array<u8>, at: nat, ghost text: seq<u8>, ghost before: seq<u8>) returns (idx: nat)
    requires at == |text| && at + 3 <= buf.Length && Holds(buf, text, before)
    modifies buf
    ensures idx == at + 3 && Holds(buf, text + OctetText(n), before)
  {
    idx := WriteThree(48 + n / 100 % 10, 48 + n / 10 % 10, 48 + n % 10, buf, at, text, before);
  }

  /** Five decimal digits, zero padded. */
  method WritePort(p: u16, buf: array<u8>, at: nat, ghost text: seq<u8>, ghost before: seq<u8>) returns (idx: nat)
    requires at == |text| && at + 5 <= buf.Length && Holds(buf, text, before)
    modifies buf
    ensures idx == at + 5 && Holds(buf, text + PortText(p), before)
  {
    ghost var digits := PortText(p);
    idx := WriteThree(48 + p / 10000 % 10, 48 + p / 1000 % 10, 48 + p / 100 % 10, buf, at, text, before);
    idx := Append(buf, idx, 48 + p / 10 % 10, text + digits[..3], before);
    idx := Append(buf, idx, 48 + p % 10, text + digits[..3] + [digits[3]], before);
    assert text + digits[..3] + [digits[3]] + [digits[4]] == text + digits;
  }

  /** Four octets with dots between them. */
  method WriteQuad(a: u8, b: u8, c: u8, d: u8, buf: array<u8>, ghost before: seq<u8>) returns (idx: nat)
    requires buf.Length == MAX_STRING_LEN && Holds(buf, [], before)
    modifies buf
    ensures idx == 15
    ensures Holds(buf, OctetText(a) + [DOT] + OctetText(b) + [DOT] + OctetText(c) + [DOT] + OctetText(d), before)
  {
    idx := WriteOctet(a, buf, 0, [], before);
    ghost var text := OctetText(a);
    assert [] + text == text;
    idx := Append(buf, idx, 46, text, before);
    text := text + [DOT];
    idx := WriteOctet(b, buf, idx, text, before);
    text := text + OctetText(b);
    idx := Append(buf, idx, 46, text, before);
    text := text + [DOT];
    idx := WriteOctet(c, buf, idx, text, before);
    text := text + OctetText(c);
    idx := Append(buf, idx, 46, text, before);
    text := text + [DOT];
    idx := WriteOctet(d, buf, idx, text, before);
  }

  /** The quad, a colon and the port. */
  method WriteIpPort(ip: u32, port: u16, buf: array<u8>, ghost before: seq<u8>) returns (idx: nat)
    requires buf.Length == MAX_STRING_LEN && Holds(buf, [], before)
    modifies buf
    ensures idx == 21 && Holds(buf, Ipv4Text(ip, port), before)
  {
    var a, b, c, d := ip / 0x100_0000 % 256, ip / 0x1_0000 % 256, ip / 0x100 % 256, ip % 256;
    idx := WriteQuad(a, b, c, d, buf, before);
    ghost var quad := OctetText(a) + [DOT] + OctetText(b) + [DOT] + OctetText(c) + [DOT] + OctetText(d);
    idx := Append(buf, idx, 58, quad, before);
    idx := WritePort(port, buf, idx, quad + [COLON], before);
    assert Ipv4Text(ip, port) == quad + [COLON] + PortText(port);
  }

  method FormatIpPort(ip: u32, port: u16, buf: array<u8>)
    requires buf.Length == MAX_STRING_LEN
    modifies buf
    ensures buf[..] == Ipv4Text(ip, port) + [0] + old(buf[22..])
  {
    ghost var before := buf[..];
    var idx := WriteIpPort(ip, port, buf, before);
    idx := Append(buf, idx, 0, Ipv4Text(ip, port), before);
    assert old(buf[22..]) == before[22..];
  }

  /** One turn of the group loop with its length guards, none of which is ever false. */
  method WriteGroup(segment: u16, i: nat, buf: array<u8>, at: nat, ghost text: seq<u8>, ghost before: seq<u8>)
    returns (idx: nat)
    requires buf.Length == MAX_STRING_LEN && at == |text| && Holds(buf, text, before)
    requires i < 8 && (if i == 0 then at == 0 else at <= 5 * i - 1)
    modifies buf
    ensures idx == at + (if i > 0 then 1 else 0) + |GroupDigits(segment, i)|
    ensures Holds(buf, text + (if i > 0 then [COLON] else []) + GroupDigits(segment, i), before)
  {
    idx := at;
    if segment == 0 && i > 0 && i < 7 {
      if idx < MAX_STRING_LEN - 10 {
        idx := Append(buf, idx, 58, text, before);
      }
      assert text + [COLON] + [] == text + [COLON];
    } else {
      ghost var shown := text + if i > 0 then [COLON] else [];
      assert text + [] == text;
      if i > 0 && idx < MAX_STRING_LEN - 10 {
        idx := Append(buf, idx, 58, text, before);
      }
      var high, low := segment / 0x1000 % 16, segment / 0x100 % 16;
      var high2, low2 := segment / 0x10 % 16, segment % 16;
      assert high == segment / 0x1000;
      ghost var first := if high > 0 || i == 0 then [Hex(high)] else [];
      assert shown + [] == shown;
      if high > 0 || i == 0 {
        if idx < MAX_STRING_LEN - 10 {
          idx := Append(buf, idx, Hex(high), shown, before);
        }
      }
      if idx < MAX_STRING_LEN - 10 {
        idx := WriteThree(Hex(low), Hex(high2), Hex(low2), buf, idx, shown + first, before);
      }
      Regroup(shown, first, [Hex(low), Hex(high2), Hex(low2)]);
    }
  }

  /** The group loop: before group i >= 1 the text is at most 5*i-1 bytes long. */
  method WriteGroups(ipv6: Ipv6, buf: array<u8>, ghost before: seq<u8>) returns (idx: nat)
    requires buf.Length == MAX_STRING_LEN && Holds(buf, [], before)
    modifies buf
    ensures idx == |GroupsText(ipv6, 8)| && Holds(buf, GroupsText(ipv6, 8), before)
  {
    idx := 0;
    for i := 0 to 8
      invariant idx == |GroupsText(ipv6, i)|
      invariant i >= 1 ==> idx <= 5 * i - 1
      invariant Holds(buf, GroupsText(ipv6, i), before)
    {
      var segment := ipv6[i * 2] as int * 256 + ipv6[i * 2 + 1] as int;
      assert segment == Segment(ipv6, i);
      idx := WriteGroup(segment, i, buf, idx, GroupsText(ipv6, i), before);
    }
  }

  /** The whole text is always written, and the terminating NUL lands at index 45 or lower. */
  method FormatIpv6Port(ipv6: Ipv6, port: u16, buf: array<u8>)
    requires buf.Length == MAX_STRING_LEN
    modifies buf
    ensures buf[..] == Ipv6Text(ipv6, port) + [0] + old(buf[|Ipv6Text(ipv6, port)| + 1..])
  {
    ghost var before := buf[..];
    ghost var text := GroupsText(ipv6, 8);
    var idx := WriteGroups(ipv6, buf, before);
    if idx < MAX_STRING_LEN - 6 {
      idx := Append(buf, idx, 58, text, before);
      idx := WritePort(port, buf, idx, text + [COLON], before);
    }
    idx := Append(buf, idx, 0, Ipv6Text(ipv6, port), before);
  }
}
