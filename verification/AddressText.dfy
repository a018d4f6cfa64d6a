/** The address texts a connect event carries, and a reader for each of them.
    The IPv6 form is podtrace's own: eight groups and a port between colons, where a zero group
    other than the first and the last prints as nothing. */
module AddressText {
  import opened Numbers
  import opened Fields

  type Ipv6 = a: seq<u8> | |a| == 16 witness seq(16, _ => 0)

  const COLON: u8 := 58
  const DOT: u8 := 46

  function Hex(n: nat): (c: u8)
    requires n < 16
    ensures c != COLON
  {
    if n < 10 then 48 + n else 97 + (n - 10)
  }

  function Decimal(n: nat): (c: u8)
    ensures 48 <= c < 58
  {
    48 + n % 10
  }

  function OctetText(n: u8): (t: seq<u8>)
    ensures |t| == 3
  {
    [Decimal(n / 100), Decimal(n / 10), Decimal(n)]
  }

  function PortText(p: u16): (t: seq<u8>)
    ensures |t| == 5
  {
    [Decimal(p / 10000), Decimal(p / 1000), Decimal(p / 100), Decimal(p / 10), Decimal(p)]
  }

  /** Byte k of an IPv4 address held as one 32-bit number, most significant byte first. */
  function Octet(ip: u32, k: nat): u8
    requires k < 4
  {
    match k
    case 0 => ip / 0x100_0000 % 256
    case 1 => ip / 0x1_0000 % 256
    case 2 => ip / 0x100 % 256
    case 3 => ip % 256
  }

  function Ipv4Text(ip: u32, port: u16): (t: seq<u8>)
    ensures |t| == 21
  {
    OctetText(Octet(ip, 0)) + [DOT] + OctetText(Octet(ip, 1)) + [DOT]
    + OctetText(Octet(ip, 2)) + [DOT] + OctetText(Octet(ip, 3)) + [COLON] + PortText(port)
  }

  function Segment(a: Ipv6, i: nat): u16
    requires i < 8
  {
    a[2 * i] as int * 256 + a[2 * i + 1] as int
  }

  /** What group i shows of its segment, without the colon in front. */
  function GroupDigits(segment: u16, i: nat): (t: seq<u8>)
    ensures |t| <= 4
    ensures COLON !in t
  {
    if segment == 0 && 0 < i < 7 then []
    else
      (if segment / 0x1000 > 0 || i == 0 then [Hex(segment / 0x1000)] else [])
      + [Hex(segment / 0x100 % 16), Hex(segment / 0x10 % 16), Hex(segment % 16)]
  }

  /** The text of the first n groups. */
  function GroupsText(a: Ipv6, n: nat): (t: seq<u8>)
    requires n <= 8
    ensures n > 0 ==> |t| <= 5 * n - 1
    ensures n == 0 ==> t == []
  {
    if n == 0 then []
    else GroupsText(a, n - 1) + (if n > 1 then [COLON] else []) + GroupDigits(Segment(a, n - 1), n - 1)
  }

  function Ipv6Text(a: Ipv6, port: u16): (t: seq<u8>)
    ensures |t| <= 45
  {
    GroupsText(a, 8) + [COLON] + PortText(port)
  }

  // ----- readers

  function DigitValue(c: u8): Option<nat> {
    if 48 <= c < 58 then Some(c - 48)
    else if 97 <= c < 103 then Some(c - 87)
    else None
  }

  /** The number a text denotes in a base; the empty text denotes zero. */
  function ParseNumber(t: seq<u8>, base: nat): Option<nat> {
    if t == [] then Some(0)
    else
      var last := |t| - 1;
      match (ParseNumber(t[..last], base), DigitValue(t[last]))
      case (Some(v), Some(d)) => if d < base then Some(v * base + d) else None
      case _ => None
  }

  function ReadOctet(t: seq<u8>): Option<nat> {
    match ParseNumber(t, 10)
    case Some(v) => if |t| == 3 && v < 256 then Some(v) else None
    case None => None
  }

  function ReadPort(t: seq<u8>): Option<u16> {
    match ParseNumber(t, 10)
    case Some(v) => if |t| == 5 && v < 0x1_0000 then Some(v) else None
    case None => None
  }

  function DecodeIpv4(t: seq<u8>): Option<(u32, u16)> {
    var ends := Split(t, COLON);
    if |ends| != 2 then None else
    var octets := Split(ends[0], DOT);
    if |octets| != 4 then None else
    match (ReadOctet(octets[0]), ReadOctet(octets[1]), ReadOctet(octets[2]), ReadOctet(octets[3]), ReadPort(ends[1]))
    case (Some(a), Some(b), Some(c), Some(d), Some(p)) =>
      if a < 256 && b < 256 && c < 256 && d < 256 then
        Some((a * 0x100_0000 + b * 0x1_0000 + c * 0x100 + d, p))
      else None
    case _ => None
  }

  /** The bytes of the first n group fields. */
  function ReadGroups(fields: seq<seq<u8>>, n: nat): (r: Option<seq<u8>>)
    requires n <= |fields|
    ensures r.Some? ==> |r.value| == 2 * n
  {
    if n == 0 then Some([]) else
    match (ReadGroups(fields, n - 1), ParseNumber(fields[n - 1], 16))
    case (Some(bytes), Some(v)) => if v < 0x1_0000 then Some(bytes + [v / 256, v % 256]) else None
    case _ => None
  }

  function DecodeIpv6(t: seq<u8>): Option<(Ipv6, u16)> {
    var fields := Split(t, COLON);
    if |fields| != 9 then None else
    match (ReadGroups(fields, 8), ReadPort(fields[8]))
    case (Some(bytes), Some(p)) => Some((bytes, p))
    case _ => None
  }

  // ----- round trips

  lemma ParseSnoc(t: seq<u8>, c: u8, base: nat, v: nat, d: nat)
    requires ParseNumber(t, base) == Some(v) && DigitValue(c) == Some(d) && d < base
    ensures ParseNumber(t + [c], base) == Some(v * base + d)
  {
    assert (t + [c])[..|t|] == t;
  }

  lemma HexValue(n: nat)
    requires n < 16
    ensures DigitValue(Hex(n)) == Some(n)
  {
  }

  lemma ParseThree(c0: u8, c1: u8, c2: u8, base: nat, d0: nat, d1: nat, d2: nat)
    requires DigitValue(c0) == Some(d0) && DigitValue(c1) == Some(d1) && DigitValue(c2) == Some(d2)
    requires d0 < base && d1 < base && d2 < base
    ensures ParseNumber([c0, c1, c2], base) == Some((d0 * base + d1) * base + d2)
  {
    ParseSnoc([], c0, base, 0, d0);
    assert [] + [c0] == [c0];
    ParseSnoc([c0], c1, base, d0, d1);
    assert [c0] + [c1] == [c0, c1];
    ParseSnoc([c0, c1], c2, base, d0 * base + d1, d2);
    assert [c0, c1] + [c2] == [c0, c1, c2];
  }

  lemma PortDigits(p: u16)
    ensures p == ((((p / 10000 % 10 * 10 + p / 1000 % 10) * 10) + p / 100 % 10) * 10 + p / 10 % 10) * 10 + p % 10
  {
    assert p / 10000 % 10 == p / 10000;
    assert p / 1000 == p / 10000 * 10 + p / 1000 % 10;
    assert p / 100 == p / 1000 * 10 + p / 100 % 10;
    assert p / 10 == p / 100 * 10 + p / 10 % 10;
  }

  lemma PortRoundTrip(p: u16)
    ensures ReadPort(PortText(p)) == Some(p)
    ensures COLON !in PortText(p)
  {
    var t := PortText(p);
    var v := (p / 10000 % 10 * 10 + p / 1000 % 10) * 10 + p / 100 % 10;
    ParseThree(t[0], t[1], t[2], 10, p / 10000 % 10, p / 1000 % 10, p / 100 % 10);
    ParseSnoc([t[0], t[1], t[2]], t[3], 10, v, p / 10 % 10);
    ParseSnoc([t[0], t[1], t[2]] + [t[3]], t[4], 10, v * 10 + p / 10 % 10, p % 10);
    assert t == [t[0], t[1], t[2]] + [t[3]] + [t[4]];
    PortDigits(p);
  }

  lemma OctetRoundTrip(n: u8)
    ensures ReadOctet(OctetText(n)) == Some(n)
    ensures DOT !in OctetText(n) && COLON !in OctetText(n)
  {
    ParseThree(Decimal(n / 100), Decimal(n / 10), Decimal(n), 10, n / 100 % 10, n / 10 % 10, n % 10);
    OctetDigits(n);
  }

  lemma OctetDigits(n: u8)
    ensures n == (n / 100 % 10 * 10 + n / 10 % 10) * 10 + n % 10
  {
    assert n / 10 == n / 100 * 10 + n / 10 % 10;
  }

  lemma SegmentDigits(n: u16)
    ensures n / 0x1000 < 16
    ensures n / 0x100 == n / 0x1000 * 16 + n / 0x100 % 16
    ensures n / 0x10 == n / 0x100 * 16 + n / 0x10 % 16
    ensures n == n / 0x10 * 16 + n % 16
  {
  }

  lemma GroupRoundTrip(segment: u16, i: nat)
    requires i < 8
    ensures ParseNumber(GroupDigits(segment, i), 16) == Some(segment as nat)
  {
    var h0, h1, h2, h3 := segment / 0x1000, segment / 0x100 % 16, segment / 0x10 % 16, segment % 16;
    SegmentDigits(segment);
    HexValue(h0);
    HexValue(h1);
    HexValue(h2);
    HexValue(h3);
    if segment == 0 && 0 < i < 7 {
    } else if h0 > 0 || i == 0 {
      ParseThree(Hex(h0), Hex(h1), Hex(h2), 16, h0, h1, h2);
      ParseSnoc([Hex(h0), Hex(h1), Hex(h2)], Hex(h3), 16, segment / 0x10, h3);
      assert GroupDigits(segment, i) == [Hex(h0), Hex(h1), Hex(h2)] + [Hex(h3)];
    } else {
      ParseThree(Hex(h1), Hex(h2), Hex(h3), 16, h1, h2, h3);
      assert GroupDigits(segment, i) == [Hex(h1), Hex(h2), Hex(h3)];
    }
  }

  /** The digits of the first n groups, one field each. */
  ghost function GroupFields(a: Ipv6, n: nat): (fields: seq<seq<u8>>)
    requires n <= 8
    ensures |fields| == n
    ensures forall i :: 0 <= i < n ==> fields[i] == GroupDigits(Segment(a, i), i)
  {
    seq(n, i requires 0 <= i < n => GroupDigits(Segment(a, i), i))
  }

  lemma NextGroupField(a: Ipv6, n: nat)
    requires 1 <= n <= 8
    ensures GroupFields(a, n) == GroupFields(a, n - 1) + [GroupDigits(Segment(a, n - 1), n - 1)]
  {
  }

  lemma {:induction false} GroupsAreJoined(a: Ipv6, n: nat)
    requires 1 <= n <= 8
    ensures GroupsText(a, n) == Join(GroupFields(a, n), COLON)
  {
    if n > 1 {
      GroupsAreJoined(a, n - 1);
      NextGroupField(a, n);
      JoinSnoc(GroupFields(a, n - 1), GroupDigits(Segment(a, n - 1), n - 1), COLON);
    } else {
      assert GroupsText(a, 0) == [];
    }
  }

  lemma {:induction false} GroupsRoundTrip(a: Ipv6, fields: seq<seq<u8>>, n: nat)
    requires n <= 8 && n <= |fields|
    requires forall i :: 0 <= i < n ==> fields[i] == GroupDigits(Segment(a, i), i)
    ensures ReadGroups(fields, n) == Some(a[..2 * n])
  {
    if n > 0 {
      GroupsRoundTrip(a, fields, n - 1);
      GroupRoundTrip(Segment(a, n - 1), n - 1);
      SegmentBytes(a, n - 1);
      ReadNextGroup(fields, n, a[..2 * (n - 1)], Segment(a, n - 1));
    }
  }

  lemma ReadNextGroup(fields: seq<seq<u8>>, n: nat, bytes: seq<u8>, segment: u16)
    requires 0 < n <= |fields|
    requires ReadGroups(fields, n - 1) == Some(bytes)
    requires ParseNumber(fields[n - 1], 16) == Some(segment as nat)
    ensures ReadGroups(fields, n) == Some(bytes + [segment / 256, segment % 256])
  {
  }

  lemma SegmentBytes(a: Ipv6, i: nat)
    requires i < 8
    ensures a[..2 * i] + [Segment(a, i) / 256, Segment(a, i) % 256] == a[..2 * (i + 1)]
  {
  }

  lemma Ipv6Fields(a: Ipv6, port: u16) returns (fields: seq<seq<u8>>)
    ensures |fields| == 9 && SeparatorFree(fields, COLON)
    ensures fields == GroupFields(a, 8) + [PortText(port)]
    ensures Ipv6Text(a, port) == Join(fields, COLON)
  {
    fields := GroupFields(a, 8) + [PortText(port)];
    GroupsAreJoined(a, 8);
    PortRoundTrip(port);
    assert forall i :: 0 <= i < 9 ==> COLON !in fields[i];
    JoinSnoc(GroupFields(a, 8), PortText(port), COLON);
  }

  /** Every IPv6 address and port can be read back from its text. */
  lemma {:induction false} Ipv6RoundTrip(a: Ipv6, port: u16)
    ensures DecodeIpv6(Ipv6Text(a, port)) == Some((a, port))
    ensures Occurrences(Ipv6Text(a, port), COLON) == 8
    ensures 0 !in Ipv6Text(a, port)
  {
    var fields := Ipv6Fields(a, port);
    SplitInvertsJoin(fields, COLON);
    SeparatorsInJoin(fields, COLON);
    FieldsDecode(a, port, fields);
    NoNulInIpv6(a, port);
  }

  lemma FieldsDecode(a: Ipv6, port: u16, fields: seq<seq<u8>>)
    requires fields == GroupFields(a, 8) + [PortText(port)]
    ensures ReadGroups(fields, 8) == Some(a) && ReadPort(fields[8]) == Some(port)
  {
    GroupsRoundTrip(a, fields, 8);
    PortRoundTrip(port);
    assert a[..16] == a;
  }

  lemma NoNulInIpv6(a: Ipv6, port: u16)
    ensures 0 !in Ipv6Text(a, port)
  {
    var groups, colon := GroupsText(a, 8), [COLON];
    NoNulInGroups(a, 8);
    assert Ipv6Text(a, port) == groups + colon + PortText(port);
  }

  /** The characters written: lower-case digits, and the two separators. */
  lemma CharacterTable(n: nat)
    requires n < 16
    ensures COLON == ':' as int && DOT == '.' as int
    ensures Hex(n) == "0123456789abcdef"[n] as int
    ensures n < 10 ==> Decimal(n) == "0123456789"[n] as int
  {
  }

  predicate IsHexDigit(c: u8) {
    '0' as int <= c <= '9' as int || 'a' as int <= c <= 'f' as int
  }

  /** How many digits a group shows: a zero group other than the first and the last none, a group below
      0x1000 other than the first three, and every other group four. */
  ghost predicate ShownAs(high: u8, low: u8, i: nat, field: seq<u8>) {
    && |field| == (if high == low == 0 && 0 < i < 7 then 0 else if high < 0x10 && 0 < i then 3 else 4)
    && forall c :: c in field ==> IsHexDigit(c)
  }

  /** The exact form of the text: eight groups and five digits of the port, between colons. */
  lemma FieldsOfIpv6(a: Ipv6, port: u16)
    ensures var fields := Split(Ipv6Text(a, port), COLON);
            && |fields| == 9 && |fields[8]| == 5
            && forall i :: 0 <= i < 8 ==> ShownAs(a[2 * i], a[2 * i + 1], i, fields[i])
  {
    var fields := Ipv6Fields(a, port);
    SplitInvertsJoin(fields, COLON);
    GroupFieldsShown(a);
  }

  lemma GroupFieldsShown(a: Ipv6)
    ensures forall i :: 0 <= i < 8 ==> ShownAs(a[2 * i], a[2 * i + 1], i, GroupFields(a, 8)[i])
  {
    forall i | 0 <= i < 8
      ensures ShownAs(a[2 * i], a[2 * i + 1], i, GroupFields(a, 8)[i])
    {
      GroupShown(a, i);
      assert GroupFields(a, 8)[i] == GroupDigits(Segment(a, i), i);
    }
  }

  lemma GroupShown(a: Ipv6, i: nat)
    requires i < 8
    ensures ShownAs(a[2 * i], a[2 * i + 1], i, GroupDigits(Segment(a, i), i))
  {
    DigitsOfGroup(Segment(a, i), a[2 * i], a[2 * i + 1], i);
  }

  lemma DigitsOfGroup(segment: u16, high: u8, low: u8, i: nat)
    requires i < 8 && segment == high as int * 256 + low as int
    ensures ShownAs(high, low, i, GroupDigits(segment, i))
  {
  }

  /** Four octets of three digits between dots, and five digits of the port behind a colon. */
  lemma FieldsOfIpv4(ip: u32, port: u16)
    ensures var ends := Split(Ipv4Text(ip, port), COLON);
            && |ends| == 2 && |ends[1]| == 5
            && var octets := Split(ends[0], DOT);
               |octets| == 4 && |octets[0]| == |octets[1]| == |octets[2]| == |octets[3]| == 3
  {
    var a, b, c, d := Octet(ip, 0), Octet(ip, 1), Octet(ip, 2), Octet(ip, 3);
    OctetRoundTrip(a);
    OctetRoundTrip(b);
    OctetRoundTrip(c);
    OctetRoundTrip(d);
    PortRoundTrip(port);
    OctetsAreFree(a, b, c, d, port);
    var ta, tb, tc, td := OctetText(a), OctetText(b), OctetText(c), OctetText(d);
    SplitQuad(ta, tb, tc, td, PortText(port));
    var quad := ta + [DOT] + tb + [DOT] + tc + [DOT] + td;
    assert Ipv4Text(ip, port) == quad + [COLON] + PortText(port);
  }

  lemma {:induction false} NoNulInGroups(a: Ipv6, n: nat)
    requires n <= 8
    ensures 0 !in GroupsText(a, n)
  {
    if n > 0 {
      NoNulInGroups(a, n - 1);
      NoNulInGroup(Segment(a, n - 1), n - 1);
      var before, colon := GroupsText(a, n - 1), if n > 1 then [COLON] else [];
      assert GroupsText(a, n) == before + colon + GroupDigits(Segment(a, n - 1), n - 1);
    }
  }

  lemma NoNulInGroup(segment: u16, i: nat)
    ensures 0 !in GroupDigits(segment, i)
  {
  }

  lemma OctetsOf(ip: u32)
    ensures ip == Octet(ip, 0) as int * 0x100_0000 + Octet(ip, 1) as int * 0x1_0000
                  + Octet(ip, 2) as int * 0x100 + Octet(ip, 3) as int
  {
    assert ip / 0x100_0000 % 256 == ip / 0x100_0000;
    assert ip / 0x1_0000 == ip / 0x100_0000 * 256 + ip / 0x1_0000 % 256;
    assert ip / 0x100 == ip / 0x1_0000 * 256 + ip / 0x100 % 256;
  }

  lemma SplitQuad(a: seq<u8>, b: seq<u8>, c: seq<u8>, d: seq<u8>, port: seq<u8>)
    requires SeparatorFree([a, b, c, d, port], COLON) && SeparatorFree([a, b, c, d], DOT)
    ensures var quad := a + [DOT] + b + [DOT] + c + [DOT] + d;
            Split(quad + [COLON] + port, COLON) == [quad, port] && Split(quad, DOT) == [a, b, c, d]
  {
    var quad := a + [DOT] + b + [DOT] + c + [DOT] + d;
    QuadIsJoined(a, b, c, d);
    SplitInvertsJoin([a, b, c, d], DOT);
    var fields := [a, b, c, d, port];
    assert a == fields[0] && b == fields[1] && c == fields[2] && d == fields[3] && port == fields[4];
    SplitConcat(quad, port, COLON);
    SplitOfFree(quad, COLON);
    SplitOfFree(port, COLON);
  }

  lemma DecodeQuad(a: u8, b: u8, c: u8, d: u8, port: u16, text: seq<u8>)
    requires text == OctetText(a) + [DOT] + OctetText(b) + [DOT] + OctetText(c) + [DOT] + OctetText(d)
                     + [COLON] + PortText(port)
    ensures DecodeIpv4(text) == Some((a as int * 0x100_0000 + b as int * 0x1_0000 + c as int * 0x100 + d as int, port))
  {
    OctetRoundTrip(a);
    OctetRoundTrip(b);
    OctetRoundTrip(c);
    OctetRoundTrip(d);
    PortRoundTrip(port);
    var ta, tb, tc, td, tp := OctetText(a), OctetText(b), OctetText(c), OctetText(d), PortText(port);
    OctetsAreFree(a, b, c, d, port);
    SplitQuad(ta, tb, tc, td, tp);
    DecodeParts(text, ta + [DOT] + tb + [DOT] + tc + [DOT] + td, [ta, tb, tc, td], tp, a, b, c, d, port);
  }

  lemma OctetsAreFree(a: u8, b: u8, c: u8, d: u8, port: u16)
    ensures SeparatorFree([OctetText(a), OctetText(b), OctetText(c), OctetText(d), PortText(port)], COLON)
    ensures SeparatorFree([OctetText(a), OctetText(b), OctetText(c), OctetText(d)], DOT)
  {
  }

  lemma DecodeParts(text: seq<u8>, quad: seq<u8>, octets: seq<seq<u8>>, port: seq<u8>,
      a: u8, b: u8, c: u8, d: u8, p: u16)
    requires Split(text, COLON) == [quad, port] && Split(quad, DOT) == octets && |octets| == 4
    requires ReadOctet(octets[0]) == Some(a) && ReadOctet(octets[1]) == Some(b)
    requires ReadOctet(octets[2]) == Some(c) && ReadOctet(octets[3]) == Some(d) && ReadPort(port) == Some(p)
    ensures DecodeIpv4(text) == Some((a as int * 0x100_0000 + b as int * 0x1_0000 + c as int * 0x100 + d as int, p))
  {
  }

  /** Every IPv4 address and port can be read back from its text. */
  lemma Ipv4RoundTrip(ip: u32, port: u16)
    ensures DecodeIpv4(Ipv4Text(ip, port)) == Some((ip, port))
    ensures 0 !in Ipv4Text(ip, port)
  {
    DecodeQuad(Octet(ip, 0), Octet(ip, 1), Octet(ip, 2), Octet(ip, 3), port, Ipv4Text(ip, port));
    OctetsOf(ip);
    NoNulInIpv4(ip, port);
  }

  lemma NoNulInIpv4(ip: u32, port: u16)
    ensures 0 !in Ipv4Text(ip, port)
  {
    var a, b := OctetText(Octet(ip, 0)), OctetText(Octet(ip, 1));
    var c, d := OctetText(Octet(ip, 2)), OctetText(Octet(ip, 3));
    var dot, colon, p := [DOT], [COLON], PortText(port);
    assert Ipv4Text(ip, port) == a + dot + b + dot + c + dot + d + colon + p;
  }

  lemma QuadIsJoined(a: seq<u8>, b: seq<u8>, c: seq<u8>, d: seq<u8>)
    ensures Join([a, b, c, d], DOT) == a + [DOT] + b + [DOT] + c + [DOT] + d
  {
    JoinSnoc([a], b, DOT);
    JoinSnoc([a, b], c, DOT);
    JoinSnoc([a, b, c], d, DOT);
    assert [a] + [b] == [a, b] && [a, b] + [c] == [a, b, c] && [a, b, c] + [d] == [a, b, c, d];
  }
}
