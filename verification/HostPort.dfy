/**
 Splitting "host:port" at the last colon, and reading a port number.

 A C string is a text without NUL; the parser works on a copy of it, in which it overwrites the
 separators by NUL.
 */
module HostPort {
  import opened Common
  import opened Decimal

  predicate CString(s: string) { forall i :: 0 <= i < |s| ==> s[i] != '\0' }

  predicate HasColon(s: string) { exists i :: 0 <= i < |s| && s[i] == ':' }

  /** Both brackets of a bracketed address, section 3.2.2 of RFC 3986, or neither, are dropped. */
  function Unbracketed(host: string): (r: string) {
    if |host| >= 2 && host[0] == '[' && host[|host| - 1] == ']' then host[1..|host| - 1] else host
  }

  /** Position of the last colon. */
  function LastColon(s: string): (i: nat)
    requires HasColon(s)
    ensures i < |s| && s[i] == ':'
    ensures forall j :: i < j < |s| ==> s[j] != ':'
  {
    if s[|s| - 1] == ':' then |s| - 1
    else
      assert HasColon(s[..|s| - 1]) by {
        var i :| 0 <= i < |s| && s[i] == ':';
        assert s[..|s| - 1][i] == ':';
      }
      LastColon(s[..|s| - 1])
  }

  /** Host and port of an address; None is the invalid_argument of a text without colon. */
  function Split(s: string): (r: Option<(string, string)>) {
    if !HasColon(s) then None
    else var k := LastColon(s); Some((Unbracketed(s[..k]), s[k + 1..]))
  }

  /** The C string that starts at `at`. */
  function ReadFrom(buf: seq<char>, at: nat): (r: string)
    requires at <= |buf|
    decreases |buf| - at
  {
    if at == |buf| || buf[at] == '\0' then "" else [buf[at]] + ReadFrom(buf, at + 1)
  }

  lemma {:induction false} ReadFromIs(buf: seq<char>, at: nat, end: nat)
    requires at <= end < |buf| && buf[end] == '\0'
    requires forall i :: at <= i < end ==> buf[i] != '\0'
    ensures ReadFrom(buf, at) == buf[at..end]
    decreases end - at
  {
    if at < end {
      ReadFromIs(buf, at + 1, end);
      assert buf[at..end] == [buf[at]] + buf[at + 1..end];
    }
  }

  /** strrchr(s, ':'). */
  method FindLastColon(s: string) returns (k: int)
    ensures -1 <= k < |s|
    ensures k == -1 <==> !HasColon(s)
    ensures k >= 0 ==> HasColon(s) && k == LastColon(s)
  {
    k := |s| - 1;
    while k >= 0 && s[k] != ':'
      invariant -1 <= k < |s|
      invariant forall j :: k < j < |s| ==> s[j] != ':'
    {
      k := k - 1;
    }
    if k >= 0 { assert HasColon(s); }
  }

  lemma BracketsDropped(host: string, from: nat, to: nat)
    requires from <= to <= |host|
    requires if |host| > 0 && host[0] == '[' && host[|host| - 1] == ']'
             then from == 1 && to == |host| - 1 else from == 0 && to == |host|
    ensures Unbracketed(host) == host[from..to]
  {}

  /** What the two pointers designate in the copy, with NUL at the colon, at the end of the host and
      at the end of the text. */
  lemma CutCopy(s: string, copy: string, colon: nat, hostAt: nat, hostEnd: nat)
    requires CString(s) && hostAt <= hostEnd <= colon < |s| && |copy| == |s| + 1
    requires forall i :: 0 <= i <= |s| ==>
               copy[i] == if i == colon || i == hostEnd || i == |s| then '\0' else s[i]
    ensures ReadFrom(copy, hostAt) == s[hostAt..hostEnd]
    ensures ReadFrom(copy, colon + 1) == s[colon + 1..]
  {
    ReadFromIs(copy, hostAt, hostEnd);
    ReadFromIs(copy, colon + 1, |s|);
    assert copy[hostAt..hostEnd] == s[hostAt..hostEnd];
    assert copy[colon + 1..|s|] == s[colon + 1..];
  }

  /** HostAndPortParser: copy, cut at the last colon, and drop a pair of brackets. `host` and `port`
      are the strings its two pointers designate. */
  method ParseHostAndPort(s: string) returns (ok: bool, host: string, port: string)
    requires CString(s)
    ensures ok <==> HasColon(s)
    ensures ok ==> Split(s) == Some((host, port))
  {
    var colon := FindLastColon(s);
    if colon < 0 { return false, "", ""; }
    var buf := new char[|s| + 1](i => '\0');
    forall i | 0 <= i < |s| { buf[i] := s[i]; }
    buf[colon] := '\0';
    var hostAt, portAt := 0, colon + 1;
    ghost var hostEnd := colon;
    if buf[hostAt] == '[' && buf[colon - 1] == ']' {  // a '[' at the front means colon > 0
      buf[colon - 1] := '\0';
      hostAt := hostAt + 1;
      hostEnd := colon - 1;
    }
    CutCopy(s, buf[..], colon, hostAt, hostEnd);
    BracketsDropped(s[..colon], hostAt, hostEnd);
    assert s[..colon][hostAt..hostEnd] == s[hostAt..hostEnd];
    host, port := ReadFrom(buf[..], hostAt), ReadFrom(buf[..], portAt);
    return true, host, port;
  }

  ghost predicate Bracketed(host: string) { exists h :: host == "[" + h + "]" }

  /** A host in brackets loses them, and any other host is left as it is. */
  lemma BracketsExactly(host: string)
    ensures Unbracketed("[" + host + "]") == host
    ensures !Bracketed(host) ==> Unbracketed(host) == host
  {
    var b := "[" + host + "]";
    assert b[0] == '[' && b[|b| - 1] == ']' && b[1..|b| - 1] == host;
    if Unbracketed(host) != host {
      assert host == "[" + host[1..|host| - 1] + "]";
    }
  }

  /** Splitting recovers any host, even one with colons, and any port text without colon; brackets
      around the host are stripped exactly when both are there. */
  lemma SplitRecovers(host: string, port: string)
    requires !HasColon(port)
    ensures Split(host + ":" + port) == Some((Unbracketed(host), port))
    ensures !Bracketed(host) ==> Split(host + ":" + port) == Some((host, port))
    ensures forall h :: host == "[" + h + "]" ==> Split(host + ":" + port) == Some((h, port))
  {
    BracketsExactly(host);
    forall h | host == "[" + h + "]" ensures Unbracketed(host) == h { BracketsExactly(h); }
    var s := host + ":" + port;
    assert s[|host|] == ':';
    assert HasColon(s);
    var k := LastColon(s);
    assert forall j :: |host| < j < |s| ==> s[j] == port[j - |host| - 1];
    assert k == |host|;
    assert s[..k] == host && s[k + 1..] == port;
  }

  // ---------------------------------------------------------------------------
  // Ports
  // ---------------------------------------------------------------------------

  const MAX_PORT: nat := 65535

  predicate AllDigits(s: string) { forall i :: 0 <= i < |s| ==> '0' <= s[i] <= '9' }

  /** The texts getPortFromString accepts; the empty one stands for port 0. */
  predicate IsPort(s: string) { |s| <= 5 && AllDigits(s) && NatValue(s, Dec) <= MAX_PORT }

  lemma {:induction false} PrefixIsSmaller(s: string, i: nat)
    requires i <= |s|
    ensures NatValue(s[..i], Dec) <= NatValue(s, Dec)
    decreases |s| - i
  {
    if i == |s| {
      assert s[..i] == s;
    } else {
      PrefixIsSmaller(s, i + 1);
      assert s[..i + 1][..i] == s[..i];
    }
  }

  method GetPortFromString(s: string) returns (port: Option<nat>)
    ensures port.Some? <==> IsPort(s)
    ensures port.Some? ==> port.value == NatValue(s, Dec)
  {
    var number := 0;
    if |s| > 5 { return None; }
    var i := 0;
    while i < |s|
      invariant 0 <= i <= |s|
      invariant forall j :: 0 <= j < i ==> '0' <= s[j] <= '9'
      invariant number == NatValue(s[..i], Dec) <= MAX_PORT
    {
      if s[i] > '9' || s[i] < '0' { return None; }
      number := number * 10 + (s[i] - '0') as nat;
      assert s[..i + 1][..i] == s[..i];
      if number >= MAX_PORT + 1 {
        PrefixIsSmaller(s, i + 1);
        return None;
      }
      i := i + 1;
    }
    assert s[..|s|] == s;
    return Some(number);
  }

  /** The printed form of a port is accepted and stands for it. */
  lemma PortRoundTrip(port: nat)
    requires port <= 65535
    ensures IsPort(NatText(port, Dec)) && NatValue(NatText(port, Dec), Dec) == port
    ensures !HasColon(NatText(port, Dec))
  {
    DigitsReadBack(port, Dec);
    NatTextIsCanonical(port, Dec);
    assert Power(2, Dec) == 100;
    assert Power(5, Dec) == 100000;
    DigitCount(port, 5, Dec);
    var t := NatText(port, Dec);
    assert forall i :: 0 <= i < |t| ==> IsDigit(t[i], Dec);
  }

  /** toString of an address, read back: the host without its brackets, and the port. */
  lemma AddressRoundTrip(host: string, port: nat)
    requires port <= MAX_PORT
    ensures var text := host + ":" + NatText(port, Dec);
            && Split(text).Some?
            && Split(text).value.0 == Unbracketed(host)
            && IsPort(Split(text).value.1)
            && NatValue(Split(text).value.1, Dec) == port
  {
    PortRoundTrip(port);
    SplitRecovers(host, NatText(port, Dec));
  }

  // ---------------------------------------------------------------------------
  // IPv4 addresses as text
  // ---------------------------------------------------------------------------

  const ADDRESS_RANGE: nat := 0x1_0000_0000

  /** The fields of `s` between separators. */
  function Fields(s: string, sep: char): (r: seq<string>)
    ensures r != []
  {
    if s == "" then [""]
    else
      var rest := Fields(s[1..], sep);
      if s[0] == sep then [""] + rest else [[s[0]] + rest[0]] + rest[1..]
  }

  function Joined(parts: seq<string>, sep: char): (r: string) {
    if parts == [] then ""
    else if |parts| == 1 then parts[0]
    else parts[0] + [sep] + Joined(parts[1..], sep)
  }

  lemma {:induction false} FieldsOfText(part: string, s: string, sep: char)
    requires sep !in part
    ensures Fields(part + s, sep) == [part + Fields(s, sep)[0]] + Fields(s, sep)[1..]
    decreases part
  {
    var f := Fields(s, sep);
    if part == "" {
      assert part + s == s && part + f[0] == f[0];
      assert [f[0]] + f[1..] == f;
    } else {
      assert (part + s)[0] == part[0] && (part + s)[1..] == part[1..] + s;
      FieldsOfText(part[1..], s, sep);
      assert [part[0]] + (part[1..] + f[0]) == part + f[0];
    }
  }

  /** Splitting inverts joining. */
  lemma {:induction false} FieldsOfJoined(parts: seq<string>, sep: char)
    requires parts != [] && forall i :: 0 <= i < |parts| ==> sep !in parts[i]
    ensures Fields(Joined(parts, sep), sep) == parts
    decreases parts
  {
    if |parts| == 1 {
      FieldsOfText(parts[0], "", sep);
      assert parts[0] + "" == parts[0];
      assert [parts[0] + ""] + [""][1..] == parts;
    } else {
      var rest := [sep] + Joined(parts[1..], sep);
      FieldsOfJoined(parts[1..], sep);
      assert rest[1..] == Joined(parts[1..], sep);
      assert Fields(rest, sep) == [""] + parts[1..];
      FieldsOfText(parts[0], rest, sep);
      assert parts[0] + [sep] + Joined(parts[1..], sep) == parts[0] + rest;
      assert parts[0] + "" == parts[0];
      assert [parts[0]] + parts[1..] == parts;
    }
  }

  /** The four bytes of an address, most significant first. */
  function Octets(a: nat): (r: seq<nat>)
    requires a < ADDRESS_RANGE
    ensures |r| == 4
  {
    [a / 0x100_0000 % 0x100, a / 0x1_0000 % 0x100, a / 0x100 % 0x100, a % 0x100]
  }

  /** IPV4Address::getAddressStr. */
  function DottedText(a: nat): (r: string)
    requires a < ADDRESS_RANGE
  {
    Joined(OctetTexts(a), '.')
  }

  /** The address that four decimal fields stand for. */
  function DottedValue(s: string): (r: Option<nat>) {
    var f := Fields(s, '.');
    if |f| != 4 then None
    else Some(FromOctets([NatValue(f[0], Dec), NatValue(f[1], Dec), NatValue(f[2], Dec), NatValue(f[3], Dec)]))
  }

  function FromOctets(o: seq<nat>): (a: nat)
    requires |o| == 4
  {
    ((o[0] * 0x100 + o[1]) * 0x100 + o[2]) * 0x100 + o[3]
  }

  lemma DigitsOnly(n: nat)
    ensures NatText(n, Dec) != "" && forall c :: c in NatText(n, Dec) ==> '0' <= c <= '9'
  {
    NatTextIsCanonical(n, Dec);
    var t := NatText(n, Dec);
    forall c | c in t ensures '0' <= c <= '9' {
      var i :| 0 <= i < |t| && t[i] == c;
      assert IsDigit(t[i], Dec);
    }
  }

  lemma OctetsMakeTheAddress(a: nat)
    requires a < ADDRESS_RANGE
    ensures FromOctets(Octets(a)) == a
  {
    var b := a / 0x100;
    var c := b / 0x100;
    var d := c / 0x100;
    assert a / 0x1_0000 == c && a / 0x100_0000 == d && d < 0x100;
    assert a == b * 0x100 + a % 0x100 && b == c * 0x100 + b % 0x100 && c == d * 0x100 + c % 0x100;
  }

  /** The fields of the dotted text. */
  function OctetTexts(a: nat): (r: seq<string>)
    requires a < ADDRESS_RANGE
    ensures |r| == 4
  {
    var o := Octets(a);
    [NatText(o[0], Dec), NatText(o[1], Dec), NatText(o[2], Dec), NatText(o[3], Dec)]
  }

  lemma OctetText(a: nat, i: nat)
    requires a < ADDRESS_RANGE && i < 4
    ensures NatValue(OctetTexts(a)[i], Dec) == Octets(a)[i]
    ensures OctetTexts(a)[i] != "" && forall c :: c in OctetTexts(a)[i] ==> '0' <= c <= '9'
  {
    DigitsOnly(Octets(a)[i]);
    DigitsReadBack(Octets(a)[i], Dec);
  }

  lemma DottedCharacters(a: nat)
    requires a < ADDRESS_RANGE
    ensures DottedText(a) != "" && forall c :: c in DottedText(a) ==> '0' <= c <= '9' || c == '.'
  {
    forall i | 0 <= i < 4
      ensures OctetTexts(a)[i] != "" && forall c :: c in OctetTexts(a)[i] ==> '0' <= c <= '9'
    {
      OctetText(a, i);
    }
    JoinedCharacters(OctetTexts(a), '.');
  }

  lemma DottedFields(a: nat)
    requires a < ADDRESS_RANGE
    ensures Fields(DottedText(a), '.') == OctetTexts(a)
  {
    forall i | 0 <= i < 4 ensures '.' !in OctetTexts(a)[i] { OctetText(a, i); }
    FieldsOfJoined(OctetTexts(a), '.');
  }

  lemma OctetsReadBack(a: nat, f: seq<string>)
    requires a < ADDRESS_RANGE && f == OctetTexts(a)
    ensures [NatValue(f[0], Dec), NatValue(f[1], Dec), NatValue(f[2], Dec), NatValue(f[3], Dec)] == Octets(a)
  {
    OctetText(a, 0);
    OctetText(a, 1);
    OctetText(a, 2);
    OctetText(a, 3);
  }

  lemma DottedRoundTrip(a: nat)
    requires a < ADDRESS_RANGE
    ensures DottedValue(DottedText(a)) == Some(a)
  {
    DottedFields(a);
    OctetsReadBack(a, OctetTexts(a));
    OctetsMakeTheAddress(a);
  }

  lemma {:induction false} JoinedCharacters(parts: seq<string>, sep: char)
    ensures forall c :: c in Joined(parts, sep) ==> c == sep || exists i :: 0 <= i < |parts| && c in parts[i]
    ensures parts != [] ==> |Joined(parts, sep)| >= |parts[0]|
    decreases parts
  {
    if |parts| > 1 {
      JoinedCharacters(parts[1..], sep);
      forall c | c in Joined(parts, sep) && c != sep ensures exists i :: 0 <= i < |parts| && c in parts[i] {
        if c !in parts[0] {
          var i :| 0 <= i < |parts[1..]| && c in parts[1..][i];
          assert c in parts[i + 1];
        }
      }
    }
  }

  /** toString of an IPv4 address and port, read back: the dotted text is recovered unchanged and
      stands for the address, the rest for the port. */
  lemma IPv4RoundTrip(a: nat, port: nat)
    requires a < ADDRESS_RANGE && port <= MAX_PORT
    ensures var text := DottedText(a) + ":" + NatText(port, Dec);
            && Split(text) == Some((DottedText(a), NatText(port, Dec)))
            && DottedValue(DottedText(a)) == Some(a)
            && IsPort(NatText(port, Dec)) && NatValue(NatText(port, Dec), Dec) == port
  {
    DottedRoundTrip(a);
    DottedCharacters(a);
    PortRoundTrip(port);
    SplitRecovers(DottedText(a), NatText(port, Dec));
    assert DottedText(a)[0] in DottedText(a);
  }

  /** The largest port and the first number that is none. */
  lemma PortBoundary()
    ensures IsPort("65535") && !IsPort("65536")
  {
    DigitsReadBack(65535, Dec);
    DigitsReadBack(65536, Dec);
    assert NatText(65535, Dec) == "65535" by { PortText(65535, 5); }
    assert NatText(65536, Dec) == "65536" by { PortText(65536, 6); }
  }

  lemma PortText(n: nat, last: nat)
    requires n == 65530 + last && last < 7
    ensures NatText(n, Dec) == "6553" + [DigitChar(last)]
  {
    OneDigitText(6, Dec);
    AppendDigit(6, 5, Dec);
    AppendDigit(65, 5, Dec);
    AppendDigit(655, 3, Dec);
    AppendDigit(6553, last, Dec);
    assert DigitChar(6) == '6' && DigitChar(5) == '5' && DigitChar(3) == '3';
  }

  /** No digits at all are accepted as port 0. */
  lemma EmptyPortIsZero()
    ensures IsPort("") && NatValue("", Dec) == 0
  {}
}
