/**
 The thread-local log stream: a fixed buffer of 5120 characters, and the integer conversions that
 write into it in place.
 */
module LogStream {
  import opened Common
  import opened Decimal

  const MAX_LENGTH: nat := 5120

  /** The two-sided digit table; `zero` points at its tenth character. */
  const TABLE := "9876543210123456789"
  const ZERO: nat := 9

  const MIN_VALUE: int := -0x8000_0000_0000_0000
  const MAX_VALUE: int := 0xFFFF_FFFF_FFFF_FFFF

  /** C's integer division and remainder by ten: rounding towards zero. */
  function Quotient(i: int): (r: int) { if i >= 0 then i / 10 else -((-i) / 10) }
  function Remainder(i: int): (r: int) { i - 10 * Quotient(i) }

  /** The table gives the last decimal digit of a value of either sign. */
  lemma TableGivesDigit(i: int)
    ensures -9 <= Remainder(i) <= 9
    ensures TABLE[ZERO + Remainder(i)] == DigitChar(Abs(i) % 10)
    ensures Abs(Quotient(i)) == Abs(i) / 10
  {
    var r := Remainder(i);
    assert Abs(r) == Abs(i) % 10;
    assert r in [-9, -8, -7, -6, -5, -4, -3, -2, -1, 0, 1, 2, 3, 4, 5, 6, 7, 8, 9];
  }

  lemma LastDigit(n: nat, b: Base)
    ensures n < b.Radix() ==> Backwards(n, b) == [DigitChar(b.Mod(n))] && b.Div(n) == 0
    ensures n >= b.Radix() ==> Backwards(n, b) == [DigitChar(b.Mod(n))] + Backwards(b.Div(n), b) && b.Div(n) > 0
  {
    var chars := Backwards(n, b);
    if n >= b.Radix() {
      assert Digits(n, b)[1..] == Digits(b.Div(n), b);
      assert chars[1..] == Backwards(b.Div(n), b);
    }
  }

  /** One turn of a digit loop: the next character continues what has been written. */
  lemma DigitStep(written: string, n: nat, b: Base, digits: string)
    requires written + Backwards(n, b) == digits
    ensures |written| < |digits|
    ensures var more := written + [DigitChar(b.Mod(n))];
            if b.Div(n) == 0 then more == digits else more + Backwards(b.Div(n), b) == digits
    ensures b.Div(n) != 0 ==> b.Div(n) < n
  {
    LastDigit(n, b);
    var rest := if b.Div(n) == 0 then "" else Backwards(b.Div(n), b);
    Regroup(written, DigitChar(b.Mod(n)), rest, Backwards(n, b));
  }

  lemma Regroup(written: string, c: char, rest: string, all: string)
    requires all == [c] + rest
    ensures written + all == written + [c] + rest
  {}

  /** Reading positions lo to hi from the other end reverses that part. */
  lemma Mirrored(was: string, now: string, lo: nat, hi: nat)
    requires lo <= hi <= |was| == |now|
    requires forall k :: 0 <= k < |was| ==> now[k] == was[if lo <= k < hi then lo + hi - 1 - k else k]
    ensures now[..lo] == was[..lo] && now[hi..] == was[hi..]
    ensures now[lo..hi] == Reversed(was[lo..hi])
  {
    forall k | 0 <= k < hi - lo ensures now[lo..hi][k] == Reversed(was[lo..hi])[k] {
      ReversedIndex(was[lo..hi], k);
    }
  }

  /** std::reverse on buf[lo..hi]. */
  method ReverseRange(buf: array<char>, lo: nat, hi: nat)
    requires lo <= hi <= buf.Length
    modifies buf
    ensures buf[..lo] == old(buf[..lo]) && buf[hi..] == old(buf[hi..])
    ensures buf[lo..hi] == Reversed(old(buf[lo..hi]))
  {
    var a, z := lo, hi;
    ghost var was := buf[..];
    while a < z && a < z - 1
      invariant lo <= a <= z <= hi && a - lo == hi - z
      invariant forall k :: 0 <= k < buf.Length && !(lo <= k < a) && !(z <= k < hi) ==> buf[k] == was[k]
      invariant forall k :: lo <= k < a ==> buf[k] == was[lo + hi - 1 - k]
      invariant forall k :: z <= k < hi ==> buf[k] == was[lo + hi - 1 - k]
    {
      buf[a], buf[z - 1] := buf[z - 1], buf[a];
      a, z := a + 1, z - 1;
    }
    Mirrored(was, buf[..], lo, hi);
    assert buf[..][lo..hi] == buf[lo..hi] && buf[..][..lo] == buf[..lo] && buf[..][hi..] == buf[hi..];
    assert was[lo..hi] == old(buf[lo..hi]) && was[..lo] == old(buf[..lo]) && was[hi..] == old(buf[hi..]);
  }

  /** *p++ = c */
  method Put(buf: array<char>, at: nat, p: nat, c: char)
    requires at <= p < buf.Length
    modifies buf
    ensures buf[..at] == old(buf[..at])
    ensures buf[at..p + 1] == old(buf[at..p]) + [c]
  {
    buf[p] := c;
  }

  /** The digit loop of convert: least significant digit first, through the two-sided table. */
  method WriteDigits(buf: array<char>, at: nat, value: int) returns (p: nat)
    requires at + |Backwards(Abs(value), Dec)| < buf.Length
    modifies buf
    ensures p == at + |Backwards(Abs(value), Dec)|
    ensures buf[at..p] == Backwards(Abs(value), Dec)
    ensures buf[..at] == old(buf[..at])
  {
    ghost var digits := Backwards(Abs(value), Dec);
    var i, more := value, true;
    p := at;
    while more
      invariant at <= p && p - at <= |digits|
      invariant buf[..at] == old(buf[..at])
      invariant more ==> buf[at..p] + Backwards(Abs(i), Dec) == digits
      invariant !more ==> buf[at..p] == digits
      decreases more, Abs(i)
    {
      TableGivesDigit(i);
      DigitStep(buf[at..p], Abs(i), Dec, digits);
      var lsd := Remainder(i);
      Put(buf, at, p, TABLE[ZERO + lsd]);
      i := Quotient(i);
      p := p + 1;
      more := i != 0;
    }
  }

  method WriteHexDigits(buf: array<char>, at: nat, value: nat) returns (p: nat)
    requires at + |Backwards(value, Hex)| < buf.Length
    modifies buf
    ensures p == at + |Backwards(value, Hex)|
    ensures buf[at..p] == Backwards(value, Hex)
    ensures buf[..at] == old(buf[..at])
  {
    ghost var digits := Backwards(value, Hex);
    var i, more := value, true;
    p := at;
    while more
      invariant at <= p && p - at <= |digits|
      invariant buf[..at] == old(buf[..at])
      invariant more ==> buf[at..p] + Backwards(i, Hex) == digits
      invariant !more ==> buf[at..p] == digits
      decreases more, i
    {
      DigitStep(buf[at..p], i, Hex, digits);
      Put(buf, at, p, HEX_DIGITS[i % 16]);
      i := i / 16;
      p := p + 1;
      more := i != 0;
    }
  }

  /** What convert has written before it reverses: the digits backwards, then the sign. */
  function SignedBackwards(value: int): (r: string) {
    Backwards(Abs(value), Dec) + (if value < 0 then "-" else "")
  }

  lemma SignedReversed(value: int)
    ensures Reversed(SignedBackwards(value)) == IntText(value)
    ensures |SignedBackwards(value)| == |IntText(value)|
  {
    var digits := Backwards(Abs(value), Dec);
    if value < 0 { ReversedAppend(digits, '-'); } else { assert digits + "" == digits; }
  }

  method WriteSigned(buf: array<char>, at: nat, value: int) returns (p: nat)
    requires at + |SignedBackwards(value)| < buf.Length
    modifies buf
    ensures p == at + |SignedBackwards(value)|
    ensures buf[at..p] == SignedBackwards(value)
    ensures buf[..at] == old(buf[..at])
  {
    p := WriteDigits(buf, at, value);
    if value < 0 {
      Put(buf, at, p, '-');
      p := p + 1;
    }
  }

  /** convert: decimal text of any value of an 8- to 64-bit type, written at `at`, followed by NUL. */
  method Convert(buf: array<char>, at: nat, value: int) returns (length: nat)
    requires MIN_VALUE <= value <= MAX_VALUE
    requires at + |IntText(value)| < buf.Length
    modifies buf
    ensures length == |IntText(value)| <= 20
    ensures buf[at..at + length] == IntText(value)
    ensures buf[..at] == old(buf[..at])
  {
    SixtyFourBitLength(value);
    SignedReversed(value);
    var p := WriteSigned(buf, at, value);
    Terminate(buf, at, p);
    ReverseRange(buf, at, p);
    length := p - at;
  }

  /** *p = NUL */
  method Terminate(buf: array<char>, at: nat, p: nat)
    requires at <= p < buf.Length
    modifies buf
    ensures buf[p] == '\0' && buf[..at] == old(buf[..at]) && buf[at..p] == old(buf[at..p])
  {
    buf[p] := '\0';
  }

  /** convertHex: upper-case hexadecimal text of a pointer-sized value. */
  method ConvertHex(buf: array<char>, at: nat, value: nat) returns (length: nat)
    requires value <= MAX_VALUE
    requires at + |NatText(value, Hex)| < buf.Length
    modifies buf
    ensures length == |NatText(value, Hex)| <= 16
    ensures buf[at..at + length] == NatText(value, Hex)
    ensures buf[..at] == old(buf[..at])
  {
    SixtyFourBitHexLength(value);
    var p := WriteHexDigits(buf, at, value);
    Terminate(buf, at, p);
    ReverseRange(buf, at, p);
    length := p - at;
  }

  /** LogSStreamBuf and the stream operators over it. */
  class StreamBuffer {
    const buf: array<char>
    var pos: nat

    ghost predicate Valid()
      reads this
    {
      buf.Length == MAX_LENGTH && pos <= MAX_LENGTH
    }

    ghost function Contents(): (s: string)
      reads this, buf
      requires Valid()
    {
      buf[..pos]
    }

    constructor ()
      ensures Valid() && fresh(buf) && buf.Length == 5120 && Contents() == ""
    {
      buf := new char[MAX_LENGTH](i => '\0');
      pos := 0;
    }

    method Free()
      requires Valid()
      modifies this`pos
      ensures Valid() && Contents() == ""
    {
      pos := 0;
    }

    method AppendChar(c: char)
      requires Valid() && pos < MAX_LENGTH
      modifies this`pos, buf
      ensures Valid() && Contents() == old(Contents()) + [c]
    {
      buf[pos] := c;
      pos := pos + 1;
    }

    method AppendText(s: string)
      requires Valid() && pos + |s| <= MAX_LENGTH
      modifies this`pos, buf
      ensures Valid() && Contents() == old(Contents()) + s
    {
      forall i | 0 <= i < |s| { buf[pos + i] := s[i]; }
      pos := pos + |s|;
    }

    /** operator<< of an integral value; the conversion also needs room for its NUL. */
    method AppendInt(n: int)
      requires Valid() && MIN_VALUE <= n <= MAX_VALUE && pos + |IntText(n)| < MAX_LENGTH
      modifies this`pos, buf
      ensures Valid() && Contents() == old(Contents()) + IntText(n)
    {
      var length := Convert(buf, pos, n);
      assert buf[..pos + length] == buf[..pos] + buf[pos..pos + length];
      pos := pos + length;
    }

    method GetSlice() returns (s: string)
      requires Valid()
      ensures s == Contents()
    {
      s := buf[..pos];
    }
  }
}
