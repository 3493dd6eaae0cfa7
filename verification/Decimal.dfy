/**
 Integer text: what `convert` and `convertHex` are meant to write, and the reading back of it.
 */
module Decimal {
  import opened Common

  const HEX_DIGITS := "0123456789ABCDEF"

  datatype Base = Dec | Hex {
    function Radix(): (r: nat)
      ensures r == 10 || r == 16
    {
      if Dec? then 10 else 16
    }
    function Div(n: nat): (r: nat) { if Dec? then n / 10 else n / 16 }
    function Mod(n: nat): (r: nat)
      ensures r < Radix()
    {
      if Dec? then n % 10 else n % 16
    }
    function Times(n: nat): (r: nat) { if Dec? then n * 10 else n * 16 }
  }

  /** Digits of `n`, least significant first. */
  function Digits(n: nat, b: Base): (r: seq<nat>)
    ensures r != [] && forall i :: 0 <= i < |r| ==> r[i] < b.Radix()
  {
    if n < b.Radix() then [n] else [b.Mod(n)] + Digits(b.Div(n), b)
  }

  function DigitChar(d: nat): (c: char)
    requires d < 16
  {
    HEX_DIGITS[d]
  }

  /** Characters of the digits, least significant first. */
  function DigitChars(ds: seq<nat>): (r: string)
    requires forall i :: 0 <= i < |ds| ==> ds[i] < 16
    ensures |r| == |ds| && forall i :: 0 <= i < |ds| ==> r[i] == DigitChar(ds[i])
  {
    if ds == [] then [] else [DigitChar(ds[0])] + DigitChars(ds[1..])
  }

  function Backwards(n: nat, b: Base): (r: string)
    ensures r != ""
  {
    DigitChars(Digits(n, b))
  }

  function Abs(v: int): (r: nat) { if v < 0 then -v else v }

  /** Canonical text of an unsigned value. */
  function NatText(n: nat, b: Base): (r: string)
  {
    Reversed(Backwards(n, b))
  }

  /** Canonical decimal text of any integer. */
  function IntText(v: int): (r: string) {
    (if v < 0 then "-" else "") + NatText(Abs(v), Dec)
  }

  // ---------------------------------------------------------------------------
  // Reading
  // ---------------------------------------------------------------------------

  predicate IsDigit(c: char, b: Base) { '0' <= c <= '9' || (b.Hex? && 'A' <= c <= 'F') }

  function DigitValue(c: char): (d: nat) {
    if '0' <= c <= '9' then (c - '0') as nat else if 'A' <= c <= 'F' then (c - 'A') as nat + 10 else 0
  }

  lemma DigitValueOf(d: nat)
    requires d < 16
    ensures DigitValue(DigitChar(d)) == d
    ensures IsDigit(DigitChar(d), Hex) && (d < 10 ==> IsDigit(DigitChar(d), Dec))
    ensures DigitChar(d) == '0' <==> d == 0
  {
    assert HEX_DIGITS[d] in HEX_DIGITS;
  }

  lemma DigitCharOf(c: char, b: Base)
    requires IsDigit(c, b)
    ensures DigitValue(c) < b.Radix() && DigitChar(DigitValue(c)) == c
  {
    var d := DigitValue(c);
    assert d in [0, 1, 2, 3, 4, 5, 6, 7, 8, 9, 10, 11, 12, 13, 14, 15];
  }

  /** Value of a text of digits, read from the left. */
  function NatValue(s: string, b: Base): (n: nat) {
    if s == "" then 0 else b.Times(NatValue(s[..|s| - 1], b)) + DigitValue(s[|s| - 1])
  }

  function IntValue(s: string): (v: int) {
    if s != "" && s[0] == '-' then 0 - NatValue(s[1..], Dec) else NatValue(s, Dec)
  }

  /** Digits only, at least one, and no leading zero except in "0" itself. */
  predicate CanonicalNat(s: string, b: Base) {
    && s != ""
    && (forall i :: 0 <= i < |s| ==> IsDigit(s[i], b))
    && (|s| > 1 ==> s[0] != '0')
  }

  /** A canonical unsigned text, or a minus sign followed by one that is not "0". */
  predicate CanonicalInt(s: string) {
    CanonicalNat(s, Dec) || (s != "" && s[0] == '-' && CanonicalNat(s[1..], Dec) && s[1..] != "0")
  }

  lemma {:induction false} DigitsReadBack(n: nat, b: Base)
    ensures NatValue(NatText(n, b), b) == n
    decreases n
  {
    var ds := Digits(n, b);
    var chars := DigitChars(ds);
    if n < b.Radix() {
      assert chars == [DigitChar(n)];
      assert chars[1..] == [];
      assert Reversed(chars) == chars;
      assert chars[..0] == "";
      DigitValueOf(n);
    } else {
      DigitsReadBack(b.Div(n), b);
      var rest := Digits(b.Div(n), b);
      assert ds[1..] == rest;
      assert chars[1..] == DigitChars(rest);
      var t := Reversed(chars);
      assert t[..|t| - 1] == NatText(b.Div(n), b) && t[|t| - 1] == DigitChar(b.Mod(n));
      DigitValueOf(b.Mod(n));
    }
  }

  /** Appending a digit multiplies the value and extends the text. */
  lemma AppendDigit(q: nat, d: nat, b: Base)
    requires q > 0 && d < b.Radix()
    ensures NatText(b.Times(q) + d, b) == NatText(q, b) + [DigitChar(d)]
  {
    var n := b.Times(q) + d;
    assert b.Div(n) == q && b.Mod(n) == d && n >= b.Radix();
    assert Digits(n, b)[1..] == Digits(q, b);
    var chars := Backwards(n, b);
    assert chars[0] == DigitChar(d) && chars[1..] == Backwards(q, b);
  }

  lemma OneDigitText(d: nat, b: Base)
    requires d < b.Radix()
    ensures NatText(d, b) == [DigitChar(d)]
  {
    var chars := Backwards(d, b);
    assert chars == [DigitChar(d)] && chars[1..] == [];
  }

  lemma {:induction false} NatTextIsCanonical(n: nat, b: Base)
    ensures CanonicalNat(NatText(n, b), b)
    ensures n > 0 ==> NatText(n, b)[0] != '0'
    decreases n
  {
    if n < b.Radix() {
      OneDigitText(n, b);
      DigitValueOf(n);
    } else {
      NatTextIsCanonical(b.Div(n), b);
      AppendDigit(b.Div(n), b.Mod(n), b);
      DigitValueOf(b.Mod(n));
    }
  }

  /** Printing and reading back is the identity, and what is printed is canonical. */
  lemma IntRoundTrip(v: int)
    ensures IntValue(IntText(v)) == v
    ensures CanonicalInt(IntText(v))
  {
    var t := NatText(Abs(v), Dec);
    DigitsReadBack(Abs(v), Dec);
    NatTextIsCanonical(Abs(v), Dec);
    if v < 0 {
      assert IntText(v)[1..] == t;
      ZeroText();
    } else {
      assert IntText(v) == t;
      assert IsDigit(t[0], Dec);
    }
  }

  lemma ZeroText()
    ensures NatValue("0", Dec) == 0
  {
    assert ("0")[..0] == "";
  }

  // ---------------------------------------------------------------------------
  // There is only one canonical text
  // ---------------------------------------------------------------------------

  lemma CanonicalPrefix(s: string, b: Base)
    requires CanonicalNat(s, b) && |s| > 1
    ensures CanonicalNat(s[..|s| - 1], b) && s[..|s| - 1] != "0"
  {
    var init := s[..|s| - 1];
    assert forall i :: 0 <= i < |init| ==> init[i] == s[i];
  }

  lemma {:induction false} CanonicalNatIsUnique(s: string, b: Base)
    requires CanonicalNat(s, b)
    ensures NatText(NatValue(s, b), b) == s
    ensures s != "0" ==> NatValue(s, b) > 0
    decreases |s|
  {
    var init, last := s[..|s| - 1], s[|s| - 1];
    assert s == init + [last];
    DigitCharOf(last, b);
    if |s| == 1 {
      OneDigitText(DigitValue(last), b);
      assert init == "";
    } else {
      CanonicalPrefix(s, b);
      CanonicalNatIsUnique(init, b);
      AppendDigit(NatValue(init, b), DigitValue(last), b);
    }
  }

  /** Reading a canonical text and printing it again gives the same text. */
  lemma CanonicalIntIsUnique(s: string)
    requires CanonicalInt(s)
    ensures IntText(IntValue(s)) == s
  {
    if s[0] == '-' {
      var t := s[1..];
      assert s == "-" + t;
      CanonicalNatIsUnique(t, Dec);
    } else {
      CanonicalNatIsUnique(s, Dec);
      assert "" + s == s;
    }
  }

  // ---------------------------------------------------------------------------
  // Length
  // ---------------------------------------------------------------------------

  function Power(e: nat, b: Base): (r: nat) { if e == 0 then 1 else b.Times(Power(e - 1, b)) }

  lemma {:induction false} DigitCount(n: nat, e: nat, b: Base)
    requires n < Power(e, b) && e > 0
    ensures |Digits(n, b)| <= e
    decreases e
  {
    if n >= b.Radix() { DigitCount(b.Div(n), e - 1, b); }
  }

  /** Every value of a 64-bit type, signed or unsigned, has at most 20 characters. */
  lemma SixtyFourBitLength(v: int)
    requires -0x8000_0000_0000_0000 <= v <= 0xFFFF_FFFF_FFFF_FFFF
    ensures |IntText(v)| <= 20
  {
    assert Power(4, Dec) == 10000;
    assert Power(8, Dec) == 100000000;
    assert Power(12, Dec) == 1000000000000;
    assert Power(16, Dec) == 10000000000000000;
    assert Power(19, Dec) == 10000000000000000000;
    if v < 0 { DigitCount(Abs(v), 19, Dec); } else { DigitCount(v, 20, Dec); }
  }

  /** Every 64-bit value has at most 16 hexadecimal digits. */
  lemma SixtyFourBitHexLength(v: nat)
    requires v <= 0xFFFF_FFFF_FFFF_FFFF
    ensures |NatText(v, Hex)| <= 16
  {
    assert Power(4, Hex) == 0x1_0000;
    assert Power(8, Hex) == 0x1_0000_0000;
    assert Power(12, Hex) == 0x1_0000_0000_0000;
    DigitCount(v, 16, Hex);
  }
}
