/**
 The log pattern parser: `logPatternParse` splits a pattern into literal text and directives
 `%key{format}`.
 */
module LogPattern {
  /** Literal text (third tuple component 0), or a directive (1). */
  datatype Token = Literal(text: string) | Directive(key: string, format: string)

  const ERROR_TEXT := "<<pattern_error>>"

  /** isalpha in the C locale. */
  predicate IsAlpha(c: char) { 'a' <= c <= 'z' || 'A' <= c <= 'Z' }

  /** What the scan of a key steps over: letters, and also closing braces. */
  predicate IsKeyChar(c: char) { IsAlpha(c) || c == '}' }

  // ---------------------------------------------------------------------------
  // The parser as a function
  // ---------------------------------------------------------------------------

  /** Length of the key at the beginning of `s`. */
  function KeyLength(s: string): (n: nat)
    ensures n <= |s|
    ensures forall i :: 0 <= i < n ==> IsKeyChar(s[i])
    ensures n < |s| ==> !IsKeyChar(s[n])
  {
    if s == [] || !IsKeyChar(s[0]) then 0 else 1 + KeyLength(s[1..])
  }

  /** Position of the first closing brace of `s`, or its length. */
  function BraceAt(s: string): (n: nat)
    ensures n <= |s|
    ensures forall i :: 0 <= i < n ==> s[i] != '}'
    ensures n < |s| ==> s[n] == '}'
  {
    if s == [] || s[0] == '}' then 0 else 1 + BraceAt(s[1..])
  }

  /** What follows a `%`: a key, a key with a format, or a format that is never closed. */
  datatype Scan = Plain(key: string) | Formatted(key: string, format: string) | Unclosed

  function ScanKey(s: string): (r: Scan) {
    var k := KeyLength(s);
    if k == |s| || s[k] != '{' then Plain(s[..k])
    else
      var f := s[k + 1..];
      var b := BraceAt(f);
      if b == |f| then Unclosed else Formatted(s[..k], f[..b])
  }

  /** How much of the text the scan consumed. */
  function ScanLength(r: Scan): (n: nat) {
    match r
    case Plain(key) => |key|
    case Formatted(key, format) => |key| + 1 + |format| + 1
    case Unclosed => 0
  }

  lemma ScanFits(s: string)
    ensures ScanLength(ScanKey(s)) <= |s|
  {}

  function Pending(literal: string): (r: seq<Token>) {
    if literal == "" then [] else [Literal(literal)]
  }

  function ScanToken(r: Scan): (t: Token)
    requires !r.Unclosed?
  {
    if r.Plain? then Directive(r.key, "") else Directive(r.key, r.format)
  }

  /** The tokens of `s` when `literal` has been collected but not emitted yet. */
  function ParseFrom(s: string, literal: string): (r: seq<Token>)
    decreases |s|
  {
    if s == [] then Pending(literal)
    else if s[0] != '%' then ParseFrom(s[1..], literal + [s[0]])
    else if |s| > 1 && s[1] == '%' then ParseFrom(s[1..], literal + "%")
    else
      var r := ScanKey(s[1..]);
      ScanFits(s[1..]);
      if r.Unclosed? then [Literal(ERROR_TEXT)] + ParseFrom(s[1..], literal)
      else Pending(literal) + [ScanToken(r)] + ParseFrom(s[1..][ScanLength(r)..], "")
  }

  function Parse(s: string): (r: seq<Token>) { ParseFrom(s, "") }

  /** How often the parser reports an unclosed format. */
  function Errors(s: string): (n: nat)
    decreases |s|
  {
    if s == [] then 0
    else if s[0] != '%' || (|s| > 1 && s[1] == '%') then Errors(s[1..])
    else
      var r := ScanKey(s[1..]);
      ScanFits(s[1..]);
      if r.Unclosed? then 1 + Errors(s[1..]) else Errors(s[1..][ScanLength(r)..])
  }

  // ---------------------------------------------------------------------------
  // Printing
  // ---------------------------------------------------------------------------

  function PrintToken(t: Token): (r: string) {
    match t
    case Literal(text) => text
    case Directive(key, format) => "%" + key + "{" + format + "}"
  }

  function Print(ts: seq<Token>): (r: string) {
    if ts == [] then "" else PrintToken(ts[0]) + Print(ts[1..])
  }

  // ---------------------------------------------------------------------------
  // The token lists that survive printing and parsing
  // ---------------------------------------------------------------------------

  predicate NoPercent(s: string) { forall i :: 0 <= i < |s| ==> s[i] != '%' }

  /** Plain text followed by `percents` percent signs. */
  predicate EndsInPercents(s: string, percents: nat) {
    && percents <= |s|
    && NoPercent(s[..|s| - percents])
    && forall i :: |s| - percents <= i < |s| ==> s[i] == '%'
  }

  /** Percent signs only at the end, and only where a directive follows. */
  predicate GoodText(text: string, directiveFollows: bool) {
    && text != ""
    && exists p :: 0 <= p <= |text| && EndsInPercents(text, p) && (p > 0 ==> directiveFollows)
  }

  predicate GoodDirective(key: string, format: string) {
    && (forall i :: 0 <= i < |key| ==> IsKeyChar(key[i]))
    && (forall i :: 0 <= i < |format| ==> format[i] != '}')
  }

  /** No two literals in a row, good literals, good directives. */
  predicate Canonical(ts: seq<Token>) {
    ts == [] ||
    (&& Canonical(ts[1..])
     && match ts[0]
        case Literal(text) =>
          && (|ts| > 1 ==> ts[1].Directive?)
          && GoodText(text, |ts| > 1)
        case Directive(key, format) => GoodDirective(key, format))
  }

  // ---------------------------------------------------------------------------
  // Canonical lists survive
  // ---------------------------------------------------------------------------

  lemma {:induction false} PlainTextIsCollected(plain: string, s: string, literal: string)
    requires NoPercent(plain)
    ensures ParseFrom(plain + s, literal) == ParseFrom(s, literal + plain)
    decreases plain
  {
    if plain == [] {
      assert plain + s == s && literal + plain == literal;
    } else {
      assert (plain + s)[1..] == plain[1..] + s;
      PlainTextIsCollected(plain[1..], s, literal + [plain[0]]);
      assert literal + [plain[0]] + plain[1..] == literal + plain;
    }
  }

  lemma {:induction false} PercentsAreCollected(percents: string, s: string, literal: string)
    requires forall i :: 0 <= i < |percents| ==> percents[i] == '%'
    requires s != [] && s[0] == '%'
    ensures ParseFrom(percents + s, literal) == ParseFrom(s, literal + percents)
    decreases percents
  {
    if percents == [] {
      assert percents + s == s && literal + percents == literal;
    } else {
      var all := percents + s;
      assert all[1..] == percents[1..] + s;
      assert all[0] == '%' && all[1] == '%';
      PercentsAreCollected(percents[1..], s, literal + "%");
      assert literal + "%" + percents[1..] == literal + percents;
    }
  }

  lemma {:induction false} KeyLengthOf(key: string, s: string)
    requires forall i :: 0 <= i < |key| ==> IsKeyChar(key[i])
    requires s != [] && !IsKeyChar(s[0])
    ensures KeyLength(key + s) == |key|
    decreases key
  {
    if key == [] {
      assert key + s == s;
    } else {
      assert (key + s)[1..] == key[1..] + s;
      KeyLengthOf(key[1..], s);
    }
  }

  lemma {:induction false} BraceAtOf(format: string, s: string)
    requires forall i :: 0 <= i < |format| ==> format[i] != '}'
    requires s != [] && s[0] == '}'
    ensures BraceAt(format + s) == |format|
    decreases format
  {
    if format == [] {
      assert format + s == s;
    } else {
      assert (format + s)[1..] == format[1..] + s;
      BraceAtOf(format[1..], s);
    }
  }

  lemma DirectiveIsScanned(key: string, format: string, s: string)
    requires GoodDirective(key, format)
    ensures ScanKey(key + "{" + format + "}" + s) == Formatted(key, format)
  {
    var tail := "{" + format + "}" + s;
    assert key + "{" + format + "}" + s == key + tail;
    KeyLengthOf(key, tail);
    assert (key + tail)[..|key|] == key && (key + tail)[|key|] == '{';
    var f := (key + tail)[|key| + 1..];
    assert f == format + ("}" + s);
    BraceAtOf(format, "}" + s);
    assert f[..|format|] == format;
  }

  lemma DirectiveInParts(key: string, format: string, s: string, body: string)
    requires body == key + "{" + format + "}" + s
    ensures PrintToken(Directive(key, format)) + s == "%" + body
    ensures |key| + 1 + |format| + 1 <= |body| && body[|key| + 1 + |format| + 1..] == s
    ensures body[0] == if key == [] then '{' else key[0]
  {}

  /** One turn of the parser at a `%` that does not precede another one. */
  lemma ParseTurn(all: string, body: string, literal: string)
    requires |all| > 1 && all[0] == '%' && all[1] != '%' && all[1..] == body && !ScanKey(body).Unclosed?
    ensures ScanLength(ScanKey(body)) <= |body|
    ensures ParseFrom(all, literal)
            == Pending(literal) + [ScanToken(ScanKey(body))] + ParseFrom(body[ScanLength(ScanKey(body))..], "")
  {
    ScanFits(body);
  }

  lemma ScannedDirective(body: string, key: string, format: string, s: string, literal: string)
    requires ScanKey(body) == Formatted(key, format) && body != "" && body[0] != '%'
    requires |key| + 1 + |format| + 1 <= |body| && body[|key| + 1 + |format| + 1..] == s
    ensures ParseFrom("%" + body, literal) == Pending(literal) + [Directive(key, format)] + ParseFrom(s, "")
  {
    var all := "%" + body;
    assert all[1..] == body && all[1] == body[0];
    ParseTurn(all, body, literal);
    assert ScanLength(ScanKey(body)) == |key| + 1 + |format| + 1;
  }

  lemma DirectiveIsParsed(key: string, format: string, s: string, literal: string)
    requires GoodDirective(key, format)
    ensures ParseFrom(PrintToken(Directive(key, format)) + s, literal)
            == Pending(literal) + [Directive(key, format)] + ParseFrom(s, "")
  {
    var body := key + "{" + format + "}" + s;
    DirectiveInParts(key, format, s, body);
    DirectiveIsScanned(key, format, s);
    ScannedDirective(body, key, format, s, literal);
  }

  lemma SplitTextIsCollected(plain: string, tail: string, s: string)
    requires NoPercent(plain)
    requires forall i :: 0 <= i < |tail| ==> tail[i] == '%'
    requires tail != [] ==> s != [] && s[0] == '%'
    ensures ParseFrom(plain + (tail + s), []) == ParseFrom(s, plain + tail)
  {
    PlainTextIsCollected(plain, tail + s, []);
    assert [] + plain == plain;
    if tail == [] {
      assert tail + s == s && plain + tail == plain;
    } else {
      PercentsAreCollected(tail, s, plain);
    }
  }

  lemma SplitText(text: string, n: nat, s: string)
    requires n <= |text|
    ensures text == text[..n] + text[n..]
    ensures text + s == text[..n] + (text[n..] + s)
  {}

  lemma LiteralIsCollected(text: string, percents: nat, s: string, all: string)
    requires EndsInPercents(text, percents) && all == text + s
    requires percents > 0 ==> s != [] && s[0] == '%'
    ensures ParseFrom(all, "") == ParseFrom(s, text)
  {
    var plain, tail := text[..|text| - percents], text[|text| - percents..];
    SplitText(text, |text| - percents, s);
    assert all == plain + (tail + s) && text == plain + tail;
    SplitTextIsCollected(plain, tail, s);
  }

  lemma PendingIsEmitted(s: string, text: string, key: string, format: string, rest: string)
    requires text != "" && GoodDirective(key, format)
    requires s == PrintToken(Directive(key, format)) + rest
    ensures ParseFrom(s, text) == [Literal(text)] + ParseFrom(s, "")
  {
    DirectiveIsParsed(key, format, rest, text);
    DirectiveIsParsed(key, format, rest, "");
    EmittedFirst(text, Directive(key, format), ParseFrom(rest, ""));
  }

  lemma EmittedFirst(text: string, t: Token, tail: seq<Token>)
    requires text != ""
    ensures Pending(text) + [t] + tail == [Literal(text)] + (Pending("") + [t] + tail)
  {}

  lemma LoneLiteral(text: string)
    requires GoodText(text, false)
    ensures ParseFrom(text, "") == [Literal(text)]
  {
    assert text[..|text|] == text;
    assert NoPercent(text);
    PlainTextIsCollected(text, "", "");
    assert text + "" == text && "" + text == text;
  }

  lemma FirstDirective(ts: seq<Token>)
    requires ts != [] && Canonical(ts) && ts[0].Directive?
    ensures Canonical(ts[1..]) && GoodDirective(ts[0].key, ts[0].format)
    ensures Pending("") + [ts[0]] + ts[1..] == ts
  {}

  lemma FirstLiteral(ts: seq<Token>)
    requires ts != [] && Canonical(ts) && ts[0].Literal?
    ensures Canonical(ts[1..]) && GoodText(ts[0].text, |ts| > 1) && [ts[0]] + ts[1..] == ts
  {}

  lemma {:induction false} CanonicalSurvives(ts: seq<Token>)
    requires Canonical(ts)
    ensures Parse(Print(ts)) == ts
    decreases ts
  {
    if ts != [] {
      if ts[0].Directive? {
        FirstDirective(ts);
        CanonicalSurvives(ts[1..]);
        DirectiveIsParsed(ts[0].key, ts[0].format, Print(ts[1..]), "");
      } else if |ts| == 1 {
        FirstLiteral(ts);
        LoneLiteral(ts[0].text);
        assert Print(ts) == ts[0].text + "" == ts[0].text;
      } else {
        FirstLiteral(ts);
        CanonicalSurvives(ts[1..]);
        LiteralBeforeDirective(ts, ts[0].text);
      }
    }
  }

  lemma LiteralBeforeDirective(ts: seq<Token>, text: string)
    requires |ts| > 1 && Canonical(ts) && ts[0] == Literal(text)
    ensures ParseFrom(Print(ts), "") == [ts[0]] + ParseFrom(Print(ts[1..]), "")
  {
    var p :| EndsInPercents(text, p) && (p > 0 ==> |ts| > 1);
    var next, rest, after := ts[1], Print(ts[1..]), Print(ts[1..][1..]);
    assert ts[1..][0] == next && Canonical(ts[1..]);
    assert rest == PrintToken(next) + after;
    assert rest[0] == '%';
    LiteralIsCollected(text, p, rest, Print(ts));
    PendingIsEmitted(rest, text, next.key, next.format, after);
  }

  // ---------------------------------------------------------------------------
  // Only canonical lists survive
  // ---------------------------------------------------------------------------

  /** Text collected so far: percent signs only at the end, and then more of them follow. */
  predicate GoodPending(literal: string, s: string) {
    exists p :: 0 <= p <= |literal| && EndsInPercents(literal, p) && (p > 0 ==> s != [] && s[0] == '%')
  }

  lemma CanonicalCons(literal: string, key: string, format: string, tail: seq<Token>)
    requires Canonical(tail) && GoodDirective(key, format)
    requires literal != "" ==> GoodText(literal, true)
    ensures Canonical(Pending(literal) + [Directive(key, format)] + tail)
  {
    var d := [Directive(key, format)] + tail;
    assert d[1..] == tail;
    assert Canonical(d);
    if literal != "" {
      var l := [Literal(literal)] + d;
      assert l[1..] == d;
      assert Canonical(l);
      assert Pending(literal) + [Directive(key, format)] + tail == l;
    } else {
      assert Pending(literal) + [Directive(key, format)] + tail == d;
    }
  }

  lemma ScanIsGood(s: string)
    requires !ScanKey(s).Unclosed?
    ensures var t := ScanToken(ScanKey(s)); GoodDirective(t.key, t.format)
  {}

  lemma MoreText(literal: string, c: char, s: string, p: nat)
    requires EndsInPercents(literal, p) && (p > 0 ==> c == '%')
    requires c == '%' ==> s != [] && s[0] == '%'
    ensures GoodPending(literal + [c], s)
  {
    var l := literal + [c];
    if c == '%' {
      assert l[..|l| - (p + 1)] == literal[..|literal| - p];
      assert EndsInPercents(l, p + 1);
    } else {
      assert literal[..|literal|] == literal && l[..|l|] == l;
      assert EndsInPercents(l, 0);
    }
  }

  lemma {:induction false} ErrorFreeIsCanonical(s: string, literal: string)
    requires Errors(s) == 0 && GoodPending(literal, s)
    ensures Canonical(ParseFrom(s, literal))
    decreases |s|
  {
    var p :| 0 <= p <= |literal| && EndsInPercents(literal, p) && (p > 0 ==> s != [] && s[0] == '%');
    if s == [] {
      assert literal != "" ==> GoodText(literal, false);
    } else if s[0] != '%' {
      MoreText(literal, s[0], s[1..], p);
      ErrorFreeIsCanonical(s[1..], literal + [s[0]]);
    } else if |s| > 1 && s[1] == '%' {
      MoreText(literal, '%', s[1..], p);
      ErrorFreeIsCanonical(s[1..], literal + "%");
    } else {
      var r := ScanKey(s[1..]);
      ScanFits(s[1..]);
      ScanIsGood(s[1..]);
      var rest := s[1..][ScanLength(r)..];
      assert EndsInPercents("", 0);
      ErrorFreeIsCanonical(rest, "");
      CanonicalCons(literal, ScanToken(r).key, ScanToken(r).format, ParseFrom(rest, ""));
    }
  }

  lemma {:induction false} PrintConcat(a: seq<Token>, b: seq<Token>)
    ensures Print(a + b) == Print(a) + Print(b)
    decreases a
  {
    if a == [] {
      assert a + b == b;
    } else {
      assert (a + b)[1..] == a[1..] + b;
      PrintConcat(a[1..], b);
    }
  }

  lemma PrintOne(t: Token)
    ensures Print([t]) == PrintToken(t)
  {
    assert [t][1..] == [];
  }

  lemma PrintPending(literal: string)
    ensures Print(Pending(literal)) == literal
  {
    if literal != "" { PrintOne(Literal(literal)); }
  }

  /** Printing what was parsed is never shorter than the pattern, and sixteen characters longer for
      every error. */
  lemma {:induction false} ParsingNeverShrinks(s: string, literal: string)
    ensures |Print(ParseFrom(s, literal))| >= |literal| + |s| + 16 * Errors(s)
    decreases |s|
  {
    if s == [] {
      PrintPending(literal);
    } else if s[0] != '%' {
      ParsingNeverShrinks(s[1..], literal + [s[0]]);
    } else if |s| > 1 && s[1] == '%' {
      ParsingNeverShrinks(s[1..], literal + "%");
    } else {
      var r := ScanKey(s[1..]);
      ScanFits(s[1..]);
      if r.Unclosed? {
        ParsingNeverShrinks(s[1..], literal);
        PrintConcat([Literal(ERROR_TEXT)], ParseFrom(s[1..], literal));
        PrintOne(Literal(ERROR_TEXT));
        assert |ERROR_TEXT| == 17;
      } else {
        var rest := s[1..][ScanLength(r)..];
        ParsingNeverShrinks(rest, "");
        PrintConcat(Pending(literal) + [ScanToken(r)], ParseFrom(rest, ""));
        PrintConcat(Pending(literal), [ScanToken(r)]);
        PrintPending(literal);
        PrintOne(ScanToken(r));
        assert |PrintToken(ScanToken(r))| >= 1 + ScanLength(r);
      }
    }
  }

  /** Parsing inverts printing for exactly the canonical token lists. */
  lemma RoundTripExactly(ts: seq<Token>)
    ensures Parse(Print(ts)) == ts <==> Canonical(ts)
  {
    if Canonical(ts) { CanonicalSurvives(ts); }
    if Parse(Print(ts)) == ts {
      ParsingNeverShrinks(Print(ts), "");
      assert Errors(Print(ts)) == 0;
      assert EndsInPercents("", 0);
      ErrorFreeIsCanonical(Print(ts), "");
    }
  }

  /** Printing the tokens of an error-free pattern gives a pattern with the same tokens. */
  lemma PrintingNormalizes(s: string)
    requires Errors(s) == 0
    ensures Parse(Print(Parse(s))) == Parse(s)
  {
    assert EndsInPercents("", 0);
    ErrorFreeIsCanonical(s, "");
    CanonicalSurvives(Parse(s));
  }

  /** The lists one would write by hand: non-empty literals without percent signs, no two in a row,
      non-empty alphabetic keys, formats without closing brace. */
  predicate WellFormed(ts: seq<Token>) {
    && (forall i :: 0 <= i < |ts| ==>
          match ts[i]
          case Literal(text) => text != "" && NoPercent(text)
          case Directive(key, format) =>
            && key != "" && (forall j :: 0 <= j < |key| ==> IsAlpha(key[j]))
            && (forall j :: 0 <= j < |format| ==> format[j] != '}'))
    && (forall i :: 0 <= i < |ts| - 1 ==> ts[i].Directive? || ts[i + 1].Directive?)
  }

  lemma {:induction false} WellFormedRoundTrip(ts: seq<Token>)
    requires WellFormed(ts)
    ensures Canonical(ts) && Parse(Print(ts)) == ts
    decreases ts
  {
    if ts != [] {
      assert forall i :: 0 <= i < |ts[1..]| ==> ts[1..][i] == ts[i + 1];
      assert WellFormed(ts[1..]);
      WellFormedRoundTrip(ts[1..]);
      if ts[0].Literal? {
        assert ts[0].text[..|ts[0].text|] == ts[0].text;
        assert EndsInPercents(ts[0].text, 0);
      }
    }
    CanonicalSurvives(ts);
  }

  // ---------------------------------------------------------------------------
  // Directives without a format
  // ---------------------------------------------------------------------------

  /** What may follow `%key` so that the key ends there and no format begins. */
  predicate EndsKey(key: string, s: string) {
    s == "" || (!IsKeyChar(s[0]) && s[0] != '{' && (key == "" ==> s[0] != '%'))
  }

  lemma {:induction false} KeyLengthOfAll(key: string)
    requires forall i :: 0 <= i < |key| ==> IsKeyChar(key[i])
    ensures KeyLength(key) == |key|
    decreases key
  {
    if key != [] { KeyLengthOfAll(key[1..]); }
  }

  lemma PlainIsScanned(key: string, s: string)
    requires (forall i :: 0 <= i < |key| ==> IsKeyChar(key[i])) && EndsKey(key, s)
    ensures ScanKey(key + s) == Plain(key)
  {
    if s == "" {
      assert key + s == key;
      KeyLengthOfAll(key);
    } else {
      KeyLengthOf(key, s);
      assert (key + s)[|key|] == s[0];
    }
    assert (key + s)[..|key|] == key;
  }

  /** `%key` is the directive with that key and an empty format, and ends the literal before it. */
  lemma PlainDirectiveIsParsed(key: string, s: string, literal: string)
    requires (forall i :: 0 <= i < |key| ==> IsKeyChar(key[i])) && EndsKey(key, s)
    ensures ParseFrom("%" + key + s, literal) == Pending(literal) + [Directive(key, "")] + ParseFrom(s, "")
  {
    var all := "%" + key + s;
    assert all[1..] == key + s;
    PlainIsScanned(key, s);
    assert (key + s)[|key|..] == s;
    assert |all| > 1 ==> all[1] == if key == "" then s[0] else key[0];
  }

  /** The printer that leaves out the braces of an empty format where the key still ends there. */
  function ShortToken(t: Token, rest: string): (r: string) {
    if t.Directive? && t.format == "" && EndsKey(t.key, rest) then "%" + t.key else PrintToken(t)
  }

  function ShortPrint(ts: seq<Token>): (r: string) {
    if ts == [] then "" else ShortToken(ts[0], ShortPrint(ts[1..])) + ShortPrint(ts[1..])
  }

  lemma ShortDirectiveIsParsed(t: Token, rest: string, literal: string)
    requires t.Directive? && GoodDirective(t.key, t.format)
    ensures ParseFrom(ShortToken(t, rest) + rest, literal) == Pending(literal) + [t] + ParseFrom(rest, "")
    ensures ShortToken(t, rest)[0] == '%'
  {
    if t.format == "" && EndsKey(t.key, rest) {
      PlainDirectiveIsParsed(t.key, rest, literal);
      assert "%" + t.key + rest == ShortToken(t, rest) + rest;
    } else {
      DirectiveIsParsed(t.key, t.format, rest, literal);
    }
  }

  lemma LiteralThenShort(text: string, t: Token, after: string, rest: string)
    requires GoodText(text, true) && t.Directive? && GoodDirective(t.key, t.format)
    requires rest == ShortToken(t, after) + after
    ensures ParseFrom(text + rest, "") == [Literal(text)] + ParseFrom(rest, "")
  {
    var p :| 0 <= p <= |text| && EndsInPercents(text, p);
    ShortPendingIsEmitted(t, after, text);
    LiteralIsCollected(text, p, rest, text + rest);
  }

  lemma ShortLiteralBeforeDirective(ts: seq<Token>, text: string)
    requires |ts| > 1 && Canonical(ts) && ts[0] == Literal(text)
    ensures ParseFrom(ShortPrint(ts), "") == [ts[0]] + ParseFrom(ShortPrint(ts[1..]), "")
  {
    var tail := ts[1..];
    FirstLiteral(ts);
    FirstDirective(tail);
    LiteralThenShort(text, tail[0], ShortPrint(tail[1..]), ShortPrint(tail));
  }

  lemma ShortPendingIsEmitted(t: Token, rest: string, text: string)
    requires t.Directive? && GoodDirective(t.key, t.format) && text != ""
    ensures ParseFrom(ShortToken(t, rest) + rest, text) == [Literal(text)] + ParseFrom(ShortToken(t, rest) + rest, "")
    ensures (ShortToken(t, rest) + rest)[0] == '%'
  {
    ShortDirectiveIsParsed(t, rest, text);
    ShortDirectiveIsParsed(t, rest, "");
    EmittedFirst(text, t, ParseFrom(rest, ""));
  }

  /** Every canonical list also survives printing without superfluous braces. */
  lemma {:induction false} ShortFormSurvives(ts: seq<Token>)
    requires Canonical(ts)
    ensures Parse(ShortPrint(ts)) == ts
    decreases ts
  {
    if ts != [] {
      if ts[0].Directive? {
        FirstDirective(ts);
        ShortFormSurvives(ts[1..]);
        ShortDirectiveIsParsed(ts[0], ShortPrint(ts[1..]), "");
      } else if |ts| == 1 {
        FirstLiteral(ts);
        LoneLiteral(ts[0].text);
        assert ShortPrint(ts) == ts[0].text + "" == ts[0].text;
      } else {
        FirstLiteral(ts);
        ShortFormSurvives(ts[1..]);
        ShortLiteralBeforeDirective(ts, ts[0].text);
      }
    }
  }

  /** The characters of a key by their code: the letters of both cases and the closing brace. */
  lemma KeyCharacters(c: char)
    ensures IsKeyChar(c) <==> 65 <= c as int <= 90 || 97 <= c as int <= 122 || c as int == 125
  {}

  /** A closing brace without an opening one belongs to the key. */
  lemma ClosingBraceBelongsToKey()
    ensures Parse("%a}b") == [Directive("a}b", "")]
  {
    PlainDirectiveIsParsed("a}b", "", "");
    assert "%" + "a}b" + "" == "%a}b";
  }

  /** `%d` alone, as most patterns write it. */
  lemma DateWithoutFormat()
    ensures Parse("%d") == [Directive("d", "")]
  {
    PlainDirectiveIsParsed("d", "", "");
    assert "%" + "d" + "" == "%d";
  }

  /** A format that is never closed is reported in front of the literal collected so far, and the text
      after the percent sign is read again. */
  lemma UnclosedIsReported(key: string, s: string, literal: string)
    requires forall i :: 0 <= i < |key| ==> IsKeyChar(key[i])
    requires forall i :: 0 <= i < |s| ==> s[i] != '}'
    ensures ParseFrom("%" + key + "{" + s, literal)
            == [Literal("<<pattern_error>>")] + ParseFrom(key + "{" + s, literal)
  {
    var rest, all := key + ("{" + s), "%" + key + "{" + s;
    assert all[1..] == rest && rest == key + "{" + s;
    KeyLengthOf(key, "{" + s);
    assert rest[|key|] == '{' && rest[|key| + 1..] == s;
    assert BraceAt(s) == |s|;
    assert all[1] == if key == "" then '{' else key[0];
  }

  /** With no further percent sign everything after the report is one literal. */
  lemma UnclosedBecomesText(key: string, s: string, literal: string)
    requires forall i :: 0 <= i < |key| ==> IsKeyChar(key[i])
    requires NoPercent(s) && forall i :: 0 <= i < |s| ==> s[i] != '}'
    ensures ParseFrom("%" + key + "{" + s, literal)
            == [Literal("<<pattern_error>>"), Literal(literal + key + "{" + s)]
  {
    UnclosedIsReported(key, s, literal);
    var text := key + "{" + s;
    assert NoPercent(text);
    CollectedToTheEnd(text, literal);
    TextInParts(literal, key, s);
  }

  lemma CollectedToTheEnd(text: string, literal: string)
    requires NoPercent(text) && literal + text != ""
    ensures ParseFrom(text, literal) == [Literal(literal + text)]
  {
    PlainTextIsCollected(text, "", literal);
    assert text + "" == text;
  }

  lemma TextInParts(literal: string, key: string, s: string)
    ensures literal + (key + "{" + s) == literal + key + "{" + s
  {}

  /** `%%` does not consume its second percent sign: it starts a directive. */
  lemma PercentIsNotEscaped()
    ensures Parse("100%%") == [Literal("100%"), Directive("", "")]
  {
    var d := Directive("", "");
    assert ("%")[1..] == "";
    assert ScanKey("") == Plain("");
    assert ParseFrom("%", "100%") == Pending("100%") + [d] + ParseFrom("", "");
    assert ("%%")[1..] == "%";
    assert "100" + "%" == "100%";
    assert ParseFrom("%%", "100") == ParseFrom("%", "100%");
    assert "100%%" == "100" + "%%";
    PlainTextIsCollected("100", "%%", "");
    assert "" + "100" == "100";
  }

  // ---------------------------------------------------------------------------
  // The code
  // ---------------------------------------------------------------------------

  predicate KeyBetween(s: string, i: int, n: int)
    requires -1 <= i < n <= |s|
  {
    forall j :: i < j < n ==> IsKeyChar(s[j])
  }

  predicate NoBraceBetween(s: string, f: int, n: int)
    requires -1 <= f < n <= |s|
  {
    forall j :: f < j < n ==> s[j] != '}'
  }

  lemma KeyEnds(s: string, i: nat, n: nat)
    requires i < n <= |s| && KeyBetween(s, i, n) && (n < |s| ==> !IsKeyChar(s[n]))
    ensures KeyLength(s[i + 1..]) == n - i - 1
    ensures s[i + 1..][..n - i - 1] == s[i + 1..n]
  {
    var rest := s[i + 1..];
    assert forall j :: 0 <= j < |rest| ==> rest[j] == s[i + 1 + j];
  }

  lemma BraceEnds(s: string, f: nat, n: nat)
    requires f < n <= |s| && NoBraceBetween(s, f, n) && (n < |s| ==> s[n] == '}')
    ensures BraceAt(s[f + 1..]) == n - f - 1
    ensures s[f + 1..][..n - f - 1] == s[f + 1..n]
  {
    var rest := s[f + 1..];
    assert forall j :: 0 <= j < |rest| ==> rest[j] == s[f + 1 + j];
  }

  /** The scan stopped at `n` without having seen an opening brace. */
  lemma PlainEnd(s: string, i: nat, n: nat)
    requires i < n <= |s| && KeyBetween(s, i, n)
    requires n < |s| ==> !IsKeyChar(s[n]) && s[n] != '{'
    ensures ScanKey(s[i + 1..]) == Plain(s[i + 1..n])
  {
    KeyEnds(s, i, n);
  }

  /** The scan saw the opening brace at `f` and then reached `n`, a closing brace or the end. */
  lemma FormatEnd(s: string, i: nat, f: nat, n: nat)
    requires i < f < n <= |s| && KeyBetween(s, i, f) && s[f] == '{'
    requires NoBraceBetween(s, f, n) && (n < |s| ==> s[n] == '}')
    ensures ScanKey(s[i + 1..])
            == if n == |s| then Unclosed else Formatted(s[i + 1..f], s[f + 1..n])
  {
    var rest, g, k := s[i + 1..], s[f + 1..], f - i - 1;
    assert KeyLength(rest) == k && rest[..k] == s[i + 1..f] by { KeyEnds(s, i, f); }
    assert BraceAt(g) == n - f - 1 && g[..n - f - 1] == s[f + 1..n] by { BraceEnds(s, f, n); }
    assert rest[k] == '{' by { SliceOfSlice(s, i + 1, k); }
    assert g == rest[k + 1..] by { SliceOfSlice(s, i + 1, k + 1); }
    ScanFormat(rest, g, k);
  }

  lemma SliceOfSlice(s: string, a: nat, b: nat)
    requires a + b <= |s|
    ensures s[a..][b..] == s[a + b..]
    ensures a + b < |s| ==> s[a..][b] == s[a + b]
  {}

  lemma ScanFormat(rest: string, f: string, k: nat)
    requires k == KeyLength(rest) < |rest| && rest[k] == '{' && f == rest[k + 1..]
    ensures ScanKey(rest) == if BraceAt(f) == |f| then Unclosed else Formatted(rest[..k], f[..BraceAt(f)])
  {}

  /** The inner loop: from the `%` at `i`, find where the directive ends. `closed` is fmt_status == 0
      at the end of the scan. */
  method ScanDirective(s: string, i: nat) returns (key: string, format: string, n: nat, closed: bool)
    requires i < |s| && s[i] == '%'
    ensures closed <==> !ScanKey(s[i + 1..]).Unclosed?
    ensures closed ==> Directive(key, format) == ScanToken(ScanKey(s[i + 1..]))
    ensures closed ==> n == i + 1 + ScanLength(ScanKey(s[i + 1..])) <= |s|
  {
    n := i + 1;
    var inFormat := false;
    var formatBegin := 0;
    key, format := "", "";
    while n < |s|
      invariant i + 1 <= n <= |s|
      invariant format == ""
      invariant !inFormat ==> KeyBetween(s, i, n) && key == (if n < |s| then "" else s[i + 1..])
      invariant inFormat ==> i < formatBegin < n && s[formatBegin] == '{' && KeyBetween(s, i, formatBegin)
      invariant inFormat ==> NoBraceBetween(s, formatBegin, n)
      invariant inFormat && n < |s| ==> key == s[i + 1..formatBegin]
      decreases |s| - n
    {
      if !inFormat && !IsAlpha(s[n]) && s[n] != '{' && s[n] != '}' {
        key := s[i + 1..n];
        break;
      }
      if !inFormat {
        if s[n] == '{' {
          key := s[i + 1..n];
          inFormat := true;
          formatBegin := n;
          n := n + 1;
          continue;
        }
      } else if s[n] == '}' {
        format := s[formatBegin + 1..n];
        inFormat := false;
        FormatEnd(s, i, formatBegin, n);
        n := n + 1;
        closed := true;
        return;
      }
      n := n + 1;
      if n == |s| {
        if key == "" {
          key := s[i + 1..];
        }
      }
    }
    closed := !inFormat;
    if inFormat { FormatEnd(s, i, formatBegin, n); } else { PlainEnd(s, i, n); assert s[i + 1..n] == key; }
  }

  /** One turn of the outer loop at a character that does not start a directive. */
  lemma CollectStep(s: string, i: nat, literal: string)
    requires i < |s|
    ensures s[i] != '%' ==> ParseFrom(s[i..], literal) == ParseFrom(s[i + 1..], literal + [s[i]])
    ensures s[i] == '%' && i + 1 < |s| && s[i + 1] == '%' ==>
              ParseFrom(s[i..], literal) == ParseFrom(s[i + 1..], literal + "%")
  {
    assert s[i..][1..] == s[i + 1..];
  }

  /** One turn of the outer loop at a directive. */
  lemma DirectiveTurn(s: string, i: nat, literal: string)
    requires i < |s| && s[i] == '%' && (i + 1 < |s| ==> s[i + 1] != '%')
    ensures var r := ScanKey(s[i + 1..]);
            var n := i + 1 + ScanLength(r);
            && n <= |s|
            && ParseFrom(s[i..], literal)
               == if r.Unclosed? then [Literal(ERROR_TEXT)] + ParseFrom(s[i + 1..], literal)
                  else Pending(literal) + [ScanToken(r)] + ParseFrom(s[n..], "")
  {
    var rest := s[i + 1..];
    assert s[i..][1..] == rest;
    ScanFits(rest);
    assert rest[ScanLength(ScanKey(rest))..] == s[i + 1 + ScanLength(ScanKey(rest))..];
  }

  lemma Regrouped(a: seq<Token>, b: seq<Token>, c: seq<Token>, d: seq<Token>)
    ensures a + (b + c + d) == a + b + c + d
    ensures a + (b + c) == a + b + c
  {}

  lemma DirectiveStep(s: string, i: nat, literal: string, vec: seq<Token>)
    requires i < |s| && s[i] == '%' && (i + 1 < |s| ==> s[i + 1] != '%')
    ensures var r := ScanKey(s[i + 1..]);
            var n := i + 1 + ScanLength(r);
            && n <= |s|
            && vec + ParseFrom(s[i..], literal)
               == if r.Unclosed? then vec + [Literal(ERROR_TEXT)] + ParseFrom(s[i + 1..], literal)
                  else vec + Pending(literal) + [ScanToken(r)] + ParseFrom(s[n..], "")
  {
    DirectiveTurn(s, i, literal);
    var r := ScanKey(s[i + 1..]);
    if r.Unclosed? {
      Regrouped(vec, [Literal(ERROR_TEXT)], ParseFrom(s[i + 1..], literal), []);
    } else {
      Regrouped(vec, Pending(literal), [ScanToken(r)], ParseFrom(s[i + 1 + ScanLength(r)..], ""));
    }
  }

  /** The part of the outer loop behind a `%`: a directive, or the report of an unclosed format. */
  method TakeDirective(s: string, i: nat, vec: seq<Token>, literal: string)
      returns (vec': seq<Token>, literal': string, i': nat)
    requires i < |s| && s[i] == '%' && (i + 1 < |s| ==> s[i + 1] != '%')
    ensures i < i' <= |s|
    ensures vec' + ParseFrom(s[i'..], literal') == vec + ParseFrom(s[i..], literal)
  {
    DirectiveStep(s, i, literal, vec);
    var key, format, n, closed := ScanDirective(s, i);
    if closed {
      vec' := EmitLiteral(vec, literal);
      vec' := vec' + [Directive(key, format)];
      literal', i' := "", n;
      assert vec' == vec + Pending(literal) + [ScanToken(ScanKey(s[i + 1..]))];
    } else {
      vec', literal', i' := vec + [Literal(ERROR_TEXT)], literal, i + 1;
    }
  }

  /** logPatternParse, with its collected literal and its running index. */
  method LogPatternParse(s: string) returns (vec: seq<Token>)
    ensures vec == Parse(s)
  {
    vec := [];
    var literal := "";
    var i := 0;
    assert s[0..] == s;
    while i < |s|
      invariant 0 <= i <= |s|
      invariant vec + ParseFrom(s[i..], literal) == Parse(s)
      decreases |s| - i
    {
      if s[i] != '%' {
        CollectStep(s, i, literal);
        literal := literal + [s[i]];
        i := i + 1;
        continue;
      }
      if i + 1 < |s| && s[i + 1] == '%' {
        CollectStep(s, i, literal);
        literal := literal + "%";
        i := i + 1;
        continue;
      }
      vec, literal, i := TakeDirective(s, i, vec, literal);
    }
    assert s[|s|..] == [];
    vec := EmitLiteral(vec, literal);
  }

  method EmitLiteral(vec: seq<Token>, literal: string) returns (r: seq<Token>)
    ensures r == vec + Pending(literal)
  {
    r := vec;
    if literal != "" {
      r := r + [Literal(literal)];
    }
  }
}
