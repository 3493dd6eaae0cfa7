/**
 Compiling a pattern into formatters (`Logger::setFormatters`) and running them on an event
 (`Logger::log`), against the direct meaning of the pattern's tokens.
 */
module Logger {
  import opened Common
  import opened Decimal
  import opened LogPattern
  import opened LogStream

  datatype Level = DEBUG | INFO | WARN | ERROR | FATAL

  /** What an event carries; `time` is only ever passed to strftime. */
  datatype Event = Event(
    fileName: string,
    line: int,
    level: Level,
    threadId: nat,
    elapsedMs: nat,
    executorId: nat,
    content: string,
    time: int)

  /** localtime_r and strftime: a format and a time to a text. */
  type Strftime = (string, int) -> string

  /** The integers fit their C types: int, uint32_t, uint32_t and size_t. */
  predicate Typed(e: Event) {
    && -0x8000_0000 <= e.line < 0x8000_0000
    && e.threadId < 0x1_0000_0000
    && e.elapsedMs < 0x1_0000_0000
    && e.executorId <= 0xFFFF_FFFF_FFFF_FFFF
  }

  /** A formatter function, or a StringLogFormatter with its text. */
  datatype Formatter =
    | Message | LevelName | Elapsed | Name | ThreadId | Newline | DateTime | FileName | LineNumber
    | ExecutorId | Tab | Text(str: string)

  const DEFAULT_DATE := "%Y-%m-%d %H:%M:%S"

  function LevelToString(l: Level): (r: string) {
    match l
    case DEBUG => "DEBUG" case INFO => "INFO" case WARN => "WARN" case ERROR => "ERROR" case FATAL => "FATAL"
  }

  /** LogFormatterFactory::getFormatter. */
  function GetFormatter(key: char): (r: Option<Formatter>) {
    match key
    case 'm' => Some(Message)
    case 'p' => Some(LevelName)
    case 'r' => Some(Elapsed)
    case 'c' => Some(Name)
    case 't' => Some(ThreadId)
    case 'n' => Some(Newline)
    case 'd' => Some(DateTime)
    case 'f' => Some(FileName)
    case 'l' => Some(LineNumber)
    case 'E' => Some(ExecutorId)
    case 'T' => Some(Tab)
    case _ => None
  }

  // ---------------------------------------------------------------------------
  // Compilation
  // ---------------------------------------------------------------------------

  /** setFormatters asserts that no directive has an empty key. */
  predicate Keyed(ts: seq<Token>) {
    forall i :: 0 <= i < |ts| ==> ts[i].Directive? ==> ts[i].key != ""
  }

  function CompileToken(t: Token): (f: Formatter)
    requires t.Directive? ==> t.key != ""
  {
    match t
    case Literal(text) => Text(text)
    case Directive(key, _) =>
      match GetFormatter(key[0])
      case Some(f) => f
      case None => Text("<<error_format%" + key + ">>")
  }

  /** The date pattern after one token. */
  function DateAfter(t: Token, date: string): (r: string)
    requires t.Directive? ==> t.key != ""
  {
    if t.Directive? && t.key[0] == 'd' then (if t.format == "" then DEFAULT_DATE else t.format) else date
  }

  /** The loop of setFormatters over the tokens. */
  function Compile(ts: seq<Token>, date: string): (r: (seq<Formatter>, string))
    requires Keyed(ts)
    decreases ts
  {
    if ts == [] then ([], date)
    else
      var (fs, d) := Compile(ts[1..], DateAfter(ts[0], date));
      ([CompileToken(ts[0])] + fs, d)
  }

  // ---------------------------------------------------------------------------
  // Running
  // ---------------------------------------------------------------------------

  /** What one formatter puts on the stream: a text, or an integer for operator<<. */
  datatype Piece = Str(text: string) | Int(value: int)

  function PieceText(p: Piece): (r: string) { if p.Str? then p.text else IntText(p.value) }

  /** One formatter on an event; `strftime` stands for localtime_r and strftime. */
  function RunFormatter(f: Formatter, e: Event, name: string, date: string, strftime: Strftime): (p: Piece) {
    match f
    case Message => Str(e.content)
    case LevelName => Str(LevelToString(e.level))
    case Elapsed => Int(e.elapsedMs)
    case Name => Str(name)
    case ThreadId => Int(e.threadId)
    case Newline => Str("\r\n")
    case DateTime => Str(strftime(date, e.time))
    case FileName => Str(e.fileName)
    case LineNumber => Int(e.line)
    case ExecutorId => Int(e.executorId)
    case Tab => Str("\t")
    case Text(str) => Str(str)
  }

  function Run(fs: seq<Formatter>, e: Event, name: string, date: string, strftime: Strftime): (r: seq<Piece>) {
    if fs == [] then [] else [RunFormatter(fs[0], e, name, date, strftime)] + Run(fs[1..], e, name, date, strftime)
  }

  function Joined(ps: seq<Piece>): (r: string) {
    if ps == [] then "" else PieceText(ps[0]) + Joined(ps[1..])
  }

  /** The pieces fit the stream buffer from `pos` on; an integer also needs room for its NUL. */
  predicate Fits(ps: seq<Piece>, pos: nat) {
    ps == [] ||
    (&& pos + |PieceText(ps[0])| + (if ps[0].Int? then 1 else 0) <= MAX_LENGTH
     && Fits(ps[1..], pos + |PieceText(ps[0])|))
  }

  // ---------------------------------------------------------------------------
  // The direct meaning of a pattern
  // ---------------------------------------------------------------------------

  predicate NumberKey(k: char) { k in "rtlE" }

  /** The number of a key that stands for one. */
  function KeyNumber(k: char, e: Event): (n: int) {
    if k == 'r' then e.elapsedMs else if k == 't' then e.threadId else if k == 'l' then e.line else e.executorId
  }

  /** The text of a known key, from the key alone. */
  function KeyText(k: char, e: Event, name: string, date: string, strftime: Strftime): (r: string) {
    if NumberKey(k) then IntText(KeyNumber(k, e))
    else if k == 'm' then e.content
    else if k == 'p' then LevelText(e.level)
    else if k == 'c' then name
    else if k == 'n' then "\r\n"
    else if k == 'd' then strftime(date, e.time)
    else if k == 'f' then e.fileName
    else "\t"
  }

  /** The name of a level. */
  function LevelText(l: Level): (r: string) {
    if l == DEBUG then "DEBUG"
    else if l == INFO then "INFO"
    else if l == WARN then "WARN"
    else if l == ERROR then "ERROR"
    else "FATAL"
  }

  predicate KnownKey(k: char) { k in "mprctndflET" }

  /** The text a token stands for, with `date` as the format of every %d. */
  function Meaning(t: Token, e: Event, name: string, date: string, strftime: Strftime): (r: string)
    requires t.Directive? ==> t.key != ""
  {
    if t.Literal? then t.text
    else if KnownKey(t.key[0]) then KeyText(t.key[0], e, name, date, strftime)
    else "<<error_format%" + t.key + ">>"
  }

  /** The concatenation of the meanings of all tokens. */
  function MeaningOf(ts: seq<Token>, e: Event, name: string, date: string, strftime: Strftime): (r: string)
    requires Keyed(ts)
    decreases ts
  {
    if ts == [] then ""
    else Meaning(ts[0], e, name, date, strftime) + MeaningOf(ts[1..], e, name, date, strftime)
  }

  predicate IsDate(t: Token) { t.Directive? && t.key != "" && t.key[0] == 'd' }

  /** `date` is what every %d of `ts` uses: the format of the last %d, or the default when that is
      empty. */
  predicate LastDate(ts: seq<Token>, date: string) {
    forall i :: 0 <= i < |ts| && IsDate(ts[i]) && (forall j :: i < j < |ts| ==> !IsDate(ts[j])) ==>
      date == if ts[i].format == "" then "%Y-%m-%d %H:%M:%S" else ts[i].format
  }

  // ---------------------------------------------------------------------------
  // Compiling and running preserves the meaning
  // ---------------------------------------------------------------------------

  lemma {:induction false} CompiledDate(ts: seq<Token>, date: string)
    requires Keyed(ts)
    ensures LastDate(ts, Compile(ts, date).1)
    ensures (forall i :: 0 <= i < |ts| ==> !IsDate(ts[i])) ==> Compile(ts, date).1 == date
    decreases ts
  {
    if ts != [] {
      var rest, d := ts[1..], DateAfter(ts[0], date);
      CompiledDate(rest, d);
      var final := Compile(ts, date).1;
      forall i | 0 <= i < |ts| && IsDate(ts[i]) && (forall j :: i < j < |ts| ==> !IsDate(ts[j]))
        ensures final == if ts[i].format == "" then DEFAULT_DATE else ts[i].format
      {
        if i > 0 {
          assert rest[i - 1] == ts[i];
          forall j | i - 1 < j < |rest| ensures !IsDate(rest[j]) { assert rest[j] == ts[j + 1]; }
        } else {
          forall j | 0 <= j < |rest| ensures !IsDate(rest[j]) { assert rest[j] == ts[j + 1]; }
        }
      }
      if forall i :: 0 <= i < |ts| ==> !IsDate(ts[i]) {
        forall j | 0 <= j < |rest| ensures !IsDate(rest[j]) { assert rest[j] == ts[j + 1]; }
      }
    }
  }

  lemma KnownKeys(k: char)
    ensures GetFormatter(k).Some? <==> KnownKey(k)
  {}

  lemma TextKeyMeaning(k: char, e: Event, name: string, date: string, strftime: Strftime)
    requires k in "mpcndfT"
    ensures GetFormatter(k).Some?
    ensures RunFormatter(GetFormatter(k).value, e, name, date, strftime) == Str(KeyText(k, e, name, date, strftime))
  {}

  lemma NumberKeyMeaning(k: char, e: Event, name: string, date: string, strftime: Strftime)
    requires NumberKey(k)
    ensures GetFormatter(k).Some?
    ensures RunFormatter(GetFormatter(k).value, e, name, date, strftime) == Int(KeyNumber(k, e))
  {}

  lemma KnownKeyMeaning(t: Token, e: Event, name: string, date: string, strftime: Strftime)
    requires t.Directive? && t.key != "" && GetFormatter(t.key[0]).Some?
    ensures PieceText(RunFormatter(GetFormatter(t.key[0]).value, e, name, date, strftime))
            == Meaning(t, e, name, date, strftime)
  {
    var k := t.key[0];
    KnownKeys(k);
    if NumberKey(k) { NumberKeyMeaning(k, e, name, date, strftime); }
    else { TextKeyMeaning(k, e, name, date, strftime); }
  }

  lemma UnknownKeyMeaning(t: Token, e: Event, name: string, date: string, strftime: Strftime)
    requires t.Directive? && t.key != "" && GetFormatter(t.key[0]).None?
    ensures Meaning(t, e, name, date, strftime) == CompileToken(t).str
  {}

  lemma TokenMeaning(t: Token, e: Event, name: string, date: string, strftime: Strftime)
    requires t.Directive? ==> t.key != ""
    ensures PieceText(RunFormatter(CompileToken(t), e, name, date, strftime)) == Meaning(t, e, name, date, strftime)
  {
    if t.Directive? {
      if GetFormatter(t.key[0]).Some? { KnownKeyMeaning(t, e, name, date, strftime); }
      else { UnknownKeyMeaning(t, e, name, date, strftime); }
    }
  }

  lemma {:induction false} CompiledMeaning(ts: seq<Token>, e: Event, name: string, date0: string, date: string,
                                           strftime: Strftime)
    requires Keyed(ts)
    ensures Joined(Run(Compile(ts, date0).0, e, name, date, strftime)) == MeaningOf(ts, e, name, date, strftime)
    decreases ts
  {
    if ts != [] {
      var fs := Compile(ts, date0).0;
      var d := DateAfter(ts[0], date0);
      CompiledMeaning(ts[1..], e, name, d, date, strftime);
      TokenMeaning(ts[0], e, name, date, strftime);
      assert fs[1..] == Compile(ts[1..], d).0;
      var ps := Run(fs, e, name, date, strftime);
      assert ps[1..] == Run(fs[1..], e, name, date, strftime);
    }
  }

  /** What `log` puts on the stream after `setFormatters(pattern)`. */
  function Logged(pattern: string, e: Event, name: string, date0: string, strftime: Strftime): (r: seq<Piece>)
    requires Keyed(Parse(pattern))
  {
    var (fs, date) := Compile(Parse(pattern), date0);
    Run(fs, e, name, date, strftime)
  }

  /** Setting a pattern and logging an event gives the concatenated meaning of the tokens the pattern
      was written from, every %d using the format of the last %d. */
  lemma LoggingPreservesMeaning(ts: seq<Token>, e: Event, name: string, date0: string, strftime: Strftime)
    requires Canonical(ts) && Keyed(ts)
    ensures Parse(Print(ts)) == ts
    ensures exists date ::
              && LastDate(ts, date)
              && Joined(Logged(Print(ts), e, name, date0, strftime)) == MeaningOf(ts, e, name, date, strftime)
  {
    CanonicalSurvives(ts);
    var date := Compile(ts, date0).1;
    CompiledDate(ts, date0);
    CompiledMeaning(ts, e, name, date0, date, strftime);
    assert Joined(Logged(Print(ts), e, name, date0, strftime)) == MeaningOf(ts, e, name, date, strftime);
  }

  /** A text shorter than the buffer always fits. */
  lemma {:induction false} ShortFits(ps: seq<Piece>, pos: nat)
    requires pos + |Joined(ps)| < MAX_LENGTH
    ensures Fits(ps, pos)
    decreases ps
  {
    if ps != [] { ShortFits(ps[1..], pos + |PieceText(ps[0])|); }
  }

  // ---------------------------------------------------------------------------
  // The class
  // ---------------------------------------------------------------------------

  class LoggerObject {
    const name: string
    var datetimePattern: string
    var formatters: seq<Formatter>
    var sinks: seq<string>          // what each flusher has received

    constructor (name: string, flushers: nat)
      ensures this.name == name && formatters == [] && datetimePattern == ""
      ensures |sinks| == flushers && forall i :: 0 <= i < flushers ==> sinks[i] == ""
    {
      this.name := name;
      datetimePattern, formatters, sinks := "", [], seq(flushers, i => "");
    }

    /** The body of setFormatters' loop: the formatter of one token, and the date pattern. */
    method BuildFormatter(t: Token) returns (formatter: Formatter)
      requires t.Directive? ==> t.key != ""
      modifies this`datetimePattern
      ensures formatter == CompileToken(t)
      ensures datetimePattern == DateAfter(t, old(datetimePattern))
    {
      match t {
        case Literal(text) => formatter := Text(text);
        case Directive(key, format) =>
          if key[0] == 'd' {
            datetimePattern := if format == "" then DEFAULT_DATE else format;
          }
          var found := GetFormatter(key[0]);
          formatter := if found.None? then Text("<<error_format%" + key + ">>") else found.value;
      }
    }

    method SetFormatters(pattern: string)
      requires Keyed(Parse(pattern))
      modifies this`formatters, this`datetimePattern
      ensures (formatters, datetimePattern) == Compile(Parse(pattern), old(datetimePattern))
    {
      formatters := [];
      var vec := LogPatternParse(pattern);
      ghost var all := Compile(vec, datetimePattern);
      assert vec[0..] == vec;
      for i := 0 to |vec|
        invariant Keyed(vec[i..])
        invariant formatters + Compile(vec[i..], datetimePattern).0 == all.0
        invariant Compile(vec[i..], datetimePattern).1 == all.1
      {
        assert vec[i..][0] == vec[i] && vec[i..][1..] == vec[i + 1..];
        var formatter := BuildFormatter(vec[i]);
        ghost var rest := Compile(vec[i + 1..], datetimePattern).0;
        assert formatters + ([formatter] + rest) == formatters + [formatter] + rest;
        formatters := formatters + [formatter];
      }
      assert vec[|vec|..] == [];
      assert formatters + [] == formatters;
    }

    /** The formatters on the thread's stream buffer. */
    method Format(e: Event, stream: StreamBuffer, strftime: Strftime)
      requires stream.Valid() && stream.Contents() == "" && Typed(e)
      requires Fits(Run(formatters, e, name, datetimePattern, strftime), 0)
      modifies stream`pos, stream.buf
      ensures stream.Valid()
      ensures stream.Contents() == Joined(Run(formatters, e, name, datetimePattern, strftime))
    {
      ghost var pieces := Run(formatters, e, name, datetimePattern, strftime);
      RunLength(formatters, e, name, datetimePattern, strftime);
      assert pieces[0..] == pieces;
      for i := 0 to |formatters|
        invariant stream.Valid() && |pieces| == |formatters|
        invariant Fits(pieces[i..], stream.pos)
        invariant stream.Contents() + Joined(pieces[i..]) == Joined(pieces)
      {
        var piece := RunFormatter(formatters[i], e, name, datetimePattern, strftime);
        RunAt(formatters, e, name, datetimePattern, strftime, i);
        AppendNext(stream, piece, pieces, i);
      }
      assert pieces[|pieces|..] == [];
    }

    /** The next of the pieces still to be written. */
    static method AppendNext(stream: StreamBuffer, piece: Piece, ghost pieces: seq<Piece>, ghost i: nat)
      requires stream.Valid() && i < |pieces| && pieces[i] == piece && Fits(pieces[i..], stream.pos)
      requires piece.Int? ==> MIN_VALUE <= piece.value <= MAX_VALUE
      modifies stream`pos, stream.buf
      ensures stream.Valid() && Fits(pieces[i + 1..], stream.pos)
      ensures stream.Contents() + Joined(pieces[i + 1..]) == old(stream.Contents()) + Joined(pieces[i..])
    {
      PieceStep(pieces, i, stream.Contents());
      AppendPiece(stream, piece);
    }

    /** operator<< of a text or an integer. */
    static method AppendPiece(stream: StreamBuffer, piece: Piece)
      requires stream.Valid()
      requires piece.Int? ==> MIN_VALUE <= piece.value <= MAX_VALUE
      requires stream.pos + |PieceText(piece)| + (if piece.Int? then 1 else 0) <= MAX_LENGTH
      modifies stream`pos, stream.buf
      ensures stream.Valid() && stream.Contents() == old(stream.Contents()) + PieceText(piece)
    {
      if piece.Str? { stream.AppendText(piece.text); } else { stream.AppendInt(piece.value); }
    }

    /** Give the text to every flusher. */
    method Deliver(text: string)
      modifies this`sinks
      ensures |sinks| == |old(sinks)|
      ensures forall i :: 0 <= i < |sinks| ==> sinks[i] == old(sinks)[i] + text
    {
      for i := 0 to |sinks|
        invariant |sinks| == |old(sinks)|
        invariant forall k :: 0 <= k < i ==> sinks[k] == old(sinks)[k] + text
        invariant forall k :: i <= k < |sinks| ==> sinks[k] == old(sinks)[k]
      {
        sinks := sinks[i := sinks[i] + text];
      }
    }

    /** Format the event and give the text to every flusher. The stream buffer is empty before and
        after. */
    method Log(e: Event, stream: StreamBuffer, strftime: Strftime)
      requires stream.Valid() && stream.Contents() == "" && Typed(e)
      requires Fits(Run(formatters, e, name, datetimePattern, strftime), 0)
      modifies this`sinks, stream`pos, stream.buf
      ensures stream.Valid() && stream.Contents() == ""
      ensures |sinks| == |old(sinks)|
      ensures forall i :: 0 <= i < |sinks| ==>
                sinks[i] == old(sinks)[i] + Joined(Run(formatters, e, name, datetimePattern, strftime))
    {
      Format(e, stream, strftime);
      var text := stream.GetSlice();
      Deliver(text);
      stream.Free();
    }

    /** setFormatters and then log: every flusher receives the meaning of the tokens the pattern was
        written from, every %d using the format of the last %d. */
    method SetFormattersAndLog(ts: seq<Token>, e: Event, stream: StreamBuffer, strftime: Strftime)
      requires Canonical(ts) && Keyed(ts) && stream.Valid() && stream.Contents() == "" && Typed(e)
      requires |MeaningOf(ts, e, name, Compile(ts, datetimePattern).1, strftime)| < MAX_LENGTH
      modifies this`formatters, this`datetimePattern, this`sinks, stream`pos, stream.buf
      ensures stream.Valid() && stream.Contents() == "" && |sinks| == |old(sinks)|
      ensures LastDate(ts, datetimePattern)
      ensures forall i :: 0 <= i < |sinks| ==>
                sinks[i] == old(sinks)[i] + MeaningOf(ts, e, name, datetimePattern, strftime)
    {
      CanonicalSurvives(ts);
      CompiledDate(ts, datetimePattern);
      ghost var date0 := datetimePattern;
      SetFormatters(Print(ts));
      CompiledMeaning(ts, e, name, date0, datetimePattern, strftime);
      ShortFits(Run(formatters, e, name, datetimePattern, strftime), 0);
      Log(e, stream, strftime);
    }
  }

  lemma {:induction false} RunLength(fs: seq<Formatter>, e: Event, name: string, date: string,
                                     strftime: Strftime)
    ensures |Run(fs, e, name, date, strftime)| == |fs|
    decreases fs
  {
    if fs != [] { RunLength(fs[1..], e, name, date, strftime); }
  }

  lemma {:induction false} RunAt(fs: seq<Formatter>, e: Event, name: string, date: string,
                                 strftime: Strftime, i: nat)
    requires i < |fs| && Typed(e)
    ensures |Run(fs, e, name, date, strftime)| == |fs|
    ensures Run(fs, e, name, date, strftime)[i] == RunFormatter(fs[i], e, name, date, strftime)
    ensures var p := RunFormatter(fs[i], e, name, date, strftime);
            p.Int? ==> MIN_VALUE <= p.value <= MAX_VALUE
    decreases fs
  {
    RunLength(fs, e, name, date, strftime);
    if i > 0 { RunAt(fs[1..], e, name, date, strftime, i - 1); }
  }

  lemma PieceStep(ps: seq<Piece>, i: nat, written: string)
    requires i < |ps|
    ensures written + Joined(ps[i..]) == written + PieceText(ps[i]) + Joined(ps[i + 1..])
    ensures forall pos: nat :: Fits(ps[i..], pos) ==>
              && pos + |PieceText(ps[i])| + (if ps[i].Int? then 1 else 0) <= MAX_LENGTH
              && Fits(ps[i + 1..], pos + |PieceText(ps[i])|)
  {
    assert ps[i..][0] == ps[i] && ps[i..][1..] == ps[i + 1..];
  }
}
