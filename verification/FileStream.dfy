/**
 Buffered file output: WritableFile must behave like a plain stream although every write to the
 descriptor may be partial, interrupted or fail.

 The outcomes of the `::write` calls are a script.  A call that has used up its script before it
 could return is Pending; this makes the states in the middle of a call visible as well.
 */
module FileStream {
  const CAPACITY: nat := 65535

  /** Outcome of one ::write: bytes accepted (at most the size asked for), EINTR, another error. */
  datatype SysWrite = Wrote(n: nat) | Interrupted | Error

  datatype Status = Ok | Failed | Pending

  /** Bytes on disk, and buf_[0..pos_]. */
  datatype File = File(disk: seq<char>, buffer: seq<char>)

  function Min(a: nat, b: nat): (r: nat) { if a <= b then a else b }

  // ---------------------------------------------------------------------------
  // The code
  // ---------------------------------------------------------------------------

  /** WritableFile::write: the disk, the status and the unused part of the script. */
  function WriteAll(disk: seq<char>, data: seq<char>, script: seq<SysWrite>): (r: (seq<char>, Status, seq<SysWrite>))
    decreases script
  {
    if data == [] then (disk, Ok, script)
    else if script == [] then (disk, Pending, [])
    else
      match script[0]
      case Interrupted => WriteAll(disk, data, script[1..])
      case Error => (disk, Failed, script[1..])
      case Wrote(n) =>
        var k := Min(n, |data|);
        WriteAll(disk + data[..k], data[k..], script[1..])
  }

  /** flushBuffer: the buffer is dropped when the write returns, whatever it returned. */
  function Flush(f: File, script: seq<SysWrite>): (r: (File, Status, seq<SysWrite>)) {
    var (disk, status, rest) := WriteAll(f.disk, f.buffer, script);
    (File(disk, if status == Pending then f.buffer else []), status, rest)
  }

  function Append(f: File, data: seq<char>, script: seq<SysWrite>): (r: (File, Status))
    requires |f.buffer| <= CAPACITY
  {
    var k := Min(|data|, CAPACITY - |f.buffer|);
    var filled := f.(buffer := f.buffer + data[..k]);
    var rest := data[k..];
    if rest == [] then (filled, Ok)
    else
      var (flushed, status, script') := Flush(filled, script);
      if status != Ok then (flushed, status)
      else if |rest| < CAPACITY then (flushed.(buffer := rest), Ok)
      else
        var (disk, status', _) := WriteAll(flushed.disk, rest, script');
        (flushed.(disk := disk), status')
  }

  /** The outcomes an append does not use. */
  function AppendLeaves(f: File, data: seq<char>, script: seq<SysWrite>): (r: seq<SysWrite>)
    requires |f.buffer| <= CAPACITY
  {
    var k := Min(|data|, CAPACITY - |f.buffer|);
    var rest := data[k..];
    if rest == [] then script
    else
      var (flushed, status, script') := Flush(f.(buffer := f.buffer + data[..k]), script);
      if status != Ok || |rest| < CAPACITY then script' else WriteAll(flushed.disk, rest, script').2
  }

  /** closeFile: flush, then ::close, which may fail on its own. */
  function Close(f: File, script: seq<SysWrite>, closes: bool): (r: (File, Status)) {
    var (flushed, status, _) := Flush(f, script);
    (flushed, if status == Pending then Pending else if closes then status else Failed)
  }

  // ---------------------------------------------------------------------------
  // One call
  // ---------------------------------------------------------------------------

  /** write puts a prefix of its data on disk: all of it iff it succeeds. */
  lemma {:induction false} WritesPrefix(disk: seq<char>, data: seq<char>, script: seq<SysWrite>) returns (m: nat)
    ensures m <= |data|
    ensures WriteAll(disk, data, script).0 == disk + data[..m]
    ensures WriteAll(disk, data, script).1 == Ok <==> m == |data|
    decreases script
  {
    if data == [] || script == [] || script[0].Error? {
      m := 0;
      assert disk + data[..0] == disk;
    } else if script[0].Interrupted? {
      m := WritesPrefix(disk, data, script[1..]);
    } else {
      var k := Min(script[0].n, |data|);
      var m' := WritesPrefix(disk + data[..k], data[k..], script[1..]);
      m := k + m';
      assert disk + data[..k] + data[k..][..m'] == disk + data[..m];
    }
  }

  /** More outcomes continue a write: what is on disk stays there, and a write that had returned is
      not affected. */
  lemma {:induction false} WriteContinues(disk: seq<char>, data: seq<char>, a: seq<SysWrite>, b: seq<SysWrite>)
    ensures var (d, status, rest) := WriteAll(disk, data, a);
            var (d', status', rest') := WriteAll(disk, data, a + b);
            && d <= d'
            && (status != Pending ==> d' == d && status' == status && rest' == rest + b)
    decreases a
  {
    if data == [] {
    } else if a == [] {
      assert a + b == b;
      var m := WritesPrefix(disk, data, b);
    } else {
      assert (a + b)[0] == a[0] && (a + b)[1..] == a[1..] + b;
      match a[0]
      case Interrupted => WriteContinues(disk, data, a[1..], b);
      case Error =>
      case Wrote(n) =>
        var k := Min(n, |data|);
        WriteContinues(disk + data[..k], data[k..], a[1..], b);
    }
  }

  /** The same for a whole append. */
  lemma AppendContinues(f: File, data: seq<char>, a: seq<SysWrite>, b: seq<SysWrite>)
    requires |f.buffer| <= CAPACITY
    ensures Append(f, data, a).0.disk <= Append(f, data, a + b).0.disk
    ensures Append(f, data, a).1 != Pending ==> Append(f, data, a + b) == Append(f, data, a)
  {
    var k := Min(|data|, CAPACITY - |f.buffer|);
    var filled := f.(buffer := f.buffer + data[..k]);
    var rest := data[k..];
    if rest != [] {
      WriteContinues(filled.disk, filled.buffer, a, b);
      var (flushed, status, script) := Flush(filled, a);
      if status == Ok {
        WriteContinues(flushed.disk, rest, script, b);
      } else if status == Pending {
        var (flushed', status', script') := Flush(filled, a + b);
        if status' == Ok && |rest| >= CAPACITY { var m := WritesPrefix(flushed'.disk, rest, script'); }
      }
    }
  }

  /** Everything handed to the file so far, when it has been faithful. */
  function Stream(f: File): (r: seq<char>) { f.disk + f.buffer }

  /** A write extends the disk by a prefix of its data: by all of it iff it succeeds. */
  lemma WriteRefinesStream(disk: seq<char>, data: seq<char>, script: seq<SysWrite>)
    ensures var (d, status, _) := WriteAll(disk, data, script);
            && disk <= d <= disk + data
            && (status == Ok ==> d == disk + data)
            && (status != Ok ==> |d| < |disk| + |data|)
  {
    var m := WritesPrefix(disk, data, script);
    assert data == data[..m] + data[m..];
  }

  /** A flush puts a prefix of the stream on disk: all of it iff it succeeds. */
  lemma FlushRefinesStream(f: File, script: seq<SysWrite>)
    ensures var (f', status, _) := Flush(f, script);
            && f.disk <= f'.disk <= Stream(f)
            && (status == Ok ==> f'.disk == Stream(f) && f'.buffer == [])
            && (status != Pending ==> f'.buffer == [])
            && (status == Failed ==> |f'.disk| < |Stream(f)|)
  {
    WriteRefinesStream(f.disk, f.buffer, script);
  }

  lemma PrefixExtends(a: seq<char>, b: seq<char>, c: seq<char>)
    requires a <= b
    ensures a <= b + c
  {}

  lemma FillingKeepsStream(f: File, data: seq<char>, k: nat)
    requires k <= |data|
    ensures Stream(f.(buffer := f.buffer + data[..k])) + data[k..] == Stream(f) + data
  {
    assert data == data[..k] + data[k..];
  }

  /** An append that succeeds extends the stream by its data; at every moment of an append the disk
      holds a prefix of the extended stream; an append that fails loses bytes for good. */
  lemma AppendRefinesStream(f: File, data: seq<char>, script: seq<SysWrite>)
    requires |f.buffer| <= CAPACITY
    ensures var (f', status) := Append(f, data, script);
            && |f'.buffer| <= CAPACITY
            && f.disk <= f'.disk <= Stream(f) + data
            && (status == Ok ==> Stream(f') == Stream(f) + data)
            && (status == Failed ==> |Stream(f')| < |Stream(f)| + |data|)
  {
    var k := Min(|data|, CAPACITY - |f.buffer|);
    var filled := f.(buffer := f.buffer + data[..k]);
    var rest := data[k..];
    FillingKeepsStream(f, data, k);
    FlushRefinesStream(filled, script);
    if rest == [] {
      assert Stream(filled) + rest == Stream(filled);
    } else {
      var (flushed, status, script') := Flush(filled, script);
      PrefixExtends(flushed.disk, Stream(filled), rest);
      if status == Ok { WriteRefinesStream(flushed.disk, rest, script'); }
    }
  }

  /** A successful close leaves the whole stream on disk. */
  lemma CloseWritesStream(f: File, script: seq<SysWrite>, closes: bool)
    ensures var (f', status) := Close(f, script, closes);
            && f.disk <= f'.disk <= Stream(f)
            && (status == Ok ==> f'.disk == Stream(f) && f'.buffer == [])
  {
    FlushRefinesStream(f, script);
  }

  // ---------------------------------------------------------------------------
  // Runs
  // ---------------------------------------------------------------------------

  datatype Call = Call(data: seq<char>, script: seq<SysWrite>)

  function Data(calls: seq<Call>): (r: seq<char>) {
    if calls == [] then [] else calls[0].data + Data(calls[1..])
  }

  lemma DataFirst(stream: seq<char>, calls: seq<Call>)
    requires calls != []
    ensures stream + Data(calls) == (stream + calls[0].data) + Data(calls[1..])
  {}

  /** The file after the calls, up to and including the first one that does not succeed, and the
      status of the last call made. */
  function RunUntilFailure(f: File, calls: seq<Call>): (r: (File, Status))
    requires |f.buffer| <= CAPACITY
    decreases calls
  {
    if calls == [] then (f, Ok)
    else
      AppendRefinesStream(f, calls[0].data, calls[0].script);
      var (f', status) := Append(f, calls[0].data, calls[0].script);
      if status != Ok then (f', status) else RunUntilFailure(f', calls[1..])
  }

  /** While calls succeed, disk and buffer together are the concatenation of everything appended; up
      to and including the first call that does not, the disk is a prefix of it. */
  lemma {:induction false} BufferingRefinesStream(f: File, calls: seq<Call>)
    requires |f.buffer| <= CAPACITY
    ensures var (f', status) := RunUntilFailure(f, calls);
            && |f'.buffer| <= CAPACITY
            && f'.disk <= Stream(f) + Data(calls)
            && (status == Ok ==> Stream(f') == Stream(f) + Data(calls))
    decreases calls
  {
    if calls != [] {
      AppendRefinesStream(f, calls[0].data, calls[0].script);
      var (f', status) := Append(f, calls[0].data, calls[0].script);
      DataFirst(Stream(f), calls);
      if status == Ok { BufferingRefinesStream(f', calls[1..]); }
    }
  }

  /** After appends that all succeed, a successful close makes the file equal to the stream. */
  lemma CloseAfterSuccessIsComplete(calls: seq<Call>, script: seq<SysWrite>, closes: bool)
    requires RunUntilFailure(File([], []), calls).1 == Ok
    requires Close(RunUntilFailure(File([], []), calls).0, script, closes).1 == Ok
    ensures Close(RunUntilFailure(File([], []), calls).0, script, closes).0.disk == Data(calls)
  {
    BufferingRefinesStream(File([], []), calls);
    CloseWritesStream(RunUntilFailure(File([], []), calls).0, script, closes);
    assert Stream(File([], [])) + Data(calls) == Data(calls);
  }

  /** The file after all calls, going on after failures, and how many of them failed. */
  function RunAll(f: File, calls: seq<Call>): (r: (File, nat))
    requires |f.buffer| <= CAPACITY
    decreases calls
  {
    if calls == [] then (f, 0)
    else
      AppendRefinesStream(f, calls[0].data, calls[0].script);
      var (f', status) := Append(f, calls[0].data, calls[0].script);
      var (f'', failures) := RunAll(f', calls[1..]);
      (f'', if status == Failed then failures + 1 else failures)
  }

  predicate AllReturn(f: File, calls: seq<Call>)
    requires |f.buffer| <= CAPACITY
    decreases calls
  {
    calls == [] ||
    (AppendRefinesStream(f, calls[0].data, calls[0].script);
     var (f', status) := Append(f, calls[0].data, calls[0].script);
     status != Pending && AllReturn(f', calls[1..]))
  }

  /** A close reports a failing flush and a failing ::close, and succeeds iff both succeed; the buffer
      is gone either way. */
  lemma CloseExactly(f: File, script: seq<SysWrite>, closes: bool)
    ensures var (f', status) := Close(f, script, closes);
            var flush := WriteAll(f.disk, f.buffer, script).1;
            && (status == Pending <==> flush == Pending)
            && (status == Ok <==> flush == Ok && closes)
            && (status == Failed <==> flush == Failed || (flush == Ok && !closes))
            && (status != Pending ==> f'.buffer == [])
  {}

  // ---------------------------------------------------------------------------
  // When calls fail, in terms of their inputs
  // ---------------------------------------------------------------------------

  /** Bytes that a script accepts. */
  function Accepted(script: seq<SysWrite>): (n: nat) {
    if script == [] then 0 else (if script[0].Wrote? then script[0].n else 0) + Accepted(script[1..])
  }

  /** The first error of the script is at `i`, and comes before `n` bytes were accepted. */
  predicate ErrorBefore(script: seq<SysWrite>, n: nat, i: nat) {
    && i < |script| && script[i].Error?
    && (forall j :: 0 <= j < i ==> !script[j].Error?)
    && Accepted(script[..i]) < n
  }

  /** Writing `n` bytes with this script fails. */
  predicate WriteFails(n: nat, script: seq<SysWrite>) {
    exists i :: 0 <= i < |script| && ErrorBefore(script, n, i)
  }

  lemma AcceptedFirst(script: seq<SysWrite>, i: nat)
    requires 0 < i <= |script|
    ensures Accepted(script[..i]) == (if script[0].Wrote? then script[0].n else 0) + Accepted(script[1..][..i - 1])
  {
    assert script[..i][1..] == script[1..][..i - 1];
  }

  lemma WriteFailsLater(n: nat, k: nat, script: seq<SysWrite>)
    requires script != [] && !script[0].Error? && n > 0
    requires k == if script[0].Wrote? then Min(script[0].n, n) else 0
    ensures WriteFails(n, script) <==> WriteFails(n - k, script[1..])
  {
    if WriteFails(n, script) {
      var i :| 0 <= i < |script| && ErrorBefore(script, n, i);
      AcceptedFirst(script, i);
      assert forall j :: 0 <= j < i - 1 ==> script[1..][j] == script[j + 1];
      assert ErrorBefore(script[1..], n - k, i - 1);
    }
    if WriteFails(n - k, script[1..]) {
      var i :| 0 <= i < |script[1..]| && ErrorBefore(script[1..], n - k, i);
      AcceptedFirst(script, i + 1);
      forall j | 0 <= j < i + 1 ensures !script[j].Error? {
        if j > 0 { assert script[j] == script[1..][j - 1]; }
      }
      assert ErrorBefore(script, n, i + 1);
    }
  }

  /** A write fails iff the first error of ::write comes before all bytes were accepted. */
  lemma {:induction false} WriteFailsExactly(disk: seq<char>, data: seq<char>, script: seq<SysWrite>)
    ensures WriteAll(disk, data, script).1 == Failed <==> WriteFails(|data|, script)
    decreases script
  {
    if data != [] && script != [] {
      if script[0].Error? {
        assert ErrorBefore(script, |data|, 0);
      } else if script[0].Interrupted? {
        WriteFailsLater(|data|, 0, script);
        WriteFailsExactly(disk, data, script[1..]);
      } else {
        var k := Min(script[0].n, |data|);
        WriteFailsLater(|data|, k, script);
        WriteFailsExactly(disk + data[..k], data[k..], script[1..]);
      }
    }
  }

  /** The outcomes before the first error. */
  function BeforeError(script: seq<SysWrite>): (r: seq<SysWrite>) {
    if script == [] || script[0].Error? then [] else [script[0]] + BeforeError(script[1..])
  }

  lemma WrittenInParts(disk: seq<char>, data: seq<char>, k: nat, m: nat)
    requires k + m <= |data|
    ensures disk + data[..k] + data[k..][..m] == disk + data[..k + m]
  {
    assert data[..k] + data[k..][..m] == data[..k + m];
  }

  /** Exactly the bytes accepted before the first error reach the disk, up to the data at hand. */
  lemma {:induction false} WrittenExactly(disk: seq<char>, data: seq<char>, script: seq<SysWrite>)
    ensures WriteAll(disk, data, script).0 == disk + data[..Min(|data|, Accepted(BeforeError(script)))]
    decreases script
  {
    if data == [] || script == [] || script[0].Error? {
      assert disk + data[..0] == disk;
    } else {
      var rest := BeforeError(script[1..]);
      assert ([script[0]] + rest)[1..] == rest;
      if script[0].Interrupted? {
        WrittenExactly(disk, data, script[1..]);
      } else {
        var k := Min(script[0].n, |data|);
        WrittenExactly(disk + data[..k], data[k..], script[1..]);
        var m := Min(|data| - k, Accepted(rest));
        WrittenInParts(disk, data, k, m);
        assert k + m == Min(|data|, Accepted(BeforeError(script)));
      }
    }
  }

  /** The part of the script that a write of `n` bytes does not use when it succeeds. */
  function Unused(n: nat, script: seq<SysWrite>): (r: seq<SysWrite>) {
    if n == 0 || script == [] then script
    else Unused(if script[0].Wrote? then n - Min(script[0].n, n) else n, script[1..])
  }

  lemma {:induction false} WriteLeaves(disk: seq<char>, data: seq<char>, script: seq<SysWrite>)
    requires WriteAll(disk, data, script).1 == Ok
    ensures WriteAll(disk, data, script).2 == Unused(|data|, script)
    decreases script
  {
    if data != [] && script != [] {
      match script[0]
      case Interrupted => WriteLeaves(disk, data, script[1..]);
      case Error =>
      case Wrote(n) =>
        var k := Min(n, |data|);
        WriteLeaves(disk + data[..k], data[k..], script[1..]);
    }
  }

  /** An append of `n` bytes behind `buffered` ones fails: it overflows the buffer, and the flush of
      the full buffer fails, or, when a whole buffer or more is left over, the write of the rest. */
  predicate AppendFails(buffered: nat, n: nat, script: seq<SysWrite>) {
    && buffered + n > CAPACITY
    && (|| WriteFails(CAPACITY, script)
        || (buffered + n - CAPACITY >= CAPACITY && WriteFails(buffered + n - CAPACITY, Unused(CAPACITY, script))))
  }

  /** Bytes buffered after an append that returned. */
  function BufferedAfter(buffered: nat, n: nat, script: seq<SysWrite>): (r: nat) {
    if buffered + n <= CAPACITY then buffered + n
    else if AppendFails(buffered, n, script) || buffered + n - CAPACITY >= CAPACITY then 0
    else buffered + n - CAPACITY
  }

  lemma AppendFailsExactly(f: File, data: seq<char>, script: seq<SysWrite>)
    requires |f.buffer| <= CAPACITY && Append(f, data, script).1 != Pending
    ensures Append(f, data, script).1 == Failed <==> AppendFails(|f.buffer|, |data|, script)
    ensures |Append(f, data, script).0.buffer| == BufferedAfter(|f.buffer|, |data|, script)
  {
    var k := Min(|data|, CAPACITY - |f.buffer|);
    var filled := f.(buffer := f.buffer + data[..k]);
    var rest := data[k..];
    if rest != [] {
      assert |filled.buffer| == CAPACITY && |rest| == |f.buffer| + |data| - CAPACITY;
      WriteFailsExactly(filled.disk, filled.buffer, script);
      var (flushed, status, left) := Flush(filled, script);
      if status == Ok {
        WriteLeaves(filled.disk, filled.buffer, script);
        WriteFailsExactly(flushed.disk, rest, left);
      }
    }
  }

  predicate NoError(script: seq<SysWrite>) { forall i :: 0 <= i < |script| ==> !script[i].Error? }

  /** A write without errors in its script does not fail, leaves none behind, and stops short of its
      end only when the script is used up. */
  lemma {:induction false} WriteWithoutError(disk: seq<char>, data: seq<char>, script: seq<SysWrite>)
    ensures NoError(script) ==> WriteAll(disk, data, script).1 != Failed && NoError(WriteAll(disk, data, script).2)
    ensures WriteAll(disk, data, script).1 == Pending ==> WriteAll(disk, data, script).2 == []
    decreases script
  {
    if data != [] && script != [] && !script[0].Error? {
      assert NoError(script) ==> NoError(script[1..]);
      var k := if script[0].Wrote? then Min(script[0].n, |data|) else 0;
      assert script[0].Interrupted? ==> disk + data[..k] == disk && data[k..] == data;
      WriteWithoutError(disk + data[..k], data[k..], script[1..]);
    } else if data != [] && script != [] {
      assert !NoError(script);
    }
  }

  /** The same for an append. */
  lemma AppendWithoutError(f: File, data: seq<char>, script: seq<SysWrite>)
    requires |f.buffer| <= CAPACITY
    ensures NoError(script) ==> Append(f, data, script).1 != Failed && NoError(AppendLeaves(f, data, script))
    ensures Append(f, data, script).1 == Pending ==> AppendLeaves(f, data, script) == []
  {
    var k := Min(|data|, CAPACITY - |f.buffer|);
    var filled := f.(buffer := f.buffer + data[..k]);
    WriteWithoutError(filled.disk, filled.buffer, script);
    var (flushed, status, script') := Flush(filled, script);
    WriteWithoutError(flushed.disk, data[k..], script');
  }

  /** An append that fits the buffer never fails, whatever ::write would answer. */
  lemma FittingAppendSucceeds(f: File, data: seq<char>, script: seq<SysWrite>)
    requires |f.buffer| + |data| <= 65535
    ensures Append(f, data, script) == (f.(buffer := f.buffer + data), Ok)
  {
    assert data[..|data|] == data && data[|data|..] == [];
  }

  /** Some call of the run fails, by the lengths of the data and the outcomes of ::write alone. */
  predicate SomeFails(buffered: nat, calls: seq<Call>)
    decreases calls
  {
    calls != [] &&
    (|| AppendFails(buffered, |calls[0].data|, calls[0].script)
     || SomeFails(BufferedAfter(buffered, |calls[0].data|, calls[0].script), calls[1..]))
  }

  /** Going on after a failure never recovers: the file stands for the whole stream iff no call
      fails, and otherwise it is strictly shorter. */
  lemma {:induction false} FaithfulIffNoFailure(f: File, calls: seq<Call>)
    requires |f.buffer| <= CAPACITY && AllReturn(f, calls)
    ensures var (f', failures) := RunAll(f, calls);
            && (failures > 0 <==> SomeFails(|f.buffer|, calls))
            && (Stream(f') == Stream(f) + Data(calls) <==> !SomeFails(|f.buffer|, calls))
            && (SomeFails(|f.buffer|, calls) ==> |Stream(f')| < |Stream(f)| + |Data(calls)|)
            && |Stream(f')| <= |Stream(f)| + |Data(calls)|
    decreases calls
  {
    if calls != [] {
      AppendRefinesStream(f, calls[0].data, calls[0].script);
      AppendFailsExactly(f, calls[0].data, calls[0].script);
      var (f', status) := Append(f, calls[0].data, calls[0].script);
      DataFirst(Stream(f), calls);
      FaithfulIffNoFailure(f', calls[1..]);
    } else {
      assert Stream(f) + [] == Stream(f);
    }
  }

  /** An error on the first write of an append that overflows an empty buffer loses all its data, and
      the next append succeeds as if nothing had happened. */
  lemma FailureLeavesAHole(data: seq<char>, next: seq<char>)
    requires |data| > CAPACITY && |next| <= CAPACITY
    ensures RunAll(File([], []), [Call(data, [Error]), Call(next, [])]) == (File([], next), 1)
  {
    var f := File([], []);
    var calls := [Call(data, [Error]), Call(next, [])];
    assert Append(f, data, [Error]) == (f, Failed);
    assert next[..|next|] == next && next[|next|..] == [];
    assert f.buffer + next[..|next|] == next;
    assert Append(f, next, []) == (File([], next), Ok);
    assert calls[1..] == [Call(next, [])] && calls[1..][1..] == [];
    assert RunAll(f, calls[1..]) == (File([], next), 0);
  }
}
