/** WritableFile with its fixed buffer, proved against the functions of FileStream. */
module WritableFile {
  import opened FileStream

  class Writer {
    const buf: array<char>
    var pos: nat
    var disk: seq<char>                // what the descriptor has received
    var script: seq<SysWrite>          // outcomes of the coming ::write calls

    ghost predicate Valid()
      reads this
    {
      buf.Length == CAPACITY && pos <= CAPACITY
    }

    ghost function View(): (f: File)
      reads this, buf
      requires Valid()
    {
      File(disk, buf[..pos])
    }

    constructor (script: seq<SysWrite>)
      ensures Valid() && fresh(buf) && buf.Length == 65535
      ensures View() == File([], []) && this.script == script
    {
      buf := new char[CAPACITY](i => '\0');
      pos := 0;
      disk := [];
      this.script := script;
    }

    /** ::write on the descriptor until everything is out, retrying when interrupted. */
    method Write(data: seq<char>) returns (status: Status)
      modifies this`disk, this`script
      ensures (disk, status, script) == WriteAll(old(disk), data, old(script))
    {
      var left := data;
      while |left| > 0
        invariant WriteAll(disk, left, script) == WriteAll(old(disk), data, old(script))
        decreases |script|
      {
        if script == [] { return Pending; }
        var outcome := script[0];
        script := script[1..];
        match outcome {
          case Interrupted =>
          case Error => return Failed;
          case Wrote(n) =>
            var k := Min(n, |left|);
            disk := disk + left[..k];
            left := left[k..];
        }
      }
      return Ok;
    }

    method FlushBuffer() returns (status: Status)
      requires Valid()
      modifies this`disk, this`script, this`pos
      ensures Valid()
      ensures (View(), status, script) == Flush(old(View()), old(script))
    {
      status := Write(buf[..pos]);
      if status != Pending { pos := 0; }
    }

    /** memcpy of `data` to buf_ + at. */
    method Copy(data: seq<char>, at: nat)
      requires at + |data| <= buf.Length
      modifies buf
      ensures buf[..at] == old(buf[..at])
      ensures buf[at..at + |data|] == data
    {
      forall i | 0 <= i < |data| { buf[at + i] := data[i]; }
    }

    method AppendData(data: seq<char>) returns (status: Status)
      requires Valid()
      modifies this`disk, this`script, this`pos, buf
      ensures Valid()
      ensures (View(), status) == Append(old(View()), data, old(script))
      ensures script == AppendLeaves(old(View()), data, old(script))
    {
      var k := Min(|data|, CAPACITY - pos);
      Copy(data[..k], pos);
      pos := pos + k;
      assert buf[..pos] == old(buf[..pos]) + data[..k];
      var rest := data[k..];
      if rest == [] { return Ok; }
      status := FlushBuffer();
      if status != Ok { return; }
      if |rest| < CAPACITY {
        Copy(rest, 0);
        pos := |rest|;
        return Ok;
      }
      status := Write(rest);
    }

    method CloseFile(closes: bool) returns (status: Status)
      requires Valid()
      modifies this`disk, this`script, this`pos
      ensures Valid()
      ensures (View(), status) == Close(old(View()), old(script), closes)
    {
      status := FlushBuffer();
      if status != Pending && !closes { status := Failed; }
    }
  }
}
