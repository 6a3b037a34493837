/**
 * Reading and writing a small root-owned file in full. A schedule says what each `read` or `write` call
 * does: it is interrupted, or it moves some bytes. When the schedule ends the next call fails with a
 * hard error, so schedules stand for all runs of the loops that come to an end.
 */
module SecureIo {
  import opened Text

  datatype FileError = NotFound | PermissionDenied | ReadError | WriteError

  datatype Errno = ENOENT | ENOTDIR | EACCES | EPERM | ELOOP | OtherErrno

  function ErrnoToFileError(err: Errno, fallback: FileError): FileError {
    match err
    case ENOENT | ENOTDIR => NotFound
    case EACCES | EPERM | ELOOP => PermissionDenied
    case OtherErrno => fallback
  }

  /** A file; `safe` is what `is_file_safe` finds on its descriptor. */
  datatype Node = Node(content: string, safe: bool)

  datatype WriteStep = WriteInterrupted | Wrote(n: nat)

  /** `seen` is the content of the file when the call is made: others may change it between calls. */
  datatype ReadStep = ReadInterrupted | ReadUpTo(n: nat, seen: string)

  datatype WritePlan = WritePlan(openError: Option<Errno>, statFails: bool, steps: seq<WriteStep>)

  datatype ReadPlan = ReadPlan(openError: Option<Errno>, statFails: bool, seekFails: bool, steps: seq<ReadStep>)

  function Min(a: nat, b: nat): nat {
    if a < b then a else b
  }

  /** How many of `size` bytes get written. */
  function BytesWritten(size: nat, steps: seq<WriteStep>): (n: nat)
    ensures n <= size
    decreases |steps|
  {
    if size == 0 || steps == [] then 0
    else
      match steps[0]
      case WriteInterrupted => BytesWritten(size, steps[1..])
      case Wrote(k) =>
        var n := Min(k, size);
        n + BytesWritten(size - n, steps[1..])
  }

  /** The new file and the answer: opening truncates, whatever happens afterwards. */
  function Written(node: Option<Node>, plan: WritePlan, content: string): (Option<Node>, Result<(), FileError>) {
    if plan.openError.Some? then (node, Err(ErrnoToFileError(plan.openError.value, WriteError)))
    else
      var safe := node.None? || node.value.safe;
      if plan.statFails || !safe then (Some(Node("", safe)), Err(PermissionDenied))
      else
        var n := BytesWritten(|content|, plan.steps);
        (Some(Node(content[..n], safe)), if n == |content| then Ok(()) else Err(WriteError))
  }

  /** What the read loop gets out of a file of `size` bytes when it already has `got`. */
  function BytesRead(size: nat, got: string, steps: seq<ReadStep>): (r: Option<string>)
    requires |got| <= size
    ensures r.Some? ==> |r.value| == size && got <= r.value
    decreases |steps|
  {
    if |got| == size then Some(got)
    else if steps == [] then None
    else
      match steps[0]
      case ReadInterrupted => BytesRead(size, got, steps[1..])
      case ReadUpTo(n, seen) =>
        var end := Min(|seen|, |got| + Min(n, size - |got|));
        if end <= |got| then None else BytesRead(size, got + seen[|got|..end], steps[1..])
  }

  function ReadBack(node: Option<Node>, plan: ReadPlan): Result<string, FileError> {
    if plan.openError.Some? then Err(ErrnoToFileError(plan.openError.value, ReadError))
    else if node.None? then Err(NotFound)
    else if plan.statFails || !node.value.safe then Err(PermissionDenied)
    else if plan.seekFails then Err(ReadError)
    else
      var r := BytesRead(|node.value.content|, "", plan.steps);
      if r.Some? then Ok(r.value) else Err(ReadError)
  }

  /** `write_file_secure`. */
  method WriteFileSecure(node: Option<Node>, plan: WritePlan, content: string)
    returns (node': Option<Node>, result: Result<(), FileError>)
    ensures (node', result) == Written(node, plan, content)
    ensures result.Ok? <==> plan.openError.None? && !plan.statFails && (node.None? || node.value.safe)
                            && BytesToWrite(plan.steps) >= |content|
    ensures result.Ok? ==> node' == Some(Node(content, true))
    ensures plan.openError.Some? ==> node' == node
    ensures plan.openError.None? && (plan.statFails || (node.Some? && !node.value.safe)) ==>
              result == Err(PermissionDenied) && node' == Some(Node("", node.None? || node.value.safe))
    ensures result.Err? && plan.openError.None? ==>
              node'.Some? && node'.value.content <= content && (content != "" ==> node'.value.content < content)
  {
    if plan.openError.Some? {
      return node, Err(ErrnoToFileError(plan.openError.value, WriteError));
    }
    BytesWrittenExactly(|content|, plan.steps);
    var safe := node.None? || node.value.safe;
    var stored := "";
    if plan.statFails || !safe {
      return Some(Node(stored, safe)), Err(PermissionDenied);
    }
    var total: nat, i: nat := 0, 0;
    while total < |content|
      invariant total <= |content| && i <= |plan.steps|
      invariant stored == content[..total]
      invariant total + BytesWritten(|content| - total, plan.steps[i..]) == BytesWritten(|content|, plan.steps)
      decreases |plan.steps| - i
    {
      if i == |plan.steps| {
        return Some(Node(stored, safe)), Err(WriteError);
      }
      var step := plan.steps[i];
      assert plan.steps[i..][1..] == plan.steps[i + 1..];
      i := i + 1;
      if step.WriteInterrupted? {
        continue;
      }
      var n := Min(step.n, |content| - total);
      stored := stored + content[total..total + n];
      total := total + n;
    }
    assert content[..|content|] == content;
    return Some(Node(stored, safe)), Ok(());
  }

  /** `read_file_secure`: a success has the length the file had when it was measured. */
  method ReadFileSecure(node: Option<Node>, plan: ReadPlan) returns (result: Result<string, FileError>)
    ensures result == ReadBack(node, plan)
    ensures result.Ok? ==> node.Some? && node.value.safe && |result.value| == |node.value.content|
    ensures result.Ok? ==> plan.openError.None? && !plan.statFails && !plan.seekFails
    ensures plan.openError.None? && node.None? ==> result == Err(NotFound)
    ensures plan.openError.None? && node.Some? && (plan.statFails || !node.value.safe) ==>
              result == Err(PermissionDenied)
  {
    if plan.openError.Some? {
      return Err(ErrnoToFileError(plan.openError.value, ReadError));
    }
    if node.None? {
      return Err(NotFound);
    }
    if plan.statFails || !node.value.safe {
      return Err(PermissionDenied);
    }
    if plan.seekFails {
      return Err(ReadError);
    }
    var size := |node.value.content|;
    var content := "";
    var i: nat := 0;
    while |content| < size
      invariant |content| <= size && i <= |plan.steps|
      invariant BytesRead(size, content, plan.steps[i..]) == BytesRead(size, "", plan.steps)
      decreases |plan.steps| - i
    {
      if i == |plan.steps| {
        return Err(ReadError);
      }
      var step := plan.steps[i];
      assert plan.steps[i..][1..] == plan.steps[i + 1..];
      i := i + 1;
      if step.ReadInterrupted? {
        continue;
      }
      var end := Min(|step.seen|, |content| + Min(step.n, size - |content|));
      if end <= |content| {
        break;
      }
      content := content + step.seen[|content|..end];
    }
    if |content| != size {
      return Err(ReadError);
    }
    return Ok(content);
  }

  /** Nobody changes the file while it is read. */
  predicate Undisturbed(steps: seq<ReadStep>, content: string) {
    forall i | 0 <= i < |steps| :: steps[i].ReadUpTo? ==> steps[i].seen == content
  }

  lemma UndisturbedRead(content: string, got: string, steps: seq<ReadStep>)
    requires got <= content && Undisturbed(steps, content)
    ensures var r := BytesRead(|content|, got, steps); r.Some? ==> r.value == content
  {
    UndisturbedReadExactly(content, got, steps);
  }

  /** A successful write followed by a successful read returns the bytes that were written. */
  lemma WriteThenRead(node: Option<Node>, write: WritePlan, content: string, read: ReadPlan)
    requires Written(node, write, content).1.Ok?
    requires Undisturbed(read.steps, content)
    ensures var r := ReadBack(Written(node, write, content).0, read); r.Ok? ==> r.value == content
  {
    assert content[..|content|] == content;
    UndisturbedRead(content, "", read.steps);
  }

  /** All that the write calls would take of an endless text. */
  function BytesToWrite(steps: seq<WriteStep>): nat {
    if steps == [] then 0 else (if steps[0].Wrote? then steps[0].n else 0) + BytesToWrite(steps[1..])
  }

  /** The loop writes what the calls take, and no more than there is. */
  lemma {:induction false} BytesWrittenExactly(size: nat, steps: seq<WriteStep>)
    ensures BytesWritten(size, steps) == Min(size, BytesToWrite(steps))
    decreases |steps|
  {
    if size > 0 && steps != [] {
      var n := if steps[0].Wrote? then Min(steps[0].n, size) else 0;
      BytesWrittenExactly(size - n, steps[1..]);
    }
  }

  /** All that the read calls would give of an endless file; a call that gives nothing is the end of the file. */
  function BytesToRead(steps: seq<ReadStep>): nat {
    if steps == [] || (steps[0].ReadUpTo? && steps[0].n == 0) then 0
    else (if steps[0].ReadUpTo? then steps[0].n else 0) + BytesToRead(steps[1..])
  }

  /** The number of calls that move at least one byte. */
  function WritingCalls(steps: seq<WriteStep>): nat {
    if steps == [] then 0 else (if steps[0].Wrote? && steps[0].n > 0 then 1 else 0) + WritingCalls(steps[1..])
  }

  /** A file nobody changes is read, and completely, if and only if the calls before an empty one give all of it. */
  lemma {:induction false} UndisturbedReadExactly(content: string, got: string, steps: seq<ReadStep>)
    requires got <= content && Undisturbed(steps, content)
    ensures BytesRead(|content|, got, steps) ==
            if |got| + BytesToRead(steps) >= |content| then Some(content) else None
    decreases |steps|
  {
    if |got| < |content| && steps != [] {
      var rest := steps[1..];
      assert Undisturbed(rest, content) by {
        assert forall i | 0 <= i < |rest| :: rest[i] == steps[i + 1];
      }
      if steps[0].ReadInterrupted? {
        UndisturbedReadExactly(content, got, rest);
      } else {
        var end := |got| + Min(steps[0].n, |content| - |got|);
        assert steps[0].seen == content;
        if |got| < end {
          assert got + content[|got|..end] == content[..end];
          UndisturbedReadExactly(content, content[..end], rest);
        }
      }
    } else if |got| == |content| {
      assert got == content;
    }
  }

  /** Every byte that is read was in the file when some call read it. */
  lemma {:induction false} ReadsWhatIsSeen(size: nat, got: string, steps: seq<ReadStep>, i: nat)
    requires |got| <= size && |got| <= i < size && BytesRead(size, got, steps).Some?
    ensures exists j | 0 <= j < |steps| ::
              steps[j].ReadUpTo? && i < |steps[j].seen| && BytesRead(size, got, steps).value[i] == steps[j].seen[i]
    decreases |steps|
  {
    var rest := steps[1..];
    if steps[0].ReadInterrupted? {
      ReadsWhatIsSeen(size, got, rest, i);
      var j :| 0 <= j < |rest| && rest[j].ReadUpTo? && i < |rest[j].seen|
               && BytesRead(size, got, steps).value[i] == rest[j].seen[i];
      assert rest[j] == steps[j + 1];
    } else {
      var seen := steps[0].seen;
      var end := Min(|seen|, |got| + Min(steps[0].n, size - |got|));
      var more := got + seen[|got|..end];
      if i < end {
        assert more[i] == seen[i] && more <= BytesRead(size, got, steps).value;
        assert BytesRead(size, got, steps).value[i] == steps[0].seen[i];
      } else {
        ReadsWhatIsSeen(size, more, rest, i);
        var j :| 0 <= j < |rest| && rest[j].ReadUpTo? && i < |rest[j].seen|
                 && BytesRead(size, more, rest).value[i] == rest[j].seen[i];
        assert rest[j] == steps[j + 1];
      }
    }
  }

  /** The number of calls that read at least one byte, before one that reads none. */
  function ReadingCalls(steps: seq<ReadStep>): nat {
    if steps == [] || (steps[0].ReadUpTo? && steps[0].n == 0) then 0
    else (if steps[0].ReadUpTo? then 1 else 0) + ReadingCalls(steps[1..])
  }

  lemma {:induction false} ReadingCallsGive(steps: seq<ReadStep>)
    ensures BytesToRead(steps) >= ReadingCalls(steps)
  {
    if steps != [] {
      ReadingCallsGive(steps[1..]);
    }
  }

  /** Nor a read: enough calls that read something read everything. */
  lemma ShortReadsSuffice(content: string, steps: seq<ReadStep>)
    requires Undisturbed(steps, content) && ReadingCalls(steps) >= |content|
    ensures BytesRead(|content|, "", steps) == Some(content)
  {
    ReadingCallsGive(steps);
    UndisturbedReadExactly(content, "", steps);
  }

  /** What each error of `open` becomes; only an unknown one is told from reading or writing. */
  lemma OpenErrors(node: Option<Node>, read: ReadPlan, write: WritePlan, content: string, e: Errno)
    requires read.openError == Some(e) && write.openError == Some(e)
    ensures e in {ENOENT, ENOTDIR} ==>
              ReadBack(node, read) == Err(NotFound) && Written(node, write, content) == (node, Err(NotFound))
    ensures e in {EACCES, EPERM, ELOOP} ==>
              && ReadBack(node, read) == Err(PermissionDenied)
              && Written(node, write, content) == (node, Err(PermissionDenied))
    ensures e == OtherErrno ==>
              ReadBack(node, read) == Err(ReadError) && Written(node, write, content) == (node, Err(WriteError))
  {
  }

  /** Interruptions and short transfers alone never make a write fail: enough calls write everything. */
  lemma {:induction false} ShortTransfersSuffice(size: nat, steps: seq<WriteStep>)
    requires WritingCalls(steps) >= size
    ensures BytesWritten(size, steps) == size
    decreases |steps|
  {
    if size > 0 && steps != [] {
      var n := if steps[0].Wrote? then Min(steps[0].n, size) else 0;
      ShortTransfersSuffice(size - n, steps[1..]);
    }
  }
}
