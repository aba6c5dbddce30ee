// The File of the fifth iteration: the same life cycle as before, but
// `read` fills its buffer byte by byte through `readNextByte`, which
// itself checks that the file is open.
module FileB05 {
  import opened Common
  import opened FileLifecycle

  class File {
    var state: FileState

    /** A new file starts CLOSED. */
    constructor()
      ensures state == Closed
    {
      state := Closed;
    }

    /** `open`: CLOSED becomes OPEN; a deleted or already open file is refused. */
    method Open() returns (o: Outcome)
      modifies this
      ensures o == Pass <==> old(state) == Closed
      ensures o != Pass ==> o == Fail(InvalidStateException)
      ensures state == Step(old(state), OpenOp)
    {
      if state == Deleted {
        return Fail(InvalidStateException);
      }
      if state != Closed {
        return Fail(InvalidStateException);
      }
      state := FileState.Open;
      return Pass;
    }

    /** `read(n)`: `n` bytes taken one at a time from `readNextByte`, from an open file only. */
    method Read(noBytes: int) returns (r: Result<array<Int8>>)
      ensures r.Err? <==> ReadError(state, noBytes).Some?
      ensures r.Err? ==> r.error == ReadError(state, noBytes).value
      ensures r.Ok? ==> fresh(r.value) && r.value.Length == noBytes
      ensures r.Ok? ==> forall k :: 0 <= k < r.value.Length ==> r.value[k] == 0
    {
      if noBytes < 0 {
        return Err(IllegalArgumentException);
      }
      if state != FileState.Open {
        return Err(InvalidStateException);
      }
      var buffer := new Int8[noBytes];
      for i := 0 to noBytes
        invariant forall k :: 0 <= k < i ==> buffer[k] == 0
      {
        var next := ReadNextByte();
        if next.Err? {
          // a failure of readNextByte is passed on unchanged
          return Err(MethodFailedException);
        }
        buffer[i] := next.value;
      }
      return Ok(buffer);
    }

    /** `readNextByte`: the next byte, always 0; fails unless the file is open. */
    method ReadNextByte() returns (r: Result<Int8>)
      ensures state == FileState.Open ==> r == Ok(0)
      ensures state != FileState.Open ==> r == Err(MethodFailedException)
    {
      if state != FileState.Open {
        return Err(MethodFailedException);
      }
      return Ok(0);
    }

    /** `close`: OPEN becomes CLOSED; any other state is refused. */
    method Close() returns (o: Outcome)
      modifies this
      ensures o == Pass <==> old(state) == FileState.Open
      ensures o != Pass ==> o == Fail(InvalidStateException)
      ensures state == Step(old(state), CloseOp)
    {
      if state != FileState.Open {
        return Fail(InvalidStateException);
      }
      state := Closed;
      return Pass;
    }

    /** `doGetFileState`: the current state. */
    method GetFileState() returns (s: FileState)
      ensures s == state
    {
      return state;
    }
  }

  /** Calls on a file replayed one by one end in the state `Run` predicts, which is never DELETED. */
  method Replay(f: File, ops: seq<Op>)
    requires f.state != Deleted
    modifies f
    ensures f.state == Run(old(f.state), ops)
    ensures f.state != Deleted
  {
    NeverDeleted(f.state, ops);
    ghost var start := f.state;
    for i := 0 to |ops|
      invariant Run(start, ops) == Run(f.state, ops[i..])
    {
      assert ops[i..] == [ops[i]] + ops[i + 1..];
      match ops[i]
      case OpenOp =>
        var _ := f.Open();
      case CloseOp =>
        var _ := f.Close();
      case ReadOp(n) =>
        var _ := f.Read(n);
    }
    assert ops[|ops|..] == [];
  }
}
