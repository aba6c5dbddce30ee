// The File of the fourth iteration: a CLOSED/OPEN/DELETED state field
// guarded by contracts, and a `read` that hands out a fresh zero-filled
// buffer.
module FileB04 {
  import opened Common
  import opened FileLifecycle

  class File {
    var state: FileState

    /** A new file starts CLOSED. */
    constructor()
      ensures state == Closed
    {
      state := Closed;
    }

    /** `open`: CLOSED becomes OPEN; a deleted or already open file is refused. */
    method Open() returns (o: Outcome)
      modifies this
      ensures o == Pass <==> old(state) == Closed
      ensures o != Pass ==> o == Fail(InvalidStateException)
      ensures state == Step(old(state), OpenOp)
    {
      if state == Deleted {
        return Fail(InvalidStateException);
      }
      if state != Closed {
        return Fail(InvalidStateException);
      }
      state := FileState.Open;
      return Pass;
    }

    /** `read(n)`: a new buffer of `n` zero bytes, from an open file only. */
    method Read(noBytes: int) returns (r: Result<array<Int8>>)
      ensures r.Err? <==> ReadError(state, noBytes).Some?
      ensures r.Err? ==> r.error == ReadError(state, noBytes).value
      ensures r.Ok? ==> fresh(r.value) && r.value.Length == noBytes
      ensures r.Ok? ==> forall k :: 0 <= k < r.value.Length ==> r.value[k] == 0
    {
      if noBytes < 0 {
        return Err(IllegalArgumentException);
      }
      if state != FileState.Open {
        return Err(InvalidStateException);
      }
      var buffer := new Int8[noBytes](_ => 0);
      return Ok(buffer);
    }

    /** `close`: OPEN becomes CLOSED; any other state is refused. */
    method Close() returns (o: Outcome)
      modifies this
      ensures o == Pass <==> old(state) == FileState.Open
      ensures o != Pass ==> o == Fail(InvalidStateException)
      ensures state == Step(old(state), CloseOp)
    {
      if state != FileState.Open {
        return Fail(InvalidStateException);
      }
      state := Closed;
      return Pass;
    }

    /** `doGetFileState`: the current state. */
    method GetFileState() returns (s: FileState)
      ensures s == state
    {
      return state;
    }
  }

  /** A session on a new file: reading before opening, opening twice, a negative count and
      closing twice are refused; an open file reads zeros, and closing it makes it CLOSED. */
  method Session() returns (early: Result<array<Int8>>, first: Outcome, again: Outcome,
                            bytes: Result<array<Int8>>, negative: Result<array<Int8>>,
                            closed: Outcome, twice: Outcome, final: FileState)
    ensures early == Err(InvalidStateException) && first == Pass && again == Fail(InvalidStateException)
    ensures bytes.Ok? && bytes.value.Length == 3 && forall k :: 0 <= k < 3 ==> bytes.value[k] == 0
    ensures negative == Err(IllegalArgumentException)
    ensures closed == Pass && twice == Fail(InvalidStateException) && final == Closed
  {
    var f := new File();
    early := f.Read(4);
    first := f.Open();
    again := f.Open();
    bytes := f.Read(3);
    negative := f.Read(-1);
    closed := f.Close();
    twice := f.Close();
    final := f.GetFileState();
  }
}
