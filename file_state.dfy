// The CLOSED/OPEN/DELETED life cycle shared by the File classes of the
// fourth and fifth iteration, stated as pure transitions so that whole
// sequences of calls can be reasoned about.
module FileLifecycle {
  import opened Common

  /** The three states of a file. */
  datatype FileState = Open | Closed | Deleted

  /** A signed byte, the element type of the buffers `read` returns. */
  newtype Int8 = x: int | -128 <= x < 128

  /** The calls that take part in the life cycle. */
  datatype Op = OpenOp | CloseOp | ReadOp(noBytes: int)

  /** `open`: refused when deleted or already open; CLOSED becomes OPEN. */
  function AfterOpen(s: FileState): (r: Result<FileState>)
    ensures r.Ok? <==> s == Closed
    ensures r.Ok? ==> r.value == Open
    ensures r.Err? ==> r.error == InvalidStateException
  {
    if s == Deleted then Err(InvalidStateException)
    else if s != Closed then Err(InvalidStateException)
    else Ok(Open)
  }

  /** `close`: only an open file can be closed, and it becomes CLOSED. */
  function AfterClose(s: FileState): (r: Result<FileState>)
    ensures r.Ok? <==> s == Open
    ensures r.Ok? ==> r.value == Closed
    ensures r.Err? ==> r.error == InvalidStateException
  {
    if s != Open then Err(InvalidStateException) else Ok(Closed)
  }

  /** The error `read(n)` raises in state `s`, if any; a read never changes the state. */
  function ReadError(s: FileState, noBytes: int): (r: Option<Exception>)
    ensures r == None <==> noBytes >= 0 && s == Open
    ensures noBytes < 0 ==> r == Some(IllegalArgumentException)
    ensures noBytes >= 0 && s != Open ==> r == Some(InvalidStateException)
  {
    if noBytes < 0 then Some(IllegalArgumentException)
    else if s != Open then Some(InvalidStateException)
    else None
  }

  /** The state after one call; a refused call leaves the state as it was. */
  function Step(s: FileState, op: Op): (r: FileState)
    ensures r == Deleted ==> s == Deleted
    ensures op.ReadOp? ==> r == s
  {
    match op
    case OpenOp => if AfterOpen(s).Ok? then AfterOpen(s).value else s
    case CloseOp => if AfterClose(s).Ok? then AfterClose(s).value else s
    case ReadOp(_) => s
  }

  /** The state after a sequence of calls, first call first. */
  function Run(s: FileState, ops: seq<Op>): FileState
    decreases |ops|
  {
    if ops == [] then s else Run(Step(s, ops[0]), ops[1..])
  }

  /** No sequence of calls ever leads a file that is not deleted into DELETED. */
  lemma {:induction false} NeverDeleted(s: FileState, ops: seq<Op>)
    requires s != Deleted
    ensures Run(s, ops) != Deleted
    decreases |ops|
  {
    if ops != [] {
      NeverDeleted(Step(s, ops[0]), ops[1..]);
    }
  }

  /** So every file, created CLOSED, is OPEN or CLOSED after any calls. */
  lemma FromCreation(ops: seq<Op>)
    ensures Run(Closed, ops) == Open || Run(Closed, ops) == Closed
  {
    NeverDeleted(Closed, ops);
  }

  /** Opening and closing alternate: after open-close the file is CLOSED again. */
  lemma {:induction false} OpenCloseCycles(k: nat)
    ensures Run(Closed, Cycles(k)) == Closed
    decreases k
  {
    if k > 0 {
      RunAppend(Closed, [OpenOp, CloseOp], Cycles(k - 1));
      OpenCloseCycles(k - 1);
    }
  }

  /** `k` repetitions of open followed by close. */
  function Cycles(k: nat): (r: seq<Op>)
    ensures |r| == 2 * k
    decreases k
  {
    if k == 0 then [] else [OpenOp, CloseOp] + Cycles(k - 1)
  }

  lemma {:induction false} RunAppend(s: FileState, a: seq<Op>, b: seq<Op>)
    ensures Run(s, a + b) == Run(Run(s, a), b)
    decreases |a|
  {
    if a == [] {
      assert a + b == b;
    } else {
      assert (a + b)[0] == a[0];
      assert (a + b)[1..] == a[1..] + b;
      RunAppend(Step(s, a[0]), a[1..], b);
    }
  }
}
