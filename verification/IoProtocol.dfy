/** The last-operation protocol of binutils/bfd/bfdio.c: POSIX.1-2017 (fopen,
    DESCRIPTION, update mode) forbids output directly followed by input, and
    input directly followed by output, without a file positioning call between
    them.  The state machine below makes exactly the calls of the backend
    (bread, bwrite, bseek) that bfd_read, bfd_write and bfd_seek make; what each
    backend call answers is part of the operation, so every backend is covered. */
module IoProtocol {

  datatype LastIo = IoSeek | IoRead | IoWrite | IoForce

  /** A call of one of the backend's entry points. */
  datatype Call = ReadCall | WriteCall | SeekCall

  /** The backend's answer to a seek; on failure it may have moved `where`. */
  datatype SeekAnswer = SeekOk | SeekFailed(newWhere: nat)

  datatype State = State(lastIo: LastIo, where: int, calls: seq<Call>)

  /** `moved` is the number of octets transferred, or -1. */
  datatype Op =
    | Read(turn: SeekAnswer, moved: int)
    | Write(turn: SeekAnswer, moved: int)
    | Seek(relative: bool, position: int, answer: SeekAnswer)

  /** bfd_seek, with the element's offset already added to `position`. */
  function SeekStep(s: State, relative: bool, position: int, answer: SeekAnswer): State
  {
    if (if relative then position == 0 else position == s.where) && !s.lastIo.IoForce? then s
    else
      var t := s.(lastIo := IoSeek, calls := s.calls + [SeekCall]);
      match answer
      case SeekFailed(w) => t.(where := w)
      case SeekOk => t.(where := if relative then s.where + position else position)
  }

  /** The part bfd_read and bfd_write share: turn the stream round if the last
      operation went the other way, then make the call. */
  function Transfer(s: State, other: LastIo, mine: LastIo, call: Call, turn: SeekAnswer, moved: int): State
  {
    var turning := s.lastIo == other;
    var t := if turning then SeekStep(s.(lastIo := IoForce), true, 0, turn) else s;
    if turning && turn.SeekFailed? then t
    else t.(lastIo := mine, calls := t.calls + [call], where := if moved == -1 then t.where else t.where + moved)
  }

  function Step(s: State, op: Op): State
  {
    match op
    case Read(turn, moved) => Transfer(s, IoWrite, IoRead, ReadCall, turn, moved)
    case Write(turn, moved) => Transfer(s, IoRead, IoWrite, WriteCall, turn, moved)
    case Seek(relative, position, answer) => SeekStep(s, relative, position, answer)
  }

  function Run(s: State, ops: seq<Op>): State
    decreases ops
  {
    if ops == [] then s else Run(Step(s, ops[0]), ops[1..])
  }

  /** A freshly opened bfd: last_io is bfd_io_seek and nothing was called yet. */
  const FRESH := State(IoSeek, 0, [])

  predicate Clash(a: Call, b: Call)
  {
    (a.ReadCall? && b.WriteCall?) || (a.WriteCall? && b.ReadCall?)
  }

  /** No transfer directly follows a transfer in the other direction. */
  ghost predicate Orderly(calls: seq<Call>)
  {
    forall i :: 0 <= i < |calls| - 1 ==> !Clash(calls[i], calls[i + 1])
  }

  /** last_io names the direction of the last call whenever that call was a transfer. */
  ghost predicate Inv(s: State)
  {
    && Orderly(s.calls)
    && !s.lastIo.IoForce?
    && (s.calls != [] && s.calls[|s.calls| - 1].ReadCall? ==> s.lastIo.IoRead?)
    && (s.calls != [] && s.calls[|s.calls| - 1].WriteCall? ==> s.lastIo.IoWrite?)
  }

  lemma StepKeepsInv(s: State, op: Op)
    requires Inv(s)
    ensures Inv(Step(s, op))
  {
  }

  lemma {:induction false} RunKeepsInv(s: State, ops: seq<Op>)
    requires Inv(s)
    ensures Inv(Run(s, ops))
    decreases ops
  {
    if ops != [] {
      StepKeepsInv(s, ops[0]);
      RunKeepsInv(Step(s, ops[0]), ops[1..]);
    }
  }

  /** Every run on a fresh stream, with any answers of the backend, is orderly. */
  lemma EveryRunIsOrderly(ops: seq<Op>)
    ensures Orderly(Run(FRESH, ops).calls)
  {
    RunKeepsInv(FRESH, ops);
  }

  ghost predicate NoTurnNeeded(s: State, op: Op)
  {
    !(op.Read? && s.lastIo.IoWrite?) && !(op.Write? && s.lastIo.IoRead?)
  }

  /** A positioning call is inserted exactly where the direction of the last
      transfer was reversed, even if bfd_seek was asked to move to the current
      position in between and skipped the backend. */
  lemma TurnInsertedExactlyOnReversal(s: State, op: Op)
    requires Inv(s) && !op.Seek? && op.turn.SeekOk?
    ensures NoTurnNeeded(s, op) <==> |Step(s, op).calls| == |s.calls| + 1
    ensures !NoTurnNeeded(s, op) <==>
      Step(s, op).calls == s.calls + [SeekCall, if op.Read? then ReadCall else WriteCall]
    ensures s.calls != [] && Clash(s.calls[|s.calls| - 1], if op.Read? then ReadCall else WriteCall) ==>
      !NoTurnNeeded(s, op)
  {
    var call := if op.Read? then ReadCall else WriteCall;
    assert s.calls + [SeekCall] + [call] == s.calls + [SeekCall, call];
  }
}
