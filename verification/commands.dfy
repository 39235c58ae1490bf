/** The command side of the protocol: how a received line is classified and
    how a KEY code becomes calls on the jog service and the backend. All
    variants share one code table; the collaborators are modelled by the log
    of calls made on them. */
module Commands {
  import opened Base
  import opened Text

  datatype Axis = X | Y | Z | A

  /** One call on a collaborator: the first six on the jog service, the rest
      on the backend. */
  datatype Action =
    | JogZ(dz: int)                        // adjustManualLocationZ
    | JogABC(da: int, db: int, dc: int)    // adjustManualLocationABC
    | JogXY(dx: int, dy: int)              // adjustManualLocationXY
    | SetStepZ(sizeZ: real)                // setStepSizeZ
    | SetStepXY(sizeXY: real)              // setStepSizeXY
    | SetStepABC(sizeABC: real)            // setStepSizeABC
    | ZeroAxis(axis: Axis)                 // resetCoordinateToZero
    | SendGcode(command: string)           // sendGcodeCommand
    | ReturnToZero                         // returnToZero
    | Home                                 // performHomingCycle
    | SendJob                              // send
    | PauseResume                          // pauseResume
    | Cancel                               // cancel

  predicate IsJogMove(a: Action) {
    a.JogZ? || a.JogABC? || a.JogXY?
  }

  predicate IsStepSetter(a: Action) {
    a.SetStepZ? || a.SetStepXY? || a.SetStepABC?
  }

  predicate IsBackendCall(a: Action) {
    !IsJogMove(a) && !IsStepSetter(a)
  }

  /** setStep: the same size for the Z, XY and ABC groups, in that order. */
  function SetStep(size: real): seq<Action> {
    [SetStepZ(size), SetStepXY(size), SetStepABC(size)]
  }

  /** The step size keys 8 to 11 select. */
  function StepSize(code: int): real
    requires 8 <= code <= 11
  {
    if code == 8 then 0.001 else if code == 9 then 0.01 else if code == 10 then 0.1 else 1.0
  }

  /** handleCode: the calls a KEY code makes. `available` says whether both
      the backend and the jog service were found; without them nothing is
      called. Codes 20, 21 and 24 and every code outside 0..27 call nothing. */
  function HandleCode(code: int, available: bool): (r: seq<Action>)
    ensures !available ==> r == []
    ensures available && 0 <= code <= 7 ==> |r| == 1 && IsJogMove(r[0])
    ensures available && 8 <= code <= 11 ==> r == SetStep(StepSize(code))
    ensures available && (12 <= code <= 19 || code in {22, 23, 25, 26, 27}) ==>
              |r| == 1 && IsBackendCall(r[0])
    ensures (code < 0 || code > 27 || code in {20, 21, 24}) ==> r == []
  {
    if !available then []
    else match code
      case 0 => [JogZ(-1)]
      case 1 => [JogABC(-1, 0, 0)]
      case 2 => [JogABC(1, 0, 0)]
      case 3 => [JogZ(1)]
      case 4 => [JogXY(0, -1)]
      case 5 => [JogXY(1, 0)]
      case 6 => [JogXY(0, 1)]
      case 7 => [JogXY(-1, 0)]
      case 8 => SetStep(0.001)
      case 9 => SetStep(0.010)
      case 10 => SetStep(0.100)
      case 11 => SetStep(1.000)
      case 12 => [ZeroAxis(A)]
      case 13 => [ZeroAxis(Z)]
      case 14 => [ZeroAxis(Y)]
      case 15 => [ZeroAxis(X)]
      case 16 => [SendGcode("G53 G0 A0")]
      case 17 => [SendGcode("G53 G0 Z0")]
      case 18 => [SendGcode("G53 G0 Y0")]
      case 19 => [SendGcode("G53 G0 X0")]
      case 22 => [ReturnToZero]
      case 23 => [Home]
      case 25 => [SendJob]
      case 26 => [PauseResume]
      case 27 => [Cancel]
      case _ => []
  }

  /** The key a pendant sends for a call: the reading of the table in the
      other direction, independent of HandleCode. */
  function KeyFor(a: Action): Option<int> {
    match a
    case JogZ(d) => if d == -1 then Some(0) else if d == 1 then Some(3) else None
    case JogABC(da, db, dc) =>
      if db != 0 || dc != 0 then None
      else if da == -1 then Some(1) else if da == 1 then Some(2) else None
    case JogXY(dx, dy) =>
      if dx == 0 && dy == -1 then Some(4)
      else if dx == 1 && dy == 0 then Some(5)
      else if dx == 0 && dy == 1 then Some(6)
      else if dx == -1 && dy == 0 then Some(7)
      else None
    case SetStepXY(v) =>
      if v == 0.001 then Some(8) else if v == 0.01 then Some(9)
      else if v == 0.1 then Some(10) else if v == 1.0 then Some(11) else None
    case SetStepZ(_) => None
    case SetStepABC(_) => None
    case ZeroAxis(ax) => Some(match ax case A => 12 case Z => 13 case Y => 14 case X => 15)
    case SendGcode(cmd) =>
      if cmd == "G53 G0 A0" then Some(16) else if cmd == "G53 G0 Z0" then Some(17)
      else if cmd == "G53 G0 Y0" then Some(18) else if cmd == "G53 G0 X0" then Some(19)
      else None
    case ReturnToZero => Some(22)
    case Home => Some(23)
    case SendJob => Some(25)
    case PauseResume => Some(26)
    case Cancel => Some(27)
  }

  /** The action that identifies what a code does: its only call, or the XY
      setter for the three step setters. */
  function Signature(r: seq<Action>): Action
    requires |r| > 0
  {
    if |r| == 3 then r[1] else r[0]
  }

  /** The table is one-to-one: every code that does something can be read
      back from what it does, so no two codes share an effect. */
  lemma HandleCodeInvertible(code: int)
    requires HandleCode(code, true) != []
    ensures KeyFor(Signature(HandleCode(code, true))) == Some(code)
  {
  }

  /** And every call the pendant can name is made by exactly that key. */
  lemma KeyForSound(a: Action)
    requires KeyFor(a).Some?
    ensures a in HandleCode(KeyFor(a).value, true)
  {
  }

  /** A received line, classified the way every session loop tests it. */
  datatype Message =
    | Nano                      // the line "NANO"
    | Req                       // the line "REQ"
    | Key(code: int)            // "KEY:" and a suffix Integer.parseInt accepts
    | BadKey(suffix: string)    // "KEY:" and a suffix it rejects
    | Other(text: string)

  /** The tests the loops apply to a trimmed line: equality with "NANO",
      startsWith("KEY:") followed by Integer.parseInt of the rest, equality
      with "REQ". The three shapes exclude each other, so the order the
      variants test them in does not matter. */
  function Classify(line: string): (m: Message)
    ensures m.Nano? <==> line == "NANO"
    ensures m.Req? <==> line == "REQ"
    ensures (m.Key? || m.BadKey?) <==> StartsWith(line, "KEY:")
    ensures m.Key? ==> IsInt32(m.code) && ParseInt(line[4..]) == Some(m.code)
    ensures m.BadKey? ==> ParseInt(line[4..]).None?
  {
    if line == "NANO" then
      assert line[..4][0] != "KEY:"[0];
      Nano
    else if StartsWith(line, "KEY:") then
      match ParseInt(line[4..])
      case Some(k) => Key(k)
      case None => BadKey(line[4..])
    else if line == "REQ" then Req
    else Other(line)
  }

  /** Whether some line of a drain is a KEY line parseInt rejects. */
  predicate HasBadKey(lines: seq<string>) {
    exists i :: 0 <= i < |lines| && Classify(lines[i]).BadKey?
  }

  /** The line a pendant sends for a key. */
  function KeyLine(code: int): string {
    "KEY:" + ShowInt(code)
  }

  /** Classification reads back every key line: Classify inverts KeyLine. */
  lemma ClassifyKeyLine(code: int)
    requires IsInt32(code)
    ensures Classify(KeyLine(code)) == Key(code)
  {
    var line := KeyLine(code);
    assert line[..4] == "KEY:";
    assert line[4..] == ShowInt(code);
    ParseShowInt(code);
    assert line != "NANO";
  }

  /** A key suffix with a space is not an integer: "KEY: 5" is a bad key. */
  lemma SpacedKeyIsBad()
    ensures Classify("KEY: 5") == BadKey(" 5")
  {
    assert "KEY: 5"[..4] == "KEY:";
    assert "KEY: 5"[4..] == " 5";
  }

  /** What a session does to the outside world, in order. */
  datatype Effect =
    | Write(data: seq<Byte>)    // bytes written (and flushed) to the port
    | Invoke(action: Action)    // a call on the jog service or the backend
    | ClosePort                 // closePort() on the active port

  function Invocations(actions: seq<Action>): (es: seq<Effect>)
    ensures |es| == |actions|
    ensures forall i :: 0 <= i < |actions| ==> es[i] == Invoke(actions[i])
    ensures ClosePort !in es
  {
    if |actions| == 0 then [] else [Invoke(actions[0])] + Invocations(actions[1..])
  }
}
