/** The pendant class of serialcommand.java: a passive scan for a port whose
    first line is "KEY:-1", an initial screen push, then a blocking read loop
    over lines in which every well-formed key is handled and everything else,
    a malformed key included, is skipped. There is no liveness timeout and
    no reconnection. */
module Pendant {
  import opened Base
  import opened Text
  import opened Commands
  import opened Snapshot
  import opened Scan
  import opened Lcd

  /** The calls one received line makes: the line is trimmed, and only a
      "KEY:" line whose suffix is an integer does anything. */
  function LineActions(line: string, available: bool): (acts: seq<Action>)
    ensures Classify(Trim(line)).Key? ==> acts == HandleCode(Classify(Trim(line)).code, available)
    ensures !Classify(Trim(line)).Key? ==> acts == []
  {
    match Classify(Trim(line))
    case Key(code) => HandleCode(code, available)
    case _ => []
  }

  /** The actions of a read loop that handles every line on its own: each
      line's actions, in order. */
  function Each(act: string -> seq<Action>, lines: seq<string>): seq<Action>
    decreases |lines|
  {
    if |lines| == 0 then [] else act(lines[0]) + Each(act, lines[1..])
  }

  lemma {:induction false} EachAppend(act: string -> seq<Action>, a: seq<string>, b: seq<string>)
    ensures Each(act, a + b) == Each(act, a) + Each(act, b)
    decreases |a|
  {
    if |a| == 0 {
      assert a + b == b;
    } else {
      assert (a + b)[0] == a[0];
      assert (a + b)[1..] == a[1..] + b;
      EachAppend(act, a[1..], b);
    }
  }

  /** The read loop over the lines the Scanner yields, until the stream ends.
      `available` says whether the backend and the jog service are found. */
  function Loop(lines: seq<string>, available: bool): seq<Action> {
    Each(line => LineActions(line, available), lines)
  }

  /** The loop is line by line: its calls on a + b are its calls on a, then
      on b. */
  lemma LoopAppend(a: seq<string>, b: seq<string>, available: bool)
    ensures Loop(a + b, available) == Loop(a, available) + Loop(b, available)
  {
    EachAppend(line => LineActions(line, available), a, b);
  }

  /** A malformed key is skipped and the loop carries on: unlike the
      heartbeat session, the lines after it are still handled. */
  lemma BadKeyIsSkipped(a: seq<string>, bad: string, b: seq<string>, available: bool)
    requires Classify(Trim(bad)).BadKey?
    ensures Loop(a + [bad] + b, available) == Loop(a, available) + Loop(b, available)
  {
    LoopAppend(a + [bad], b, available);
    LoopAppend(a, [bad], available);
    LoopSingle(bad, available);
  }

  lemma LoopSingle(line: string, available: bool)
    ensures Loop([line], available) == LineActions(line, available)
  {
    var act := l => LineActions(l, available);
    assert [line][1..] == [];
    assert Each(act, [line]) == act(line) + Each(act, []);
  }

  /** The handshake line does nothing when it arrives again. */
  lemma KeyNoopIsSkipped(a: seq<string>, b: seq<string>, available: bool)
    ensures Loop(a + [KeyNoop] + b, available) == Loop(a, available) + Loop(b, available)
  {
    LoopAppend(a + [KeyNoop], b, available);
    LoopAppend(a, [KeyNoop], available);
    LoopSingle(KeyNoop, available);
    KeyNoopDoesNothing(available);
  }

  lemma KeyNoopDoesNothing(available: bool)
    ensures LineActions(KeyNoop, available) == []
  {
    TrimOfTrimmed(KeyNoop);
    assert KeyLine(-1) == KeyNoop;
    ClassifyKeyLine(-1);
  }

  /** The lines a pendant sends for a sequence of key presses. */
  function KeyLines(codes: seq<int>): (lines: seq<string>)
    ensures |lines| == |codes|
    ensures forall i :: 0 <= i < |codes| ==> lines[i] == KeyLine(codes[i])
  {
    if |codes| == 0 then [] else [KeyLine(codes[0])] + KeyLines(codes[1..])
  }

  /** Reference semantics of a run of key presses: each code's calls, in
      order. */
  function Calls(codes: seq<int>, available: bool): seq<Action>
    decreases |codes|
  {
    if |codes| == 0 then [] else HandleCode(codes[0], available) + Calls(codes[1..], available)
  }

  /** Every key the pendant sends is executed, in order and exactly once. */
  lemma {:induction false} LoopRunsEveryKey(codes: seq<int>, available: bool)
    requires forall i :: 0 <= i < |codes| ==> IsInt32(codes[i])
    ensures Loop(KeyLines(codes), available) == Calls(codes, available)
    decreases |codes|
  {
    if |codes| > 0 {
      var lines := KeyLines(codes);
      assert lines[1..] == KeyLines(codes[1..]);
      var line := KeyLine(codes[0]);
      assert line[0] == 'K';
      assert IsDigit(line[|line| - 1]) by {
        var s := ShowInt(codes[0]);
        assert line[|line| - 1] == s[|s| - 1];
        if codes[0] < 0 {
          assert s[|s| - 1] == ShowNat(-codes[0])[|ShowNat(-codes[0])| - 1];
        }
      }
      TrimOfTrimmed(line);
      ClassifyKeyLine(codes[0]);
      LoopRunsEveryKey(codes[1..], available);
    }
  }

  /** The state the pendant thread reaches after the scan. */
  datatype Connection = Connection(scan: ScanResult, connected: bool, firstScreen: Option<string>)

  /** startSerialConnection up to the read loop: the passive scan, then, on a
      match, connected = true and one pushUpdate when the read-only backend
      exists. */
  function Connect(ports: seq<Candidate>, jogField: bool, svc: Services, awaiting: int, m: Machine, nums: Numerics): (c: Connection)
    ensures c.scan == ScanPorts(Passive, ports)
    ensures c.connected <==> c.scan.selected.Some?
    ensures forall j: nat :: Ack(j) !in c.scan.log
    ensures c.firstScreen.Some? <==> c.connected && svc.readOnly && awaiting == 0 && jogField
    ensures c.firstScreen.Some? ==> c.firstScreen == PushUpdate(true, jogField, svc, awaiting, m, nums)
  {
    var scan := ScanPorts(Passive, ports);
    PassiveNeverWrites(ports);
    if scan.selected.None? then Connection(scan, false, None)
    else Connection(scan, true, PushUpdate(true, jogField, svc, awaiting, m, nums))
  }

  /** The whole thread: the calls made after a successful scan. No port, no
      calls. */
  function Thread(ports: seq<Candidate>, lines: seq<string>, svc: Services): (acts: seq<Action>)
    ensures ScanPorts(Passive, ports).selected.None? ==> acts == []
  {
    if ScanPorts(Passive, ports).selected.None? then [] else Loop(lines, svc.backend && svc.jog)
  }
}
