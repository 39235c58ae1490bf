/** SerialCommand.java (and the identical first class of serialcommand.java):
    a 100 ms loop that scans for the peer while disconnected and runs
    heartbeatTick while connected. The peer pings with "NANO" (answered with
    "UGS\n"), asks for the status buffer with "REQ" and sends keys as
    "KEY:<code>". The status buffer is refreshed by the backend's event
    listener through collectStatus and sent as it stands by pushBuffer. */
module Nano {
  import opened Base
  import opened Text
  import opened Framer
  import opened Commands
  import opened Wire
  import opened Snapshot
  import opened Supervisor
  import opened Scan

  /** The fields of SerialCommand that outlive a tick. */
  datatype Session = Session(link: Link, buffer: seq<Byte>)

  predicate Valid(s: Session) {
    |s.buffer| == 38
  }

  /** The object as constructed: disconnected, lastNanoPing = 0, an empty
      line and an all-zero buffer. */
  function Initial(): (s: Session)
    ensures Valid(s) && !s.link.connected && s.link.line == []
  {
    Session(Link(false, 0, []), EmptyBuffer())
  }

  /** The reply to a ping. */
  function UgsReply(): (bs: seq<Byte>)
    ensures |bs| == 4 && bs[3] == 0x0A
  {
    Ascii("UGS\n")
  }

  /** How heartbeatTick reacts to one trimmed line. Only "NANO" refreshes the
      time stamp; a KEY line with a suffix that is not an integer throws. */
  function React(m: Message, buffer: seq<Byte>, available: bool): (rc: Reaction)
    requires |buffer| == 38
    ensures rc.refresh <==> m.Nano?
    ensures rc.fails <==> m.BadKey?
    ensures ClosePort !in rc.effects
    ensures m.Nano? ==> rc.effects == [Write(UgsReply())]
    ensures m.Key? ==> rc.effects == Invocations(HandleCode(m.code, available))
    ensures m.Req? ==> rc.effects == [Write(BufferFrame(buffer))]
    ensures m.Other? || m.BadKey? ==> rc.effects == []
  {
    match m
    case Nano => Reaction(true, [Write(UgsReply())], false)
    case Key(code) => Reaction(false, Invocations(HandleCode(code, available)), false)
    case BadKey(_) => Reaction(false, [], true)
    case Req => Reaction(false, [Write(BufferFrame(buffer))], false)
    case Other(_) => Reaction(false, [], false)
  }

  function Reactor(buffer: seq<Byte>, available: bool): Supervisor.Reactor
    requires |buffer| == 38
  {
    m => React(m, buffer, available)
  }

  /** heartbeatTick: a no-op while disconnected; otherwise one drain, the
      reactions, and the timeout check. The status buffer is not touched. */
  function HeartbeatTick(s: Session, input: seq<Read>, now: int, available: bool): (r: (Session, seq<Effect>))
    requires Valid(s)
    ensures Valid(r.0) && r.0.buffer == s.buffer
    ensures !s.link.connected ==> r == (s, [])
    ensures r.0.link.connected ==> now - r.0.link.lastPing <= TimeoutMs
    ensures ClosePort in r.1 ==> !r.0.link.connected && r.1[|r.1| - 1] == ClosePort
  {
    assert NeverCloses(Reactor(s.buffer, available));
    var t := Tick(Reactor(s.buffer, available), s.link, input, now);
    (Session(t.link, s.buffer), t.effects)
  }

  predicate HasNano(lines: seq<string>) {
    exists i :: 0 <= i < |lines| && lines[i] == "NANO"
  }

  lemma RefreshIsNano(buffer: seq<Byte>, available: bool, lines: seq<string>)
    requires |buffer| == 38
    ensures AnyRefresh(Reactor(buffer, available), lines) <==> HasNano(lines)
  {
    var react := Reactor(buffer, available);
    if AnyRefresh(react, lines) {
      var i :| 0 <= i < |lines| && react(Classify(lines[i])).refresh;
      assert lines[i] == "NANO";
    }
    if HasNano(lines) {
      var i :| 0 <= i < |lines| && lines[i] == "NANO";
      assert react(Classify(lines[i])).refresh;
    }
  }

  /** Liveness of a connected tick. lastNanoPing becomes `now` exactly when a
      "NANO" line is handled before any bad key; KEY and REQ lines leave it
      alone. Without a bad key, the tick disconnects and closes the port
      exactly when the time stamp is more than 10000 ms old; a bad key
      disconnects without closing the port and empties the line. */
  lemma HeartbeatLiveness(s: Session, input: seq<Read>, now: int, available: bool)
    requires Valid(s) && s.link.connected
    ensures
      var lines := Drained(s.link, input);
      var r := HeartbeatTick(s, input, now, available);
      && r.0.link.lastPing == (if HasNano(Handled(Reactor(s.buffer, available), lines)) then now else s.link.lastPing)
      && (HasBadKey(lines) ==> !r.0.link.connected && ClosePort !in r.1 && r.0.link.line == [])
      && (!HasBadKey(lines) ==>
            (!r.0.link.connected <==> now - r.0.link.lastPing > 10000) &&
            (ClosePort in r.1 <==> !r.0.link.connected))
  {
    var react := Reactor(s.buffer, available);
    var lines := Drained(s.link, input);
    TickOutcome(react, s.link, input, now);
    RefreshIsNano(s.buffer, available, Handled(react, lines));
    assert FailsOnBadKeys(react);
    FailsIsBadKey(react, lines);
  }

  /** A ping split over two ticks is still one ping: "NA" in one tick and
      "NO\n" in the next (at the same clock reading) act like "NANO\n" in one. */
  lemma HeartbeatChunks(s: Session, in1: seq<Read>, in2: seq<Read>, now: int, available: bool)
    requires Valid(s) && s.link.connected && NoEndOfStream(in1)
    requires HeartbeatTick(s, in1, now, available).0.link.connected
    ensures
      var r1 := HeartbeatTick(s, in1, now, available);
      var r2 := HeartbeatTick(r1.0, in2, now, available);
      HeartbeatTick(s, in1 + in2, now, available) == (r2.0, r1.1 + r2.1)
  {
    TickChunks(Reactor(s.buffer, available), s.link, in1, in2, now);
  }

  /** KEY:25 sends the job and does nothing else. */
  lemma Key25SendsJob(buffer: seq<Byte>)
    requires |buffer| == 38
    ensures React(Classify("KEY:25"), buffer, true).effects == [Invoke(SendJob)]
  {
    assert ShowInt(25) == "25";
    assert KeyLine(25) == "KEY:25";
    ClassifyKeyLine(25);
    assert Invocations([SendJob]) == [Invoke(SendJob)];
  }

  /** startSerialConnection: the active scan. On success the session is
      connected with lastNanoPing = now; the pending line is NOT cleared (the
      StringBuilder is a field that only a '\n' empties). Without a match the
      session is left as it was. */
  function Connect(s: Session, ports: seq<Candidate>, now: int): (r: (Session, ScanResult))
    requires Valid(s)
    ensures Valid(r.0) && r.0.buffer == s.buffer && r.0.link.line == s.link.line
    ensures r.1 == ScanPorts(Active, ports)
    ensures r.1.selected.Some? ==> r.0.link.connected && r.0.link.lastPing == now
    ensures r.1.selected.None? ==> r.0 == s
  {
    var scan := ScanPorts(Active, ports);
    if scan.selected.None? then (s, scan)
    else (Session(Link(true, now, s.link.line), s.buffer), scan)
  }

  /** A partial line left when the session timed out is prefixed to the
      first line of the next session, since reconnecting keeps the line
      builder. */
  lemma PartialLineSurvivesReconnect(s: Session, ports: seq<Candidate>, now: int, input: seq<Read>, cs: seq<char>)
    requires Valid(s) && ScanPorts(Active, ports).selected.Some?
    requires Available(input) == cs + ['\n'] && '\n' !in cs && '\r' !in cs
    ensures Drained(Connect(s, ports, now).0.link, input) == [Trim(s.link.line + cs)]
  {
    FrameCompletesLine(s.link.line, cs);
  }

  /** For instance "NA" pending, then "NANO\n" after reconnecting, gives the
      line "NANANO", which is not a ping. */
  lemma PingAfterReconnectIsLost(s: Session, ports: seq<Candidate>, now: int)
    requires Valid(s) && s.link.line == "NA"
    requires ScanPorts(Active, ports).selected.Some?
    ensures Drained(Connect(s, ports, now).0.link, NanoLine()) == ["NANANO"]
    ensures Classify("NANANO") == Other("NANANO")
  {
    NanoLineChars();
    PartialLineSurvivesReconnect(s, ports, now, NanoLine(), "NANO");
    JoinedLine();
    NananoIsOther();
  }

  lemma JoinedLine()
    ensures Trim("NA" + "NANO") == "NANANO"
  {
    assert "NA" + "NANO" == "NANANO";
    TrimOfTrimmed("NANANO");
  }

  lemma NananoIsOther()
    ensures Classify("NANANO") == Other("NANANO")
  {
    var line := "NANANO";
    assert |line| == 6;
    assert line[..4][0] == 'N';
  }

  /** The bytes of "NANO\n" as the port delivers them. */
  function NanoLine(): (input: seq<Read>)
    ensures NoEndOfStream(input)
  {
    [Data(0x4E), Data(0x41), Data(0x4E), Data(0x4F), Data(0x0A)]
  }

  lemma NanoLineChars()
    ensures Available(NanoLine()) == "NANO" + ['\n']
  {
    var cs := Available(NanoLine());
    assert |cs| == 5;
  }

  /** The event listener's collectStatus on the session's buffer. */
  function Collect(s: Session, svc: Services, m: Machine, nums: Numerics): (r: Session)
    requires Valid(s)
    ensures Valid(r) && r.link == s.link
    ensures svc.backend && svc.jog ==>
              DecodeBufferFrame(BufferFrame(r.buffer)) == Some(StatusWords(m, nums))
  {
    assert svc.backend && svc.jog ==>
             DecodeBufferFrame(BufferFrame(CollectStatus(s.buffer, svc, m, nums))) == Some(StatusWords(m, nums)) by {
      if svc.backend && svc.jog {
        BufferFrameCarriesStatus(s.buffer, svc, m, nums);
      }
    }
    Session(s.link, CollectStatus(s.buffer, svc, m, nums))
  }

  /** A REQ sends whatever the last collectStatus left in the buffer: the
      peer reads back the six status words. */
  lemma ReqSendsCollectedStatus(s: Session, svc: Services, m: Machine, nums: Numerics, available: bool)
    requires Valid(s) && svc.backend && svc.jog
    ensures
      var c := Collect(s, svc, m, nums);
      var es := React(Req, c.buffer, available).effects;
      |es| == 1 && DecodeBufferFrame(es[0].data) == Some(StatusWords(m, nums))
  {
  }
}
