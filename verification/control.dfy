/** serialControl.java: one connection thread that scans once, then runs one
    session until it times out or a bad key ends it; it never reconnects.
    The peer keeps the session alive with "REQ" (answered with a 44-byte
    snapshot) and sends keys as "KEY:<code>", each answered with a snapshot
    after the key's calls. "NANO" means nothing to this variant. */
module Control {
  import opened Base
  import opened Text
  import opened Framer
  import opened Commands
  import opened Wire
  import opened Snapshot
  import opened Supervisor
  import opened Scan

  /** What the session reads from outside during one iteration of the loop:
      the collaborators it found, the port's unsent byte count, the machine,
      and the floating-point operations. */
  datatype Env = Env(svc: Services, awaiting: int, machine: Machine, nums: Numerics)

  /** sendSnapshot as an effect: one write of the packet, or nothing. */
  function SnapshotWrites(env: Env): (es: seq<Effect>)
    ensures |es| <= 1
    ensures |es| == 1 <==> env.awaiting <= 0 && env.svc.readOnly && env.svc.jog
    ensures |es| == 1 ==> es[0].Write? && |es[0].data| == 44
    ensures |es| == 1 ==> Decode44(es[0].data) == Some(SanitizeAll(ControlFields(env.machine, env.nums)))
    ensures ClosePort !in es
  {
    match SendSnapshot(env.awaiting, env.svc, env.machine, env.nums)
    case Some(f) => [Write(f)]
    case None => []
  }

  /** How the loop reacts to one trimmed line. Only "REQ" refreshes the time
      stamp; a key is handled (when backend and jog service both exist) and
      then answered with a snapshot. */
  function React(m: Message, env: Env): (rc: Reaction)
    ensures rc.refresh <==> m.Req?
    ensures rc.fails <==> m.BadKey?
    ensures ClosePort !in rc.effects
    ensures m.Key? ==>
              rc.effects == Invocations(HandleCode(m.code, env.svc.backend && env.svc.jog)) + SnapshotWrites(env)
    ensures m.Req? ==> rc.effects == SnapshotWrites(env)
    ensures m.Nano? || m.Other? || m.BadKey? ==> rc.effects == []
  {
    match m
    case Key(code) =>
      Reaction(false, Invocations(HandleCode(code, env.svc.backend && env.svc.jog)) + SnapshotWrites(env), false)
    case Req => Reaction(true, SnapshotWrites(env), false)
    case BadKey(_) => Reaction(false, [], true)
    case Nano => Reaction(false, [], false)
    case Other(_) => Reaction(false, [], false)
  }

  function Reactor(env: Env): Supervisor.Reactor {
    m => React(m, env)
  }

  /** One iteration of `while (connected)`: drain, react, timeout check. */
  function Iteration(link: Link, input: seq<Read>, now: int, env: Env): (r: Stepped)
    ensures !link.connected ==> r == Stepped(link, [])
    ensures r.link.connected ==> link.connected && now - r.link.lastPing <= TimeoutMs
    ensures ClosePort in r.effects ==> !r.link.connected && r.effects[|r.effects| - 1] == ClosePort
  {
    Tick(Reactor(env), link, input, now)
  }

  /** The session after a successful scan: connected, the time stamp set to
      the clock, and a fresh, empty line builder. */
  function Connect(ports: seq<Candidate>, now: int): (r: (Option<Link>, ScanResult))
    ensures r.1 == ScanPorts(Active, ports)
    ensures r.0.Some? <==> r.1.selected.Some?
    ensures r.0.Some? ==> r.0.value == Link(true, now, [])
  {
    var scan := ScanPorts(Active, ports);
    if scan.selected.None? then (None, scan) else (Some(Link(true, now, [])), scan)
  }

  /** The whole connection thread: one scan at `now`, then one session over
      the polls, all with the same environment. However long the session
      runs, it closes the port at most once. */
  function Thread(ports: seq<Candidate>, now: int, polls: seq<Poll>, env: Env): (r: (ScanResult, seq<Effect>))
    ensures r.0 == ScanPorts(Active, ports)
    ensures r.0.selected.None? ==> r.1 == []
    ensures Closes(r.1) <= 1
  {
    var (link, scan) := Connect(ports, now);
    match link
    case None => (scan, [])
    case Some(l) =>
      RunClosesAtMostOnce(Reactor(env), l, polls);
      (scan, Run(Reactor(env), l, polls).effects)
  }

  predicate HasReq(lines: seq<string>) {
    exists i :: 0 <= i < |lines| && lines[i] == "REQ"
  }

  lemma RefreshIsReq(env: Env, lines: seq<string>)
    ensures AnyRefresh(Reactor(env), lines) <==> HasReq(lines)
  {
    var react := Reactor(env);
    if AnyRefresh(react, lines) {
      var i :| 0 <= i < |lines| && react(Classify(lines[i])).refresh;
      assert lines[i] == "REQ";
    }
    if HasReq(lines) {
      var i :| 0 <= i < |lines| && lines[i] == "REQ";
      assert react(Classify(lines[i])).refresh;
    }
  }

  /** Liveness of an iteration: the time stamp becomes `now` exactly when a
      "REQ" is handled before any bad key, so neither keys nor "NANO" keep
      the session alive. Without a bad key, the session ends, closing the
      port, exactly when the stamp is more than 10000 ms old; a bad key ends
      it without closing the port. */
  lemma IterationLiveness(link: Link, input: seq<Read>, now: int, env: Env)
    requires link.connected
    ensures
      var lines := Drained(link, input);
      var r := Iteration(link, input, now, env);
      && r.link.lastPing == (if HasReq(Handled(Reactor(env), lines)) then now else link.lastPing)
      && (HasBadKey(lines) ==> !r.link.connected && ClosePort !in r.effects)
      && (!HasBadKey(lines) ==>
            (!r.link.connected <==> now - r.link.lastPing > 10000) &&
            (ClosePort in r.effects <==> !r.link.connected))
  {
    var react := Reactor(env);
    var lines := Drained(link, input);
    TickOutcome(react, link, input, now);
    RefreshIsReq(env, Handled(react, lines));
    assert FailsOnBadKeys(react);
    FailsIsBadKey(react, lines);
  }

  /** Throttling: while the port still holds unsent bytes, an iteration
      writes nothing, however many requests and keys arrive. */
  lemma NothingSentWhileAwaiting(link: Link, input: seq<Read>, now: int, env: Env)
    requires env.awaiting > 0
    ensures forall e :: e in Iteration(link, input, now, env).effects ==> !e.Write?
  {
    TickNeverWrites(Reactor(env), link, input, now);
  }

  /** A key is answered with its calls and then a snapshot: KEY:26 on a
      complete installation pauses or resumes and sends one packet. */
  lemma KeyThenSnapshot(env: Env)
    requires env.awaiting == 0 && env.svc == Services(true, true, true)
    ensures
      var es := React(Classify("KEY:26"), env).effects;
      |es| == 2 && es[0] == Invoke(PauseResume) && es[1].Write? && |es[1].data| == 44
  {
    ClassifyKey26();
    KeyEffects(26, env);
    var snap := SnapshotWrites(env);
    assert |snap| == 1;
    PauseResumeCall();
    assert React(Key(26), env).effects == [Invoke(PauseResume)] + snap;
  }

  lemma PauseResumeCall()
    ensures Invocations(HandleCode(26, true)) == [Invoke(PauseResume)]
  {
    assert HandleCode(26, true) == [PauseResume];
  }

  /** A key's calls come first, then the snapshot. */
  lemma KeyEffects(code: int, env: Env)
    ensures React(Key(code), env).effects ==
              Invocations(HandleCode(code, env.svc.backend && env.svc.jog)) + SnapshotWrites(env)
  {
  }

  lemma ClassifyKey26()
    ensures Classify("KEY:26") == Key(26)
  {
    assert ShowInt(26) == "26";
    assert KeyLine(26) == "KEY:26";
    ClassifyKeyLine(26);
  }

  /** The two binary encoders convert in opposite units: serialControl's
      packet divides the position by 25.4 in millimetre mode, collectStatus
      in inch mode, so the packet for a machine carries the same four
      position words as the buffer for the same machine with the unit
      flipped. */
  lemma OppositeConversion(m: Machine, nums: Numerics)
    ensures ControlFields(m, nums)[..4] == StatusWords(m.(metric := !m.metric), nums)[..4]
  {
    var flipped := m.(metric := !m.metric);
    assert Rotary(flipped, nums) == Rotary(m, nums);
    assert nums.narrow(flipped.x) == nums.narrow(m.x);
  }
}
