/** The connected-session step shared by SerialCommand.heartbeatTick and one
    iteration of serialControl's `while (connected)` loop: drain the available
    bytes through the framer, react to each complete line, then disconnect and
    close the port when the peer has been silent for more than 10000 ms.

    The two variants differ only in how they react to a line, so the step is
    parameterised by a Reactor. A reaction may refresh the liveness time
    stamp, produces effects, and may fail: a failure is the exception
    Integer.parseInt throws on a bad KEY line, which leaves the drain, skips
    the timeout check and sets connected = false without closing the port. */
module Supervisor {
  import opened Base
  import opened Text
  import opened Framer
  import opened Commands

  /** CONNECTION_TIMEOUT_MS. */
  const TimeoutMs: int := 10000

  /** The liveness test after a drain; the comparison is strict. */
  predicate Expired(now: int, lastPing: int) {
    now - lastPing > TimeoutMs
  }

  datatype Reaction = Reaction(refresh: bool, effects: seq<Effect>, fails: bool)

  type Reactor = Message -> Reaction

  /** No single line's reaction closes the port; only the timeout does. */
  ghost predicate NeverCloses(react: Reactor) {
    forall m :: ClosePort !in react(m).effects
  }

  /** The result of reacting to the lines of one drain. */
  datatype Outcome = Outcome(lastPing: int, effects: seq<Effect>, failed: bool)

  /** The lines handled before the first whose reaction fails. */
  function Handled(react: Reactor, lines: seq<string>): (h: seq<string>)
    ensures |h| <= |lines| && h == lines[..|h|]
    ensures forall i :: 0 <= i < |h| ==> !react(Classify(h[i])).fails
    ensures |h| < |lines| ==> react(Classify(lines[|h|])).fails
  {
    if |lines| == 0 || react(Classify(lines[0])).fails then []
    else [lines[0]] + Handled(react, lines[1..])
  }

  predicate AnyRefresh(react: Reactor, lines: seq<string>) {
    exists i :: 0 <= i < |lines| && react(Classify(lines[i])).refresh
  }

  predicate AnyFails(react: Reactor, lines: seq<string>) {
    exists i :: 0 <= i < |lines| && react(Classify(lines[i])).fails
  }

  /** The reactions fail exactly on bad keys, as both session loops do. */
  ghost predicate FailsOnBadKeys(react: Reactor) {
    forall m :: react(m).fails <==> m.BadKey?
  }

  lemma FailsIsBadKey(react: Reactor, lines: seq<string>)
    requires FailsOnBadKeys(react)
    ensures AnyFails(react, lines) <==> HasBadKey(lines)
  {
    if AnyFails(react, lines) {
      var i :| 0 <= i < |lines| && react(Classify(lines[i])).fails;
      assert Classify(lines[i]).BadKey?;
    }
    if HasBadKey(lines) {
      var i :| 0 <= i < |lines| && Classify(lines[i]).BadKey?;
      assert react(Classify(lines[i])).fails;
    }
  }

  /** React to the lines in order, taking the clock reading `now` for every
      refresh; stop at the first failing line. */
  function Dispatch(react: Reactor, lines: seq<string>, lastPing: int, now: int): (o: Outcome)
    ensures o.lastPing == lastPing || o.lastPing == now
    ensures NeverCloses(react) ==> ClosePort !in o.effects
    decreases |lines|
  {
    if |lines| == 0 then Outcome(lastPing, [], false)
    else
      var rc := react(Classify(lines[0]));
      if rc.fails then Outcome(lastPing, rc.effects, true)
      else
        var rest := Dispatch(react, lines[1..], if rc.refresh then now else lastPing, now);
        Outcome(rest.lastPing, rc.effects + rest.effects, rest.failed)
  }

  /** The drain fails exactly when some line fails, and the time stamp is
      refreshed exactly when a line handled before the failure refreshes it. */
  lemma {:induction false} DispatchFacts(react: Reactor, lines: seq<string>, lastPing: int, now: int)
    ensures Dispatch(react, lines, lastPing, now).failed <==> AnyFails(react, lines)
    ensures Dispatch(react, lines, lastPing, now).lastPing ==
              if AnyRefresh(react, Handled(react, lines)) then now else lastPing
    decreases |lines|
  {
    if |lines| > 0 {
      var rc := react(Classify(lines[0]));
      if !rc.fails {
        var next := if rc.refresh then now else lastPing;
        DispatchFacts(react, lines[1..], next, now);
        var h := Handled(react, lines);
        assert h == [lines[0]] + Handled(react, lines[1..]);
        assert AnyFails(react, lines) <==> AnyFails(react, lines[1..]) by {
          if AnyFails(react, lines) {
            var i :| 0 <= i < |lines| && react(Classify(lines[i])).fails;
            assert lines[1..][i - 1] == lines[i];
          }
          if AnyFails(react, lines[1..]) {
            var i :| 0 <= i < |lines[1..]| && react(Classify(lines[1..][i])).fails;
            assert lines[i + 1] == lines[1..][i];
          }
        }
        assert AnyRefresh(react, h) <==> rc.refresh || AnyRefresh(react, Handled(react, lines[1..])) by {
          if AnyRefresh(react, h) {
            var i :| 0 <= i < |h| && react(Classify(h[i])).refresh;
            if i > 0 {
              assert h[i] == Handled(react, lines[1..])[i - 1];
            }
          }
          if AnyRefresh(react, Handled(react, lines[1..])) {
            var i :| 0 <= i < |Handled(react, lines[1..])| && react(Classify(Handled(react, lines[1..])[i])).refresh;
            assert h[i + 1] == Handled(react, lines[1..])[i];
          }
        }
        if rc.refresh {
          assert AnyRefresh(react, h) by { assert h[0] == lines[0]; }
        }
      } else {
        assert AnyFails(react, lines) by { assert react(Classify(lines[0])).fails; }
        assert Handled(react, lines) == [];
      }
    }
  }

  /** Reacting to a + b is reacting to a, then to b from where a left off,
      unless a failed. */
  lemma {:induction false} DispatchAppend(react: Reactor, a: seq<string>, b: seq<string>, lastPing: int, now: int)
    requires !Dispatch(react, a, lastPing, now).failed
    ensures
      var o1 := Dispatch(react, a, lastPing, now);
      var o2 := Dispatch(react, b, o1.lastPing, now);
      Dispatch(react, a + b, lastPing, now) == Outcome(o2.lastPing, o1.effects + o2.effects, o2.failed)
    decreases |a|
  {
    if |a| == 0 {
      assert a + b == b;
    } else {
      var rc := react(Classify(a[0]));
      assert (a + b)[0] == a[0];
      assert (a + b)[1..] == a[1..] + b;
      var next := if rc.refresh then now else lastPing;
      DispatchAppend(react, a[1..], b, next, now);
      var o1 := Dispatch(react, a[1..], next, now);
      var o2 := Dispatch(react, b, o1.lastPing, now);
      assert rc.effects + (o1.effects + o2.effects) == (rc.effects + o1.effects) + o2.effects;
    }
  }

  /** The session fields the step reads and writes: `connected`,
      `lastNanoPing` and the pending line of the framer. */
  datatype Link = Link(connected: bool, lastPing: int, line: seq<char>)

  datatype Stepped = Stepped(link: Link, effects: seq<Effect>)

  /** The lines one drain of `input` emits. */
  function Drained(link: Link, input: seq<Read>): seq<string> {
    Frame(link.line, Available(input)).lines
  }

  /** One step with clock reading `now`. Not connected: nothing happens. */
  function Tick(react: Reactor, link: Link, input: seq<Read>, now: int): (r: Stepped)
    ensures !link.connected ==> r == Stepped(link, [])
    ensures r.link.connected ==> link.connected && !Expired(now, r.link.lastPing)
    ensures NeverCloses(react) && ClosePort in r.effects ==>
              !r.link.connected && r.effects[|r.effects| - 1] == ClosePort &&
              ClosePort !in r.effects[..|r.effects| - 1]
  {
    if !link.connected then Stepped(link, [])
    else
      var f := Frame(link.line, Available(input));
      var o := Dispatch(react, f.lines, link.lastPing, now);
      if o.failed then Stepped(Link(false, o.lastPing, []), o.effects)
      else if Expired(now, o.lastPing) then
        var es := o.effects + [ClosePort];
        assert es[..|es| - 1] == o.effects;
        Stepped(Link(false, o.lastPing, f.pending), es)
      else Stepped(Link(true, o.lastPing, f.pending), o.effects)
  }

  /** What a connected step does: it fails exactly on a bad line and then
      disconnects without closing; otherwise it disconnects, closing the port
      once, exactly when the refreshed time stamp is more than 10000 ms old.
      The time stamp becomes `now` exactly when a handled line refreshes it. */
  lemma TickOutcome(react: Reactor, link: Link, input: seq<Read>, now: int)
    requires link.connected && NeverCloses(react)
    ensures
      var lines := Drained(link, input);
      var r := Tick(react, link, input, now);
      && r.link.lastPing == (if AnyRefresh(react, Handled(react, lines)) then now else link.lastPing)
      && (AnyFails(react, lines) ==> !r.link.connected && ClosePort !in r.effects && r.link.line == [])
      && (!AnyFails(react, lines) ==>
            (!r.link.connected <==> Expired(now, r.link.lastPing)) &&
            (ClosePort in r.effects <==> !r.link.connected))
  {
    var f := Frame(link.line, Available(input));
    DispatchFacts(react, f.lines, link.lastPing, now);
  }

  /** Idempotence while fresh: a step with nothing to read changes nothing
      and does nothing, as long as the peer spoke within the last 10000 ms. */
  lemma TickWithoutInput(react: Reactor, link: Link, now: int)
    requires link.connected && !Expired(now, link.lastPing)
    ensures Tick(react, link, [], now) == Stepped(link, [])
  {
  }

  /** ... and once the peer has been silent too long, the same empty step
      disconnects and closes the port. */
  lemma TickWithoutInputExpires(react: Reactor, link: Link, now: int)
    requires link.connected && Expired(now, link.lastPing)
    ensures Tick(react, link, [], now) == Stepped(link.(connected := false), [ClosePort])
  {
  }

  /** Chunk independence of a session: bytes that arrive in two drains at the
      same clock reading cause the same effects and leave the same session as
      when they arrive in one, provided the first drain neither hit the end of
      the stream nor ended the session. */
  lemma TickChunks(react: Reactor, link: Link, in1: seq<Read>, in2: seq<Read>, now: int)
    requires link.connected && NoEndOfStream(in1)
    requires Tick(react, link, in1, now).link.connected
    ensures
      var r1 := Tick(react, link, in1, now);
      var r2 := Tick(react, r1.link, in2, now);
      Tick(react, link, in1 + in2, now) == Stepped(r2.link, r1.effects + r2.effects)
  {
    AvailableAppend(in1, in2);
    FrameAppend(link.line, Available(in1), Available(in2));
    var f1 := Frame(link.line, Available(in1));
    var f2 := Frame(f1.pending, Available(in2));
    DispatchAppend(react, f1.lines, f2.lines, link.lastPing, now);
  }

  /** No reaction writes to the port. */
  ghost predicate NeverWrites(react: Reactor) {
    forall m, e :: e in react(m).effects ==> !e.Write?
  }

  lemma {:induction false} DispatchNeverWrites(react: Reactor, lines: seq<string>, lastPing: int, now: int)
    requires NeverWrites(react)
    ensures forall e :: e in Dispatch(react, lines, lastPing, now).effects ==> !e.Write?
    decreases |lines|
  {
    if |lines| > 0 {
      var rc := react(Classify(lines[0]));
      DispatchNeverWrites(react, lines[1..], if rc.refresh then now else lastPing, now);
    }
  }

  /** A step whose reactions never write writes nothing: only calls on the
      collaborators and the closing of the port remain. */
  lemma TickNeverWrites(react: Reactor, link: Link, input: seq<Read>, now: int)
    requires NeverWrites(react)
    ensures forall e :: e in Tick(react, link, input, now).effects ==> !e.Write?
  {
    if link.connected {
      DispatchNeverWrites(react, Frame(link.line, Available(input)).lines, link.lastPing, now);
    }
  }

  /** One poll of a running session: what was available to read, and the
      clock. */
  datatype Poll = Poll(input: seq<Read>, now: int)

  /** A run of consecutive steps. */
  function Run(react: Reactor, link: Link, polls: seq<Poll>): (r: Stepped)
    decreases |polls|
  {
    if |polls| == 0 then Stepped(link, [])
    else
      var s := Tick(react, link, polls[0].input, polls[0].now);
      var rest := Run(react, s.link, polls[1..]);
      Stepped(rest.link, s.effects + rest.effects)
  }

  function Closes(es: seq<Effect>): nat {
    if |es| == 0 then 0 else (if es[0] == ClosePort then 1 else 0) + Closes(es[1..])
  }

  lemma {:induction false} ClosesAppend(a: seq<Effect>, b: seq<Effect>)
    ensures Closes(a + b) == Closes(a) + Closes(b)
    decreases |a|
  {
    if |a| == 0 {
      assert a + b == b;
    } else {
      assert (a + b)[1..] == a[1..] + b;
      ClosesAppend(a[1..], b);
    }
  }

  lemma {:induction false} ClosesNone(es: seq<Effect>)
    requires ClosePort !in es
    ensures Closes(es) == 0
    decreases |es|
  {
    if |es| > 0 {
      ClosesNone(es[1..]);
    }
  }

  /** However long a session runs, its port is closed at most once, and a
      run that closed it ends disconnected. */
  lemma {:induction false} RunClosesAtMostOnce(react: Reactor, link: Link, polls: seq<Poll>)
    requires NeverCloses(react)
    ensures Closes(Run(react, link, polls).effects) <= 1
    ensures Closes(Run(react, link, polls).effects) == 1 ==> !Run(react, link, polls).link.connected
    ensures !link.connected ==> Run(react, link, polls) == Stepped(link, [])
    decreases |polls|
  {
    if |polls| > 0 {
      var s := Tick(react, link, polls[0].input, polls[0].now);
      RunClosesAtMostOnce(react, s.link, polls[1..]);
      var rest := Run(react, s.link, polls[1..]);
      ClosesAppend(s.effects, rest.effects);
      if ClosePort in s.effects {
        var n := |s.effects|;
        assert s.effects == s.effects[..n - 1] + [ClosePort];
        ClosesNone(s.effects[..n - 1]);
        ClosesAppend(s.effects[..n - 1], [ClosePort]);
        assert rest.effects == [];
      } else {
        ClosesNone(s.effects);
      }
    }
  }
}
