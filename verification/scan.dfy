/** Port discovery. Every candidate port is tried once, in the order the
    platform lists them: a port that fails to open is skipped, an opened port
    whose handshake fails is closed, and the scan stops at the first port
    whose handshake succeeds.

    Two handshakes exist. Active (SerialCommand, serialControl): read the
    lines the peer sent during the settle window until one, trimmed, is
    "CONREQ", then write "CONACK\n". Passive (the pendant class of
    serialcommand.java): read one line only; the port is the pendant's when
    that line, trimmed, is "KEY:-1", and nothing is written back. */
module Scan {
  import opened Base
  import opened Text

  /** A port as the scan meets it: whether openPort() succeeds, and the lines
      a Scanner on its input stream yields during the settle window. */
  datatype Candidate = Candidate(opens: bool, lines: seq<string>)

  datatype Handshake = Active | Passive

  const ConReq: string := "CONREQ"
  const KeyNoop: string := "KEY:-1"

  predicate HasConReq(lines: seq<string>) {
    exists i :: 0 <= i < |lines| && Trim(lines[i]) == ConReq
  }

  /** Whether the handshake on this port succeeds. */
  predicate Accepts(h: Handshake, p: Candidate) {
    p.opens &&
    match h
    case Active => HasConReq(p.lines)
    case Passive => |p.lines| > 0 && Trim(p.lines[0]) == KeyNoop
  }

  /** What the scan does to a port: write "CONACK\n" to it, or close it. */
  datatype PortEffect = Ack(port: nat) | Closed(port: nat)

  /** The bytes of the acknowledgement the active handshake writes. */
  function ConAck(): (bs: seq<Byte>)
    ensures |bs| == 7 && bs[6] == 0x0A
  {
    Ascii("CONACK\n")
  }

  datatype ScanResult = ScanResult(selected: Option<nat>, log: seq<PortEffect>)

  /** The ports the scan gets to: all of them, or those before the selected
      one. */
  function Reached(selected: Option<nat>, count: nat): nat {
    if selected.Some? && selected.value < count then selected.value else count
  }

  /** The scan over ports[i..]. */
  function ScanFrom(h: Handshake, ports: seq<Candidate>, i: nat): (r: ScanResult)
    requires i <= |ports|
    ensures r.selected.Some? ==>
              && i <= r.selected.value < |ports|
              && Accepts(h, ports[r.selected.value])
              && forall j :: i <= j < r.selected.value ==> !Accepts(h, ports[j])
    ensures r.selected.None? ==> forall j :: i <= j < |ports| ==> !Accepts(h, ports[j])
    decreases |ports| - i
  {
    if i == |ports| then ScanResult(None, [])
    else if !ports[i].opens then ScanFrom(h, ports, i + 1)
    else if Accepts(h, ports[i]) then ScanResult(Some(i), if h == Active then [Ack(i)] else [])
    else
      var rest := ScanFrom(h, ports, i + 1);
      ScanResult(rest.selected, [Closed(i)] + rest.log)
  }

  /** The scan closes exactly the ports that opened before the selected one,
      or all that opened when none is selected. */
  lemma {:induction false} ScanCloses(h: Handshake, ports: seq<Candidate>, i: nat)
    requires i <= |ports|
    ensures forall j: nat :: Closed(j) in ScanFrom(h, ports, i).log <==>
              i <= j < Reached(ScanFrom(h, ports, i).selected, |ports|) && ports[j].opens
    decreases |ports| - i
  {
    if i < |ports| && !Accepts(h, ports[i]) {
      ScanCloses(h, ports, i + 1);
      var rest := ScanFrom(h, ports, i + 1);
      var r := ScanFrom(h, ports, i);
      var reached := Reached(rest.selected, |ports|);
      assert r.selected == rest.selected && i < reached;
      forall j: nat
        ensures Closed(j) in r.log <==> i <= j < reached && ports[j].opens
      {
        if ports[i].opens {
          assert r.log == [Closed(i)] + rest.log;
          assert Closed(j) in r.log <==> j == i || Closed(j) in rest.log;
        } else {
          assert r.log == rest.log;
        }
      }
    }
  }

  /** Only the selected port is acknowledged, and only by the active
      handshake. */
  lemma {:induction false} ScanAcks(h: Handshake, ports: seq<Candidate>, i: nat)
    requires i <= |ports|
    ensures forall j: nat :: Ack(j) in ScanFrom(h, ports, i).log <==> h == Active && ScanFrom(h, ports, i).selected == Some(j)
    decreases |ports| - i
  {
    if i < |ports| && !Accepts(h, ports[i]) {
      ScanAcks(h, ports, i + 1);
    }
  }

  /** The ports are touched in the order they are listed, each at most once. */
  lemma {:induction false} ScanInOrder(h: Handshake, ports: seq<Candidate>, i: nat)
    requires i <= |ports|
    ensures forall a, b :: 0 <= a < b < |ScanFrom(h, ports, i).log| ==>
              ScanFrom(h, ports, i).log[a].port < ScanFrom(h, ports, i).log[b].port
    ensures forall a :: 0 <= a < |ScanFrom(h, ports, i).log| ==> i <= ScanFrom(h, ports, i).log[a].port
    decreases |ports| - i
  {
    if i < |ports| && !Accepts(h, ports[i]) {
      ScanInOrder(h, ports, i + 1);
      var rest := ScanFrom(h, ports, i + 1);
      var log := ScanFrom(h, ports, i).log;
      if ports[i].opens {
        assert log == [Closed(i)] + rest.log;
        forall a | 1 <= a < |log|
          ensures log[a] == rest.log[a - 1] && i < log[a].port
        {
        }
      } else {
        assert log == rest.log;
      }
      assert forall a :: 0 <= a < |log| ==> i <= log[a].port;
    }
  }

  /** startSerialConnection's loop over SerialPort.getCommPorts(). */
  function ScanPorts(h: Handshake, ports: seq<Candidate>): (r: ScanResult)
    ensures r.selected.Some? <==> exists j :: 0 <= j < |ports| && Accepts(h, ports[j])
  {
    ScanFrom(h, ports, 0)
  }

  /** The first match wins, and it is the only port acknowledged: exactly one
      "CONACK\n" is written in a successful active scan, none otherwise. */
  lemma ScanIsFirstMatch(h: Handshake, ports: seq<Candidate>, k: nat)
    requires k < |ports| && Accepts(h, ports[k])
    requires forall j :: 0 <= j < k ==> !Accepts(h, ports[j])
    ensures ScanPorts(h, ports).selected == Some(k)
    ensures h == Active ==>
              |ScanPorts(h, ports).log| > 0 && ScanPorts(h, ports).log[|ScanPorts(h, ports).log| - 1] == Ack(k)
  {
    var r := ScanPorts(h, ports);
    if h == Active {
      ScanAcks(h, ports, 0);
      ScanInOrder(h, ports, 0);
      NoPortAfter(h, ports, k);
      assert Ack(k) in r.log;
      var n := |r.log|;
      forall a | 0 <= a < n - 1
        ensures r.log[a] != Ack(k)
      {
        assert r.log[a].port < r.log[n - 1].port <= k;
      }
      var idx :| 0 <= idx < n && r.log[idx] == Ack(k);
      assert !(idx < n - 1);
    }
  }

  /** A scan that selects port k touches no port after it. */
  lemma NoPortAfter(h: Handshake, ports: seq<Candidate>, k: nat)
    requires ScanPorts(h, ports).selected == Some(k)
    ensures forall a :: 0 <= a < |ScanPorts(h, ports).log| ==> ScanPorts(h, ports).log[a].port <= k
  {
    var r := ScanPorts(h, ports);
    ScanAcks(h, ports, 0);
    ScanCloses(h, ports, 0);
    forall a | 0 <= a < |r.log|
      ensures r.log[a].port <= k
    {
      var e := r.log[a];
      if e.Closed? {
        assert Closed(e.port) in r.log;
      } else {
        assert Ack(e.port) in r.log;
      }
    }
  }

  /** The end-to-end scenario: a peer that first sends noise and then the
      request is acknowledged on the first port. */
  lemma NoiseThenConReq()
    ensures ScanPorts(Active, [Candidate(true, ["noise", "CONREQ"])]) == ScanResult(Some(0), [Ack(0)])
  {
    var p := Candidate(true, ["noise", "CONREQ"]);
    assert Trim(p.lines[1]) == ConReq by {
      TrimOfTrimmed("CONREQ");
    }
    assert Accepts(Active, p);
  }

  /** The passive handshake looks at the first line only: "KEY:-1" arriving
      second does not select the port, which is closed. */
  lemma PassiveLooksAtFirstLineOnly()
    ensures ScanPorts(Passive, [Candidate(true, ["noise", "KEY:-1"])]) == ScanResult(None, [Closed(0)])
  {
    assert Trim("noise") == "noise" by {
      TrimOfTrimmed("noise");
    }
  }

  /** The passive handshake never writes to a port. */
  lemma PassiveNeverWrites(ports: seq<Candidate>)
    ensures forall j: nat :: Ack(j) !in ScanPorts(Passive, ports).log
  {
    ScanAcks(Passive, ports, 0);
  }

  lemma TrimOfTrimmed(s: string)
    requires |s| > 0 && !IsBlank(s[0]) && !IsBlank(s[|s| - 1])
    ensures Trim(s) == s
  {
    assert Lead(s) == 0;
    assert s[0..] == s;
  }
}
