/** The line framer shared by SerialCommand.heartbeatTick and the session loop
    of serialControl: bytes are drained one at a time, '\r' is dropped, every
    other character is appended to a pending line, and a '\n' emits the
    trimmed pending line and empties it. The pending line outlives a tick, so
    a line may arrive split over any number of ticks. */
module Framer {
  import opened Base
  import opened Text

  /** One result of InputStream.read() while available() > 0: a byte, or the
      end-of-stream value -1. */
  datatype Read = Data(b: Byte) | EndOfStream

  /** The characters a drain consumes: every byte up to the first
      end-of-stream, each widened to a char by the (char) cast. */
  function Available(input: seq<Read>): (cs: seq<char>)
    ensures |cs| <= |input|
    ensures forall i :: 0 <= i < |cs| ==> input[i].Data? && cs[i] == input[i].b as char
    ensures |cs| < |input| ==> input[|cs|] == EndOfStream
  {
    if |input| == 0 || input[0] == EndOfStream then []
    else [input[0].b as char] + Available(input[1..])
  }

  predicate NoEndOfStream(input: seq<Read>) {
    forall i :: 0 <= i < |input| ==> input[i].Data?
  }

  lemma {:induction false} AvailableAppend(in1: seq<Read>, in2: seq<Read>)
    requires NoEndOfStream(in1)
    ensures Available(in1 + in2) == Available(in1) + Available(in2)
    decreases |in1|
  {
    if |in1| == 0 {
      assert in1 + in2 == in2;
    } else {
      assert (in1 + in2)[0] == in1[0];
      assert (in1 + in2)[1..] == in1[1..] + in2;
      AvailableAppend(in1[1..], in2);
    }
  }

  /** The pending line and the lines emitted so far. */
  datatype Framed = Framed(pending: seq<char>, lines: seq<string>)

  /** One character through the framer. */
  function Step(pending: seq<char>, c: char): Framed {
    if c == '\r' then Framed(pending, [])
    else if c == '\n' then Framed([], [Trim(pending + [c])])
    else Framed(pending + [c], [])
  }

  function Count(cs: seq<char>, c: char): nat {
    if |cs| == 0 then 0 else (if cs[0] == c then 1 else 0) + Count(cs[1..], c)
  }

  /** The characters of one or more ticks through the framer. */
  function Frame(pending: seq<char>, cs: seq<char>): (f: Framed)
    ensures |f.lines| == Count(cs, '\n')
    ensures '\n' !in pending ==> '\n' !in f.pending
    ensures '\r' !in pending ==> '\r' !in f.pending
    decreases |cs|
  {
    if |cs| == 0 then Framed(pending, [])
    else
      var s := Step(pending, cs[0]);
      var r := Frame(s.pending, cs[1..]);
      Framed(r.pending, s.lines + r.lines)
  }

  /** Chunk independence: framing a + b equals framing a, then framing b from
      the pending line a left behind. */
  lemma {:induction false} FrameAppend(pending: seq<char>, a: seq<char>, b: seq<char>)
    ensures
      var f1 := Frame(pending, a);
      var f2 := Frame(f1.pending, b);
      Frame(pending, a + b) == Framed(f2.pending, f1.lines + f2.lines)
    decreases |a|
  {
    if |a| == 0 {
      assert a + b == b;
    } else {
      assert (a + b)[0] == a[0];
      assert (a + b)[1..] == a[1..] + b;
      FrameAppend(Step(pending, a[0]).pending, a[1..], b);
    }
  }

  /** The input with every '\r' removed. */
  function Strip(cs: seq<char>): (r: seq<char>)
    ensures '\r' !in r
    ensures |r| <= |cs|
  {
    if |cs| == 0 then [] else (if cs[0] == '\r' then [] else [cs[0]]) + Strip(cs[1..])
  }

  /** Index of the first c in s, or |s| when there is none. */
  function IndexOf(s: seq<char>, c: char): (i: nat)
    ensures i <= |s|
    ensures i < |s| ==> s[i] == c
    ensures forall j :: 0 <= j < i ==> s[j] != c
  {
    if |s| == 0 || s[0] == c then 0 else 1 + IndexOf(s[1..], c)
  }

  /** Reference definition of line splitting: every segment ended by '\n' is
      a complete line, and the text after the last '\n' is left pending. */
  function SplitLines(s: seq<char>): (r: Framed)
    ensures |r.pending| <= |s|
    decreases |s|
  {
    var i := IndexOf(s, '\n');
    if i == |s| then Framed(s, [])
    else
      var rest := SplitLines(s[i + 1..]);
      Framed(rest.pending, [s[..i]] + rest.lines)
  }

  function TrimAll(lines: seq<string>): (r: seq<string>)
    ensures |r| == |lines|
    ensures forall i :: 0 <= i < |lines| ==> r[i] == Trim(lines[i])
  {
    if |lines| == 0 then [] else [Trim(lines[0])] + TrimAll(lines[1..])
  }

  lemma SplitAtNewline(x: seq<char>, y: seq<char>)
    requires '\n' !in x
    ensures
      var r := SplitLines(y);
      SplitLines(x + ['\n'] + y) == Framed(r.pending, [x] + r.lines)
  {
    var s := x + ['\n'] + y;
    assert s[|x|] == '\n';
    assert forall j :: 0 <= j < |x| ==> s[j] == x[j];
    assert IndexOf(s, '\n') == |x|;
    assert s[..|x|] == x;
    assert s[|x| + 1..] == y;
  }

  /** The framer agrees with the reference: the lines emitted from any input,
      cut into ticks at any points, are the trimmed segments of the pending
      text followed by the input with '\r' removed, split at '\n'; what is
      left pending is the text after the last '\n'. */
  lemma {:induction false} FrameIsSplitLines(pending: seq<char>, cs: seq<char>)
    requires '\n' !in pending
    ensures
      var r := SplitLines(pending + Strip(cs));
      Frame(pending, cs) == Framed(r.pending, TrimAll(r.lines))
    decreases |cs|
  {
    if |cs| == 0 {
      assert pending + Strip(cs) == pending;
      assert IndexOf(pending, '\n') == |pending|;
    } else if cs[0] == '\r' {
      FrameIsSplitLines(pending, cs[1..]);
      var t := Strip(cs[1..]);
      assert Strip(cs) == [] + t == t;
      var f := Frame(pending, cs[1..]);
      assert Frame(pending, cs) == Framed(f.pending, [] + f.lines);
      assert [] + f.lines == f.lines;
    } else if cs[0] == '\n' {
      FrameIsSplitLines([], cs[1..]);
      NewlineCase(pending, cs);
    } else {
      FrameIsSplitLines(pending + [cs[0]], cs[1..]);
      var t := Strip(cs[1..]);
      assert Strip(cs) == [cs[0]] + t;
      AppendOne(pending, cs[0], t);
      var f := Frame(pending + [cs[0]], cs[1..]);
      assert Frame(pending, cs) == Framed(f.pending, [] + f.lines);
      assert [] + f.lines == f.lines;
    }
  }

  lemma AppendOne(p: seq<char>, c: char, t: seq<char>)
    ensures p + ([c] + t) == (p + [c]) + t
  {
  }

  /** The '\n' step of FrameIsSplitLines, given the claim for the rest. */
  lemma NewlineCase(pending: seq<char>, cs: seq<char>)
    requires '\n' !in pending
    requires |cs| > 0 && cs[0] == '\n'
    requires
      var r := SplitLines([] + Strip(cs[1..]));
      Frame([], cs[1..]) == Framed(r.pending, TrimAll(r.lines))
    ensures
      var r := SplitLines(pending + Strip(cs));
      Frame(pending, cs) == Framed(r.pending, TrimAll(r.lines))
  {
    var y := Strip(cs[1..]);
    var r := SplitLines(y);
    assert [] + y == y;
    NewlineFrame(pending, cs);
    NewlineStrip(pending, cs);
    SplitAtNewline(pending, y);
    TrimDropsNewline(pending);
    TrimAllCons(pending, r.lines);
  }

  lemma NewlineFrame(pending: seq<char>, cs: seq<char>)
    requires |cs| > 0 && cs[0] == '\n'
    ensures
      var f := Frame([], cs[1..]);
      Frame(pending, cs) == Framed(f.pending, [Trim(pending + ['\n'])] + f.lines)
  {
  }

  lemma NewlineStrip(pending: seq<char>, cs: seq<char>)
    requires |cs| > 0 && cs[0] == '\n'
    ensures pending + Strip(cs) == pending + ['\n'] + Strip(cs[1..])
  {
    var t := Strip(cs[1..]);
    assert [cs[0]] == ['\n'];
    assert Strip(cs) == ['\n'] + t;
    AppendOne(pending, '\n', t);
  }

  lemma TrimAllCons(line: string, lines: seq<string>)
    ensures TrimAll([line] + lines) == [Trim(line)] + TrimAll(lines)
  {
    assert ([line] + lines)[1..] == lines;
  }

  /** Characters without '\r' or '\n' only extend the pending line. */
  lemma {:induction false} FramePlain(pending: seq<char>, cs: seq<char>)
    requires '\n' !in cs && '\r' !in cs
    ensures Frame(pending, cs) == Framed(pending + cs, [])
    decreases |cs|
  {
    if |cs| > 0 {
      assert cs[0] != '\n' && cs[0] != '\r';
      FramePlain(pending + [cs[0]], cs[1..]);
      AppendOne(pending, cs[0], cs[1..]);
      assert [cs[0]] + cs[1..] == cs;
    }
  }

  /** A line completed by '\n' is the pending text joined with what followed
      it, trimmed: whatever was left pending is prefixed to the next line. */
  lemma FrameCompletesLine(pending: seq<char>, cs: seq<char>)
    requires '\n' !in cs && '\r' !in cs
    ensures Frame(pending, cs + ['\n']) == Framed([], [Trim(pending + cs)])
  {
    FrameAppend(pending, cs, ['\n']);
    FramePlain(pending, cs);
    TrimDropsNewline(pending + cs);
  }

  /** A tick with nothing to read leaves the pending line alone and emits
      nothing. */
  lemma FrameNothing(pending: seq<char>)
    ensures Frame(pending, []) == Framed(pending, [])
  {
  }
}
