/** The text screen of the pendant class of serialcommand.java: pushUpdate
    renders a 4-row, 20-column LCD as four "LCD:<row>:" segments, each row
    made of two 10-character cells, and sendToPendant writes the block with a
    trailing '\n' when the port holds no unsent bytes. */
module Lcd {
  import opened Base
  import opened Text
  import opened Wire
  import opened Snapshot

  const CellWidth: nat := 10

  /** String.format("%-10.10s", s): left-justified, cut or padded with spaces
      to exactly ten characters. */
  function Cell(s: string): (r: string)
    ensures |r| == CellWidth
    ensures |s| >= CellWidth ==> r == s[..CellWidth]
    ensures |s| < CellWidth ==> r[..|s|] == s && forall i :: |s| <= i < CellWidth ==> r[i] == ' '
  {
    if |s| >= CellWidth then s[..CellWidth] else s + seq(CellWidth - |s|, _ => ' ')
  }

  /** How a reader of the screen recovers a cell's text: drop the padding. */
  function Unpad(c: string): (r: string)
    ensures |r| <= |c| && r == c[..|r|]
    ensures forall i :: |r| <= i < |c| ==> c[i] == ' '
    ensures |r| > 0 ==> r[|r| - 1] != ' '
  {
    if |c| > 0 && c[|c| - 1] == ' ' then Unpad(c[..|c| - 1]) else c
  }

  lemma {:induction false} UnpadPadding(s: string, n: nat)
    requires |s| == 0 || s[|s| - 1] != ' '
    ensures Unpad(s + seq(n, _ => ' ')) == s
    decreases n
  {
    if n == 0 {
      assert s + seq(n, _ => ' ') == s;
    } else {
      var t := s + seq(n, _ => ' ');
      assert t[..|t| - 1] == s + seq(n - 1, _ => ' ');
      UnpadPadding(s, n - 1);
    }
  }

  /** A text of at most ten characters that does not end in a space is read
      back exactly from its cell. */
  lemma UnpadCell(s: string)
    requires |s| <= CellWidth && (|s| == 0 || s[|s| - 1] != ' ')
    ensures Unpad(Cell(s)) == s
  {
    if |s| < CellWidth {
      UnpadPadding(s, CellWidth - |s|);
    } else {
      assert s[..CellWidth] == s;
    }
  }

  /** The status word: PAUSE before RUN before IDLE, HOLD otherwise. */
  function StatusWord(paused: bool, sendingFile: bool, idle: bool): (w: string)
    ensures paused ==> w == "PAUSE"
    ensures !paused && sendingFile ==> w == "RUN"
    ensures !paused && !sendingFile && idle ==> w == "IDLE"
    ensures !paused && !sendingFile && !idle ==> w == "HOLD"
  {
    if paused then "PAUSE" else if sendingFile then "RUN" else if idle then "IDLE" else "HOLD"
  }

  /** The status code of serialControl that a status word stands for. */
  function WordCode(w: string): Word {
    if w == "PAUSE" then FloatOne
    else if w == "RUN" then FloatTwo
    else if w == "IDLE" then PositiveZero
    else FloatThree
  }

  /** The text screen and the binary packet report the machine state the same
      way: the word read off the status cell names serialControl's code. */
  lemma StatusWordAgrees(paused: bool, sendingFile: bool, idle: bool)
    ensures WordCode(Unpad(Cell(StatusWord(paused, sendingFile, idle)))) == StatusCode(paused, sendingFile, idle)
  {
    UnpadCell(StatusWord(paused, sendingFile, idle));
  }

  /** String.format("|%s%+06.3f", l, v). */
  function AxisText(name: string, v: Double, nums: Numerics): (s: string)
    ensures |s| == 1 + |name| + |nums.fixed3(v)|
    ensures s[0] == '|' && s[1..1 + |name|] == name
    ensures s[1 + |name|..] == nums.fixed3(v)
  {
    "|" + name + nums.fixed3(v)
  }

  /** The displayed position x, y, z, a. In inch mode every axis is divided
      by 25.4, and a, as written, is divided a second time, unless the first
      division gave a NaN, in which case it shows 0. In millimetre mode the
      values are shown as they are, a NaN in a included. */
  function Position(m: Machine, nums: Numerics): (p: seq<Double>)
    ensures |p| == 4
    ensures m.metric ==> p == [m.x, m.y, m.z, m.a]
    ensures !m.metric ==> p[..3] == [nums.perInchD(m.x), nums.perInchD(m.y), nums.perInchD(m.z)]
    ensures !m.metric && IsNaN64(nums.perInchD(m.a)) ==> p[3] == 0
    ensures !m.metric && !IsNaN64(nums.perInchD(m.a)) ==> p[3] == nums.perInchD(nums.perInchD(m.a))
  {
    if m.metric then [m.x, m.y, m.z, m.a]
    else
      var a1 := nums.perInchD(m.a);
      [nums.perInchD(m.x), nums.perInchD(m.y), nums.perInchD(m.z),
       if IsNaN64(a1) then 0 else nums.perInchD(a1)]
  }

  const AxisLabels: seq<string> := ["X", "Y", "Z", "A"]

  /** The left cells, top to bottom: status, feed rate, blank, line counter. */
  function LeftCells(m: Machine, feed: int): (cs: seq<string>)
    ensures |cs| == 4
  {
    [StatusWord(m.paused, m.sendingFile, m.idle),
     "F" + ShowInt(feed),
     "",
     "L" + ShowInt(m.sentRows) + "/" + ShowInt(m.totalRows)]
  }

  /** The four 20-character rows: left cell, then the axis cell. */
  function Rows(m: Machine, feed: int, nums: Numerics): (rows: seq<string>)
    ensures |rows| == 4
    ensures forall i :: 0 <= i < 4 ==> |rows[i]| == 2 * CellWidth
  {
    var left := LeftCells(m, feed);
    var pos := Position(m, nums);
    seq(4, i requires 0 <= i < 4 => Cell(left[i]) + Cell(AxisText(AxisLabels[i], pos[i], nums)))
  }

  /** "LCD:<i>:" */
  function RowPrefix(i: nat): (s: string)
    requires i < 4
    ensures |s| == 6
  {
    "LCD:" + [DigitChar(i)] + ":"
  }

  function Segment(i: nat, row: string): (s: string)
    requires i < 4
    ensures |s| == 7 + |row|
  {
    RowPrefix(i) + row + "\r"
  }

  const SegmentLength: nat := 27

  /** The block pushUpdate hands to sendToPendant. */
  function LcdBlock(rows: seq<string>): (b: string)
    requires |rows| == 4 && forall i :: 0 <= i < 4 ==> |rows[i]| == 2 * CellWidth
    ensures |b| == 4 * SegmentLength
  {
    Segment(0, rows[0]) + Segment(1, rows[1]) + Segment(2, rows[2]) + Segment(3, rows[3])
  }

  predicate SegmentOk(b: string, i: nat)
    requires |b| == 4 * SegmentLength && i < 4
  {
    b[SegmentLength * i..SegmentLength * i + 6] == RowPrefix(i) && b[SegmentLength * i + 26] == '\r'
  }

  /** The pendant's reading of a block: four segments, each with its row
      number and a '\r', and a 20-character row in between. */
  function DecodeLcd(b: string): Option<seq<string>> {
    if |b| == 4 * SegmentLength && forall i :: 0 <= i < 4 ==> SegmentOk(b, i) then
      Some(seq(4, i requires 0 <= i < 4 => b[SegmentLength * i + 6..SegmentLength * i + 26]))
    else None
  }

  lemma SegmentOf(rows: seq<string>, i: nat)
    requires |rows| == 4 && forall j :: 0 <= j < 4 ==> |rows[j]| == 2 * CellWidth
    requires i < 4
    ensures LcdBlock(rows)[SegmentLength * i..SegmentLength * i + SegmentLength] == Segment(i, rows[i])
  {
    var s0, s1, s2, s3 := Segment(0, rows[0]), Segment(1, rows[1]), Segment(2, rows[2]), Segment(3, rows[3]);
    var b := LcdBlock(rows);
    assert b == s0 + s1 + s2 + s3;
    if i == 0 {
      assert b[..27] == s0;
    } else if i == 1 {
      assert b[27..54] == s1;
    } else if i == 2 {
      assert b[54..81] == s2;
    } else {
      assert b[81..108] == s3;
    }
  }

  /** Round trip: the pendant reads back exactly the rows that were sent. */
  lemma DecodeLcdBlock(rows: seq<string>)
    requires |rows| == 4 && forall i :: 0 <= i < 4 ==> |rows[i]| == 2 * CellWidth
    ensures DecodeLcd(LcdBlock(rows)) == Some(rows)
  {
    var b := LcdBlock(rows);
    forall i | 0 <= i < 4
      ensures SegmentOk(b, i)
      ensures b[SegmentLength * i + 6..SegmentLength * i + 26] == rows[i]
    {
      SegmentOf(rows, i);
      var seg := b[SegmentLength * i..SegmentLength * i + SegmentLength];
      assert seg[..6] == RowPrefix(i);
      assert seg[6..26] == rows[i];
      assert seg[26] == '\r';
    }
    var d := seq(4, i requires 0 <= i < 4 => b[SegmentLength * i + 6..SegmentLength * i + 26]);
    assert d == rows;
  }

  /** sendToPendant: the message and a '\n', only when bytesAwaitingWrite()
      is exactly 0; a count of -1 (port not open) sends nothing either. */
  function SendToPendant(msg: string, awaiting: int): (r: Option<string>)
    ensures r.Some? <==> awaiting == 0
    ensures r.Some? ==> |r.value| == |msg| + 1 && r.value[..|msg|] == msg && r.value[|msg|] == '\n'
  {
    if awaiting == 0 then Some(msg + "\n") else None
  }

  /** pushUpdate: nothing before the pendant is connected or without the
      read-only backend; nothing while unsent bytes remain (a positive
      count; a count of -1 passes this guard and is stopped by sendToPendant's
      own test for 0); nothing when the
      jog service field is null (the NullPointerException is swallowed).
      Otherwise the screen, with the feed rate taken from a fresh lookup of
      the jog service and 0 when that lookup fails. */
  function PushUpdate(connected: bool, jogField: bool, svc: Services, awaiting: int, m: Machine, nums: Numerics): (r: Option<string>)
    ensures r.Some? <==> connected && svc.readOnly && awaiting == 0 && jogField
    ensures r.Some? ==> |r.value| == 4 * SegmentLength + 1 && r.value[4 * SegmentLength] == '\n'
    ensures r.Some? ==>
              var rows := Rows(m, if svc.jog then m.feedRate else 0, nums);
              DecodeLcd(r.value[..4 * SegmentLength]) == Some(rows)
  {
    if !connected || !svc.readOnly then None
    else if awaiting > 0 then None
    else if !jogField then None
    else
      var rows := Rows(m, if svc.jog then m.feedRate else 0, nums);
      DecodeLcdBlock(rows);
      SendToPendant(LcdBlock(rows), awaiting)
  }

  /** What the screen shows, cell by cell, after a successful push. */
  lemma ScreenContents(jogField: bool, svc: Services, m: Machine, nums: Numerics)
    requires PushUpdate(true, jogField, svc, 0, m, nums).Some?
    ensures
      var rows := DecodeLcd(PushUpdate(true, jogField, svc, 0, m, nums).value[..4 * SegmentLength]).value;
      var pos := Position(m, nums);
      && rows[0] == Cell(StatusWord(m.paused, m.sendingFile, m.idle)) + Cell(AxisText("X", pos[0], nums))
      && rows[1] == Cell("F" + ShowInt(if svc.jog then m.feedRate else 0)) + Cell(AxisText("Y", pos[1], nums))
      && rows[2] == Cell("") + Cell(AxisText("Z", pos[2], nums))
      && rows[3] == Cell("L" + ShowInt(m.sentRows) + "/" + ShowInt(m.totalRows)) + Cell(AxisText("A", pos[3], nums))
  {
  }

  /** Without a jog service to look up, the feed cell reads "F0". */
  lemma FeedShowsZeroWithoutJog(jogField: bool, svc: Services, m: Machine, nums: Numerics)
    requires PushUpdate(true, jogField, svc, 0, m, nums).Some? && !svc.jog
    ensures
      var rows := DecodeLcd(PushUpdate(true, jogField, svc, 0, m, nums).value[..4 * SegmentLength]).value;
      Unpad(rows[1][..CellWidth]) == "F0"
  {
    var r := PushUpdate(true, jogField, svc, 0, m, nums);
    assert DecodeLcd(r.value[..4 * SegmentLength]) == Some(Rows(m, 0, nums));
    ZeroFeedCell(m, nums);
  }

  lemma ZeroFeedCell(m: Machine, nums: Numerics)
    ensures Unpad(Rows(m, 0, nums)[1][..CellWidth]) == "F0"
  {
    var rows := Rows(m, 0, nums);
    assert rows[1][..CellWidth] == Cell(LeftCells(m, 0)[1]);
    assert ShowInt(0) == "0";
    assert LeftCells(m, 0)[1] == "F0";
    UnpadCell("F0");
  }

  /** In inch mode the a axis is divided by 25.4 twice, as written, while x,
      y and z are divided once: the same angle shows differently from a
      linear axis holding the same value. */
  lemma RotaryDividedTwice(m: Machine, nums: Numerics)
    requires !m.metric && m.a == m.x && !IsNaN64(nums.perInchD(m.a))
    ensures Position(m, nums)[3] == nums.perInchD(Position(m, nums)[0])
  {
  }

  /** The two back-pressure guards differ on the count -1 that
      bytesAwaitingWrite() reports for a port that is not open: the
      serialControl packet is sent, the pendant's screen is not. */
  lemma NegativeCountSplitsGuards(svc: Services, m: Machine, nums: Numerics)
    requires svc.readOnly && svc.jog
    ensures SendSnapshot(-1, svc, m, nums).Some?
    ensures PushUpdate(true, true, svc, -1, m, nums).None?
  {
  }
}
