/** The machine state a status push reads, and the two binary encoders built
    on it: serialControl.sendSnapshot (44-byte packet) and
    SerialCommand.collectStatus (the 38-byte buffer pushBuffer sends).
    Floating-point arithmetic is not modelled: the casts, the division by 25.4
    and the int-to-float widening are supplied as functions on bit patterns. */
module Snapshot {
  import opened Base
  import opened Wire

  /** One read of the backend and the jog service, as Java values. */
  datatype Machine = Machine(
    x: Double, y: Double, z: Double, a: Double,   // getWorkPosition()
    metric: bool,                                // jog.getUnits() == Units.MM
    paused: bool,                                // isPaused()
    sendingFile: bool,                           // isSendingFile()
    idle: bool,                                  // isIdle()
    sentRows: int,                               // getNumSentRows()
    totalRows: int,                              // getNumRows()
    feedRate: int,                               // jog.getFeedRate()
    stepSizeXY: Double,                          // jog.getStepSizeXY()
    liveFeedRate: int)                           // the listener's liveFeedRate

  /** The floating-point operations the encoders apply, left uninterpreted. */
  datatype Numerics = Numerics(
    narrow: Double -> Word,         // the (float) cast of a double
    perInchF: Word -> Word,         // f /= 25.4 on a float
    perInchD: Double -> Double,     // d /= 25.4 on a double
    ofInt: int -> Word,             // an int or long widened to float
    fixed3: Double -> string)       // String.format("%+06.3f", d)

  /** Which collaborators the service registry handed out. */
  datatype Services = Services(backend: bool, readOnly: bool, jog: bool)

  /** Bit patterns of 1.0f, 2.0f and 3.0f (0.0f is PositiveZero). */
  const FloatOne: Word := 0x3F80_0000
  const FloatTwo: Word := 0x4000_0000
  const FloatThree: Word := 0x4040_0000

  /** serialControl's status field: paused 1, else sending a file 2, else
      idle 0, else 3. */
  function StatusCode(paused: bool, sendingFile: bool, idle: bool): (w: Word)
    ensures !IsNaN32(w)
    ensures paused ==> w == FloatOne
    ensures !paused && sendingFile ==> w == FloatTwo
    ensures !paused && !sendingFile && idle ==> w == PositiveZero
    ensures !paused && !sendingFile && !idle ==> w == FloatThree
  {
    if paused then FloatOne
    else if sendingFile then FloatTwo
    else if idle then PositiveZero
    else FloatThree
  }

  /** The rotary value both binary encoders start from:
      (float) (Double.isNaN(a) ? 0 : a). */
  function Rotary(m: Machine, nums: Numerics): (w: Word)
    ensures IsNaN64(m.a) ==> w == PositiveZero
  {
    if IsNaN64(m.a) then PositiveZero else nums.narrow(m.a)
  }

  /** The ten fields of serialControl's packet in wire order, before
      writeFloatToBuffer. As written, the position is divided by 25.4 when the
      jog unit IS millimetres. */
  function ControlFields(m: Machine, nums: Numerics): (ws: seq<Word>)
    ensures |ws| == 10
    ensures ws[4] == StatusCode(m.paused, m.sendingFile, m.idle)
    ensures ws[5] == nums.ofInt(m.feedRate)
    ensures ws[6] == nums.ofInt(m.sentRows) && ws[7] == nums.ofInt(m.totalRows)
    ensures ws[8] == nums.narrow(m.stepSizeXY) && ws[9] == nums.ofInt(m.liveFeedRate)
    ensures !m.metric ==> ws[..4] == [nums.narrow(m.x), nums.narrow(m.y), nums.narrow(m.z), Rotary(m, nums)]
    ensures m.metric ==> ws[..4] == [nums.perInchF(nums.narrow(m.x)), nums.perInchF(nums.narrow(m.y)),
                                     nums.perInchF(nums.narrow(m.z)), nums.perInchF(Rotary(m, nums))]
  {
    var convert := (w: Word) => if m.metric then nums.perInchF(w) else w;
    [convert(nums.narrow(m.x)), convert(nums.narrow(m.y)), convert(nums.narrow(m.z)),
     convert(Rotary(m, nums)),
     StatusCode(m.paused, m.sendingFile, m.idle),
     nums.ofInt(m.feedRate), nums.ofInt(m.sentRows), nums.ofInt(m.totalRows),
     nums.narrow(m.stepSizeXY), nums.ofInt(m.liveFeedRate)]
  }

  /** serialControl.sendSnapshot: nothing while the port still holds unsent
      bytes. `awaiting` is bytesAwaitingWrite(), a Java int that is -1 for a
      port that is not open; only a positive count stops the packet. Nothing when the read-only backend or
      the jog service is missing (the NullPointerException is swallowed),
      otherwise one 44-byte packet. */
  function SendSnapshot(awaiting: int, svc: Services, m: Machine, nums: Numerics): (r: Option<seq<Byte>>)
    ensures awaiting > 0 ==> r.None?
    ensures r.Some? <==> awaiting <= 0 && svc.readOnly && svc.jog
    ensures r.Some? ==> |r.value| == 44 && r.value[..4] == Sync
    ensures r.Some? ==> Decode44(r.value) == Some(SanitizeAll(ControlFields(m, nums)))
  {
    if awaiting > 0 then None
    else if !svc.readOnly || !svc.jog then None
    else
      var f := Frame44(ControlFields(m, nums));
      Decode44Frame44(ControlFields(m, nums));
      Some(f)
  }

  /** No field of a sent packet is a NaN, whatever the machine reports. */
  lemma SnapshotHasNoNaN(awaiting: int, svc: Services, m: Machine, nums: Numerics)
    requires awaiting <= 0 && svc.readOnly && svc.jog
    ensures forall i :: 0 <= i < 10 ==>
      !IsNaN32(Decode44(SendSnapshot(awaiting, svc, m, nums).value).value[i])
  {
    Decode44Frame44(ControlFields(m, nums));
  }

  /** The six words collectStatus puts in the buffer: x, y, z, a, feed rate,
      step size. Only a is cleared of NaN, and the position is divided by
      25.4 when the jog unit is NOT millimetres. */
  function StatusWords(m: Machine, nums: Numerics): (ws: seq<Word>)
    ensures |ws| == 6
    ensures ws[4] == nums.ofInt(m.feedRate) && ws[5] == nums.narrow(m.stepSizeXY)
    ensures m.metric ==> ws[..4] == [nums.narrow(m.x), nums.narrow(m.y), nums.narrow(m.z), Rotary(m, nums)]
    ensures !m.metric ==> ws[..4] == [nums.perInchF(nums.narrow(m.x)), nums.perInchF(nums.narrow(m.y)),
                                      nums.perInchF(nums.narrow(m.z)), nums.perInchF(Rotary(m, nums))]
  {
    var convert := (w: Word) => if m.metric then w else nums.perInchF(w);
    [convert(nums.narrow(m.x)), convert(nums.narrow(m.y)), convert(nums.narrow(m.z)),
     convert(Rotary(m, nums)), nums.ofInt(m.feedRate), nums.narrow(m.stepSizeXY)]
  }

  /** ByteBuffer.allocate(38): all zero until the first collectStatus. */
  function EmptyBuffer(): (buf: seq<Byte>)
    ensures |buf| == 38
  {
    seq(38, _ => 0)
  }

  /** collectStatus: without backend and jog service the buffer is left as it
      was; otherwise the six words overwrite bytes 0 to 23 and bytes 24 to 37
      keep their old contents. */
  function CollectStatus(buf: seq<Byte>, svc: Services, m: Machine, nums: Numerics): (r: seq<Byte>)
    requires |buf| == 38
    ensures |r| == 38
    ensures r[24..] == buf[24..]
    ensures !(svc.backend && svc.jog) ==> r == buf
    ensures svc.backend && svc.jog ==> Unpack(r[..24]) == StatusWords(m, nums)
  {
    if !svc.backend || !svc.jog then buf
    else
      var words := Pack(StatusWords(m, nums));
      UnpackPack(StatusWords(m, nums));
      var r := words + buf[24..];
      assert r[..24] == words;
      r
  }

  /** Round trip of the buffer frame: the peer reads back the six words of
      the last collectStatus. */
  lemma BufferFrameCarriesStatus(buf: seq<Byte>, svc: Services, m: Machine, nums: Numerics)
    requires |buf| == 38 && svc.backend && svc.jog
    ensures DecodeBufferFrame(BufferFrame(CollectStatus(buf, svc, m, nums))) == Some(StatusWords(m, nums))
  {
    var r := CollectStatus(buf, svc, m, nums);
    var f := BufferFrame(r);
    assert f[..5] == SyncLine;
    assert f[5..29] == r[..24];
  }

  /** collectStatus clears a NaN only in a; in x a NaN pattern reaches the
      buffer unchanged (millimetre mode, where no conversion is applied). */
  lemma StatusWordsKeepNaNInX(m: Machine, nums: Numerics)
    requires m.metric && IsNaN32(nums.narrow(m.x))
    ensures IsNaN32(StatusWords(m, nums)[0])
  {
  }

  /** The rotary word is never a NaN in millimetre mode, and in inch mode it
      is not one as long as the division by 25.4 does not produce a NaN from
      a number, as IEEE division by a finite nonzero constant never does. */
  lemma StatusWordsRotaryNotNaN(m: Machine, nums: Numerics)
    requires forall w: Word :: !IsNaN32(w) ==> !IsNaN32(nums.perInchF(w))
    requires forall d: Double :: !IsNaN64(d) ==> !IsNaN32(nums.narrow(d))
    ensures !IsNaN32(StatusWords(m, nums)[3])
  {
    var r := Rotary(m, nums);
    assert !IsNaN32(r);
    assert StatusWords(m, nums)[3] == (if m.metric then r else nums.perInchF(r));
  }
}
