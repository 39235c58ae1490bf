/** Byte-level layout of the binary status frames: ByteBuffer.putFloat in
    little-endian order, the NaN test of Float.isNaN and Double.isNaN, and
    the two frame shapes, "SYNC" with ten words and "SYNC\n" with a 38-byte
    buffer. */
module Wire {
  import opened Base

  function Pow256(k: nat): (p: nat)
    ensures p > 0
  {
    if k == 0 then 1 else 256 * Pow256(k - 1)
  }

  /** The k low-order bytes of n, least significant first. */
  function LittleEndian(n: nat, k: nat): (bs: seq<Byte>)
    ensures |bs| == k
  {
    if k == 0 then [] else [n % 256] + LittleEndian(n / 256, k - 1)
  }

  /** The number whose little-endian bytes are bs: how the peer reads a field. */
  function FromLittleEndian(bs: seq<Byte>): (n: nat)
    ensures n < Pow256(|bs|)
  {
    if |bs| == 0 then 0 else bs[0] + 256 * FromLittleEndian(bs[1..])
  }

  lemma {:induction false} FromLittleEndianOfLittleEndian(n: nat, k: nat)
    requires n < Pow256(k)
    ensures FromLittleEndian(LittleEndian(n, k)) == n
    decreases k
  {
    if k > 0 {
      var bs := LittleEndian(n, k);
      assert bs[1..] == LittleEndian(n / 256, k - 1);
      FromLittleEndianOfLittleEndian(n / 256, k - 1);
    }
  }

  lemma {:induction false} LittleEndianOfFromLittleEndian(bs: seq<Byte>)
    ensures LittleEndian(FromLittleEndian(bs), |bs|) == bs
    decreases |bs|
  {
    if |bs| > 0 {
      var n := FromLittleEndian(bs);
      assert n % 256 == bs[0] && n / 256 == FromLittleEndian(bs[1..]);
      LittleEndianOfFromLittleEndian(bs[1..]);
    }
  }

  /** ByteBuffer.putFloat after order(LITTLE_ENDIAN): the four bytes of the
      raw bit pattern, least significant first. */
  function Le32(w: Word): (bs: seq<Byte>)
    ensures |bs| == 4
    ensures FromLittleEndian(bs) == w
  {
    FromLittleEndianOfLittleEndian(w, 4);
    LittleEndian(w, 4)
  }

  function ReadLe32(bs: seq<Byte>): (w: Word)
    requires |bs| == 4
    ensures Le32(w) == bs
  {
    LittleEndianOfFromLittleEndian(bs);
    FromLittleEndian(bs)
  }

  /** Consecutive putFloat calls: word i occupies bytes 4i to 4i+3. */
  function Pack(ws: seq<Word>): (bs: seq<Byte>)
    ensures |bs| == 4 * |ws|
    ensures forall i :: 0 <= i < |ws| ==> bs[4 * i..4 * i + 4] == Le32(ws[i])
  {
    if |ws| == 0 then []
    else
      var rest := Pack(ws[1..]);
      var bs := Le32(ws[0]) + rest;
      assert forall i :: 1 <= i < |ws| ==> bs[4 * i..4 * i + 4] == rest[4 * (i - 1)..4 * (i - 1) + 4];
      bs
  }

  /** How the peer reads a packed block back into words. */
  function Unpack(bs: seq<Byte>): (ws: seq<Word>)
    requires |bs| % 4 == 0
    ensures |ws| == |bs| / 4
  {
    if |bs| == 0 then [] else [ReadLe32(bs[..4])] + Unpack(bs[4..])
  }

  lemma {:induction false} UnpackPack(ws: seq<Word>)
    ensures Unpack(Pack(ws)) == ws
    decreases |ws|
  {
    if |ws| > 0 {
      var bs := Pack(ws);
      assert bs[..4] == Le32(ws[0]);
      assert bs[4..] == Pack(ws[1..]);
      UnpackPack(ws[1..]);
    }
  }

  /** Float.isNaN on a raw bit pattern: all exponent bits set and a nonzero
      fraction. */
  predicate IsNaN32(w: Word) {
    (w / 0x80_0000) % 0x100 == 0xFF && w % 0x80_0000 != 0
  }

  /** Double.isNaN on a raw bit pattern. */
  predicate IsNaN64(d: Double) {
    (d / 0x10_0000_0000_0000) % 0x800 == 0x7FF && d % 0x10_0000_0000_0000 != 0
  }

  /** The bit pattern of 0.0f. */
  const PositiveZero: Word := 0

  /** writeFloatToBuffer's guard: a NaN becomes 0.0f, anything else is kept. */
  function Sanitize(w: Word): (r: Word)
    ensures !IsNaN32(r)
    ensures !IsNaN32(w) ==> r == w
    ensures IsNaN32(w) ==> r == PositiveZero
  {
    if IsNaN32(w) then PositiveZero else w
  }

  function SanitizeAll(ws: seq<Word>): (rs: seq<Word>)
    ensures |rs| == |ws|
    ensures forall i :: 0 <= i < |ws| ==> rs[i] == Sanitize(ws[i])
  {
    if |ws| == 0 then [] else [Sanitize(ws[0])] + SanitizeAll(ws[1..])
  }

  /** 'S', 'Y', 'N', 'C'. */
  const Sync: seq<Byte> := [0x53, 0x59, 0x4E, 0x43]

  /** "SYNC\n", the marker line before the 38-byte buffer. */
  const SyncLine: seq<Byte> := Sync + [0x0A]

  /** serialControl's packet: ByteBuffer.allocate(44), the four sync bytes,
      then each of the ten fields through writeFloatToBuffer. */
  function Frame44(fields: seq<Word>): (f: seq<Byte>)
    requires |fields| == 10
    ensures |f| == 44
    ensures f[..4] == Sync
    ensures forall i :: 0 <= i < 10 ==> FromLittleEndian(f[4 + 4 * i..8 + 4 * i]) == Sanitize(fields[i])
  {
    var body := Pack(SanitizeAll(fields));
    var f := Sync + body;
    assert forall i :: 0 <= i < 10 ==> f[4 + 4 * i..8 + 4 * i] == body[4 * i..4 * i + 4];
    f
  }

  /** The peer's reading of a 44-byte packet. */
  function Decode44(f: seq<Byte>): Option<seq<Word>> {
    if |f| == 44 && f[..4] == Sync then Some(Unpack(f[4..])) else None
  }

  /** Round trip: the peer reads back exactly the sanitised fields, so no NaN
      pattern ever reaches it. */
  lemma Decode44Frame44(fields: seq<Word>)
    requires |fields| == 10
    ensures Decode44(Frame44(fields)) == Some(SanitizeAll(fields))
    ensures forall i :: 0 <= i < 10 ==> !IsNaN32(Decode44(Frame44(fields)).value[i])
  {
    var f := Frame44(fields);
    assert f[4..] == Pack(SanitizeAll(fields));
    UnpackPack(SanitizeAll(fields));
  }

  /** SerialCommand.pushBuffer: "SYNC\n" and then every byte of the buffer. */
  function BufferFrame(buf: seq<Byte>): (f: seq<Byte>)
    requires |buf| == 38
    ensures |f| == 43
  {
    SyncLine + buf
  }

  /** The peer's reading of pushBuffer's bytes: the marker line, then six
      words in the first 24 bytes of the buffer. */
  function DecodeBufferFrame(f: seq<Byte>): Option<seq<Word>> {
    if |f| == 43 && f[..5] == SyncLine then Some(Unpack(f[5..29])) else None
  }
}
