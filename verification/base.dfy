/** Shared value types of the serial pendant protocol: the optional value used
    for error paths, the octet and the raw IEEE-754 bit patterns that stand in
    for Java's float and double. */
module Base {

  /** The conventional Some/None datatype, used for "no port", "no frame" and
      "not an integer". */
  datatype Option<+T> = None | Some(value: T)

  /** An octet as read from, or written to, the serial line. */
  type Byte = b: int | 0 <= b < 0x100

  /** The raw bit pattern of a Java float (Float.floatToRawIntBits). */
  type Word = w: int | 0 <= w < 0x1_0000_0000

  /** The raw bit pattern of a Java double (Double.doubleToRawLongBits). */
  type Double = d: int | 0 <= d < 0x1_0000_0000_0000_0000

  predicate IsAscii(s: string) {
    forall i :: 0 <= i < |s| ==> s[i] < 128 as char
  }

  /** String.getBytes() of a string that only holds ASCII characters: every
      charset Java ships maps those one character to one byte. */
  function Ascii(s: string): (bs: seq<Byte>)
    requires IsAscii(s)
    ensures |bs| == |s|
    ensures forall i :: 0 <= i < |s| ==> bs[i] as char == s[i]
  {
    seq(|s|, i requires 0 <= i < |s| => s[i] as int)
  }
}
