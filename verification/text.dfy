/** The Java string operations the protocol relies on: String.trim,
    String.startsWith, Integer.parseInt and the decimal rendering of an int
    (Integer.toString and the %d conversion). */
module Text {
  import opened Base

  /** String.trim removes every leading and trailing character whose code is
      at most U+0020 (space and all control characters). */
  predicate IsBlank(c: char) {
    c <= ' '
  }

  predicate AllBlank(s: string) {
    forall i :: 0 <= i < |s| ==> IsBlank(s[i])
  }

  /** The number of leading characters String.trim removes. */
  function Lead(s: string): (n: nat)
    ensures n <= |s|
    ensures forall i :: 0 <= i < n ==> IsBlank(s[i])
    ensures n < |s| ==> !IsBlank(s[n])
  {
    if |s| > 0 && IsBlank(s[0]) then 1 + Lead(s[1..]) else 0
  }

  /** s without its trailing blanks. */
  function TrimEnd(s: string): (r: string)
    ensures |r| <= |s| && r == s[..|r|]
    ensures forall i :: |r| <= i < |s| ==> IsBlank(s[i])
    ensures |r| > 0 ==> !IsBlank(r[|r| - 1])
  {
    if |s| > 0 && IsBlank(s[|s| - 1]) then TrimEnd(s[..|s| - 1]) else s
  }

  /** String.trim: the longest infix of s that neither starts nor ends with a
      blank, found after skipping the leading blanks. */
  function Trim(s: string): (r: string)
    ensures Lead(s) + |r| <= |s|
    ensures r == s[Lead(s)..Lead(s) + |r|]
    ensures forall i :: Lead(s) + |r| <= i < |s| ==> IsBlank(s[i])
    ensures |r| > 0 ==> !IsBlank(r[0]) && !IsBlank(r[|r| - 1])
    ensures |r| == 0 <==> AllBlank(s)
  {
    TrimEnd(s[Lead(s)..])
  }

  lemma TrimEndOfNonBlankEnd(s: string)
    requires |s| > 0 ==> !IsBlank(s[|s| - 1])
    ensures TrimEnd(s) == s
  {
  }

  lemma TrimEndDropsBlank(s: string, c: char)
    requires IsBlank(c)
    ensures TrimEnd(s + [c]) == TrimEnd(s)
  {
    assert (s + [c])[..|s + [c]| - 1] == s;
  }

  /** Trimming twice is trimming once: every line the framer emits is already
      in trimmed form. */
  lemma TrimIdempotent(s: string)
    ensures Trim(Trim(s)) == Trim(s)
  {
    var t := Trim(s);
    assert Lead(t) == 0;
    assert t[0..] == t;
    TrimEndOfNonBlankEnd(t);
  }

  /** Appending a line terminator before trimming changes nothing: the line
      the framer builds ends in '\n' and String.trim removes it. */
  lemma TrimDropsNewline(s: string)
    ensures Trim(s + ['\n']) == Trim(s)
  {
    var t := s + ['\n'];
    if AllBlank(s) {
      assert AllBlank(t);
    } else {
      LeadOfAppend(s, '\n');
      assert t[Lead(s)..] == s[Lead(s)..] + ['\n'];
      TrimEndDropsBlank(s[Lead(s)..], '\n');
    }
  }

  lemma {:induction false} LeadOfAppend(s: string, c: char)
    requires !AllBlank(s)
    ensures Lead(s + [c]) == Lead(s)
    decreases |s|
  {
    if IsBlank(s[0]) {
      assert (s + [c])[1..] == s[1..] + [c];
      assert !AllBlank(s[1..]) by {
        var i :| 0 <= i < |s| && !IsBlank(s[i]);
        assert s[1..][i - 1] == s[i];
      }
      LeadOfAppend(s[1..], c);
    }
  }

  predicate StartsWith(s: string, prefix: string) {
    |prefix| <= |s| && s[..|prefix|] == prefix
  }

  const MinInt: int := -0x8000_0000
  const MaxInt: int := 0x7fff_ffff

  predicate IsInt32(n: int) {
    MinInt <= n <= MaxInt
  }

  predicate IsDigit(c: char) {
    '0' <= c <= '9'
  }

  predicate AllDigits(s: string) {
    forall i :: 0 <= i < |s| ==> IsDigit(s[i])
  }

  function DigitValue(c: char): (d: nat)
    requires IsDigit(c)
    ensures d < 10
  {
    c as int - '0' as int
  }

  function DigitChar(d: nat): (c: char)
    requires d < 10
    ensures IsDigit(c) && DigitValue(c) == d
  {
    ('0' as int + d) as char
  }

  /** The value of a string of decimal digits, most significant first. */
  function DigitsValue(s: string): (n: nat)
    requires AllDigits(s)
  {
    if |s| == 0 then 0 else DigitsValue(s[..|s| - 1]) * 10 + DigitValue(s[|s| - 1])
  }

  /** The strings radix-10 parseInt reads: an optional '-' or '+', then at
      least one digit. Leading zeros are allowed. */
  predicate IsDecimal(s: string) {
    |s| > 0 &&
    if s[0] == '-' || s[0] == '+' then |s| > 1 && AllDigits(s[1..]) else AllDigits(s)
  }

  /** The value such a string denotes. */
  function DecimalValue(s: string): int
    requires IsDecimal(s)
  {
    if s[0] == '-' then -(DigitsValue(s[1..]) as int)
    else if s[0] == '+' then DigitsValue(s[1..])
    else DigitsValue(s)
  }

  /** Integer.parseInt(s) in radix 10: an optional '-' or '+', then at least
      one digit, and a value that fits a 32-bit int; anything else is the
      NumberFormatException, here None. */
  function ParseInt(s: string): (r: Option<int>)
    ensures r.Some? <==> IsDecimal(s) && IsInt32(DecimalValue(s))
    ensures r.Some? ==> r.value == DecimalValue(s)
    ensures r.Some? ==> IsInt32(r.value)
    ensures r.Some? ==> |s| > 0 && (s[0] == '-' || s[0] == '+' || IsDigit(s[0]))
    ensures r.Some? ==> forall i :: 1 <= i < |s| ==> IsDigit(s[i])
    ensures r.Some? && r.value < 0 ==> s[0] == '-'
  {
    if |s| == 0 then None
    else
      var signed := s[0] == '-' || s[0] == '+';
      var digits := if signed then s[1..] else s;
      if |digits| == 0 || !AllDigits(digits) then None
      else
        var v: int := if s[0] == '-' then -(DigitsValue(digits) as int) else DigitsValue(digits);
        if IsInt32(v) then Some(v) else None
  }

  /** The decimal digits of n, without leading zeros. */
  function ShowNat(n: nat): (s: string)
    ensures |s| > 0 && AllDigits(s)
    ensures |s| > 1 ==> s[0] != '0'
    decreases n
  {
    if n < 10 then [DigitChar(n)] else ShowNat(n / 10) + [DigitChar(n % 10)]
  }

  /** Integer.toString(n), which is also what %d and string concatenation
      produce for an int or a long. */
  function ShowInt(n: int): (s: string)
    ensures |s| > 0
    ensures s[0] == '-' <==> n < 0
  {
    if n < 0 then "-" + ShowNat(-n) else ShowNat(n)
  }

  lemma {:induction false} DigitsValueShowNat(n: nat)
    ensures DigitsValue(ShowNat(n)) == n
    decreases n
  {
    if n >= 10 {
      var s := ShowNat(n);
      assert s[..|s| - 1] == ShowNat(n / 10);
      DigitsValueShowNat(n / 10);
    }
  }

  /** Integer.parseInt reads back every int that Integer.toString wrote. */
  lemma ParseShowInt(n: int)
    requires IsInt32(n)
    ensures ParseInt(ShowInt(n)) == Some(n)
  {
    if n < 0 {
      DigitsValueShowNat(-n);
      assert ShowInt(n)[1..] == ShowNat(-n);
    } else {
      DigitsValueShowNat(n);
    }
  }

  /** parseInt also accepts a '+' sign, leading zeros and "-0", which no
      int prints as. */
  lemma ParseNonCanonical()
    ensures ParseInt("+5") == Some(5)
    ensures ParseInt("007") == Some(7)
    ensures ParseInt("-0") == Some(0)
  {
    assert DigitsValue("5") == 5;
    assert "007"[..2] == "00" && "00"[..1] == "0";
    assert DigitsValue("007") == 7;
    assert "-0"[1..] == "0";
  }
}
