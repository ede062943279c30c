/** Decimal rendering of integers as Go's `%d` verb prints them: an optional
    minus sign, then the digits of the magnitude with no leading zero. The
    parser is its inverse and serves as the partner of the renderer. */
module Decimal {
  import opened Base

  predicate IsDigit(b: char) {
    '0' <= b <= '9'
  }

  function DigitChar(d: nat): (b: char)
    requires d < 10
    ensures IsDigit(b)
  {
    (48 + d) as char
  }

  function DigitValue(b: char): (d: nat)
    requires IsDigit(b)
    ensures d < 10
    ensures DigitChar(d) == b
  {
    b as int - 48
  }

  /** The digits of a natural number, most significant first. */
  function Digits(n: nat): (r: Bytes)
    ensures r != []
    ensures forall i :: 0 <= i < |r| ==> IsDigit(r[i])
    ensures n > 0 ==> r[0] != '0'
    decreases n
  {
    if n < 10 then [DigitChar(n)] else Digits(n / 10) + [DigitChar(n % 10)]
  }

  /** Go's `fmt.Sprintf("%d", n)`. */
  function Format(n: int): (r: Bytes)
    ensures r != []
    ensures n >= 0 <==> IsDigit(r[0])
  {
    if n < 0 then ['-'] + Digits(-n) else Digits(n)
  }

  /** The value of a non-empty all-digit string, or None. */
  function ParseDigits(s: Bytes): (r: Option<nat>)
    decreases |s|
  {
    if s == [] || !IsDigit(s[|s| - 1]) then None
    else if |s| == 1 then Some(DigitValue(s[0]))
    else match ParseDigits(s[..|s| - 1])
      case None => None
      case Some(high) => Some(high * 10 + DigitValue(s[|s| - 1]))
  }

  /** The value of a string `Format` could have printed, or None. */
  function Parse(s: Bytes): (r: Option<int>)
  {
    if s != [] && s[0] == '-' then
      match ParseDigits(s[1..])
      case None => None
      case Some(m) => Some(-(m as int))
    else
      match ParseDigits(s)
      case None => None
      case Some(m) => Some(m as int)
  }

  lemma {:induction false} DigitsRoundTrip(n: nat)
    ensures ParseDigits(Digits(n)) == Some(n)
    decreases n
  {
    if n >= 10 {
      var s := Digits(n);
      assert s[..|s| - 1] == Digits(n / 10);
      DigitsRoundTrip(n / 10);
    }
  }

  /** Parsing what `Format` prints gives back the number, so distinct
      numbers print differently. */
  lemma FormatRoundTrip(n: int)
    ensures Parse(Format(n)) == Some(n)
  {
    if n < 0 {
      var d := Digits(-n);
      assert Format(n) == ['-'] + d;
      assert (['-'] + d)[1..] == d;
      DigitsRoundTrip(-n);
    } else {
      DigitsRoundTrip(n);
    }
  }
}
