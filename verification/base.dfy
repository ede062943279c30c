/** Shared vocabulary: byte strings, optional values, results, and a
    first-occurrence search used by the parsers. */
module Base {

  /** A Go string: `len` and slicing count its bytes. The model keeps one
      `char` per byte, so lengths and cuts below are byte counts; multibyte
      UTF-8 sequences are never decoded, only counted by `CharCount`. */
  type Bytes = seq<char>

  datatype Option<+T> = None | Some(value: T)

  /** The outcome of an operation that can fail with a message. */
  datatype Result<+T> = Ok(value: T) | Err(error: Bytes)

  /** Go's built-in `min` on two integers. */
  function Min(a: int, b: int): (r: int)
    ensures r <= a && r <= b
    ensures r == a || r == b
  {
    if a <= b then a else b
  }

  /** The index of the first byte of `s` that is in `stops`, or `|s|` when
      there is none. */
  function FirstIn(s: Bytes, stops: set<char>): (i: nat)
    ensures i <= |s|
    ensures forall j :: 0 <= j < i ==> s[j] !in stops
    ensures i < |s| ==> s[i] in stops
  {
    if s == [] then 0
    else if s[0] in stops then 0
    else 1 + FirstIn(s[1..], stops)
  }

  /** Searching a concatenation whose left part holds no stop byte and whose
      right part starts with one finds the seam. */
  lemma FirstInAtSeam(a: Bytes, b: Bytes, stops: set<char>)
    requires forall j :: 0 <= j < |a| ==> a[j] !in stops
    requires b != [] && b[0] in stops
    ensures FirstIn(a + b, stops) == |a|
  {
    assert (a + b)[|a|] == b[0];
    assert forall j :: 0 <= j < |a| ==> (a + b)[j] == a[j];
  }

  /** Searching a string with no stop byte at all runs to its end. */
  lemma FirstInNone(s: Bytes, stops: set<char>)
    requires forall j :: 0 <= j < |s| ==> s[j] !in stops
    ensures FirstIn(s, stops) == |s|
  {
  }

  /** A UTF-8 continuation byte: one that does not start a character. */
  predicate IsContinuation(b: char) {
    0x80 <= b as int < 0xC0
  }

  /** The number of characters a UTF-8 string holds: one for every byte
      that is not a continuation byte. On valid UTF-8 this is Go's
      `utf8.RuneCountInString`; on invalid input it never exceeds it, since
      Go counts every undecodable byte as a character of its own. */
  function CharCount(s: Bytes): (n: nat)
    ensures n <= |s|
    ensures (forall i :: 0 <= i < |s| ==> !IsContinuation(s[i])) ==> n == |s|
  {
    if s == [] then 0
    else (if IsContinuation(s[0]) then 0 else 1) + CharCount(s[1..])
  }

  /** Characters are counted piecewise across a concatenation. */
  lemma {:induction false} CharCountAppend(a: Bytes, b: Bytes)
    ensures CharCount(a + b) == CharCount(a) + CharCount(b)
    decreases |a|
  {
    if a != [] {
      assert (a + b)[0] == a[0];
      assert (a + b)[1..] == a[1..] + b;
      CharCountAppend(a[1..], b);
    } else {
      assert a + b == b;
    }
  }
}
