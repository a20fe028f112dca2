/** The two Python string operations the to-do core relies on: `str.strip()`
    with no argument, and slicing with bounds that are clamped to the
    string. Strings are sequences of code points, as in Python 3. */
module Text {

  /** Python's `str.isspace()` for one code point. */
  predicate IsSpace(c: char) {
    ('\t' <= c <= '\r') || ('\U{1C}' <= c <= '\U{1F}') || c == ' '
    || c == '\U{85}' || c == '\U{A0}' || c == '\U{1680}'
    || ('\U{2000}' <= c <= '\U{200A}') || c == '\U{2028}' || c == '\U{2029}'
    || c == '\U{202F}' || c == '\U{205F}' || c == '\U{3000}'
  }

  /** A string that `strip()` leaves alone: empty, or no white space at either end. */
  predicate Stripped(s: string) {
    s == [] || (!IsSpace(s[0]) && !IsSpace(s[|s| - 1]))
  }

  /** Every code point of `s` in positions `lo` up to, not including, `hi` is white space. */
  predicate SpaceBetween(s: string, lo: int, hi: int) {
    forall k :: lo <= k < hi && 0 <= k < |s| ==> IsSpace(s[k])
  }

  predicate AllSpace(s: string) {
    SpaceBetween(s, 0, |s|)
  }

  /** How many code points of white space open `s`: all of them are white
      space, and the one after them, if any, is not. */
  function LeadingSpace(s: string): (n: nat)
    ensures n <= |s| && SpaceBetween(s, 0, n)
    ensures n < |s| ==> !IsSpace(s[n])
  {
    if |s| == 0 || !IsSpace(s[0]) then 0 else 1 + LeadingSpace(s[1..])
  }

  /** How many code points of white space close `s`: all of them are white
      space, and the one before them, if any, is not. */
  function TrailingSpace(s: string): (n: nat)
    ensures n <= |s| && SpaceBetween(s, |s| - n, |s|)
    ensures n < |s| ==> !IsSpace(s[|s| - 1 - n])
  {
    if |s| == 0 || !IsSpace(s[|s| - 1]) then 0 else 1 + TrailingSpace(s[..|s| - 1])
  }

  /** `s.strip()`: a contiguous piece of `s` with only white space cut off
      around it, itself without white space at either end; it is empty
      exactly when `s` is all white space, and a stripped string is its own
      strip. */
  function Strip(s: string): (r: string)
    ensures exists i :: 0 <= i <= |s| - |r| && r == s[i..i + |r|]
                        && SpaceBetween(s, 0, i) && SpaceBetween(s, i + |r|, |s|)
    ensures Stripped(r)
    ensures r == [] <==> AllSpace(s)
    ensures Stripped(s) ==> r == s
  {
    var i := LeadingSpace(s);
    if i == |s| then
      assert SpaceBetween(s, i + 0, |s|);
      []
    else
      var j := |s| - TrailingSpace(s);
      assert i < j;
      assert !IsSpace(s[j - 1]);
      assert s[i..j][0] == s[i] && s[i..j][j - i - 1] == s[j - 1];
      assert !AllSpace(s) by { assert !IsSpace(s[i]); }
      s[i..j]
  }

  /** Python's `s[:n]`: the first `n` code points, or all of `s` when it is
      shorter. */
  function Take(s: string, n: nat): (r: string)
    ensures |r| == if n <= |s| then n else |s|
    ensures forall k :: 0 <= k < |r| ==> r[k] == s[k]
  {
    if n <= |s| then s[..n] else s
  }

  /** Python's `s[n:]`: what follows the first `n` code points, empty when
      `s` is not longer than `n`. */
  function Drop(s: string, n: nat): (r: string)
    ensures |r| == if n <= |s| then |s| - n else 0
    ensures forall k :: 0 <= k < |r| ==> r[k] == s[n + k]
  {
    if n <= |s| then s[n..] else []
  }

  /** Python's `s[i:j]` for non-negative bounds: the code points of `s` from
      position `i` up to, not including, `j`, both clamped to the string. */
  function Slice(s: string, i: nat, j: nat): (r: string)
    ensures |r| == if i < j && i < |s| then (if j <= |s| then j else |s|) - i else 0
    ensures |r| <= |s| && (i >= |s| || j <= i ==> r == [])
    ensures forall k :: 0 <= k < |r| ==> i + k < j && i + k < |s| && r[k] == s[i + k]
  {
    if i <= j then Take(Drop(s, i), j - i) else []
  }
}
