/**
 * Python's slice semantics `s[lo:hi]` on a sequence, for bounds of either
 * sign: a negative bound counts from the end, every bound is then clamped
 * into [0, len(s)], and a start past the stop gives the empty slice.
 */
module PythonSlice {

  /** A half-open index range [lo, hi). */
  datatype Span = Span(lo: int, hi: int)

  /** Python's normalisation of one slice bound against a sequence length. */
  function Bound(i: int, len: nat): (r: nat)
    ensures r <= len
    ensures 0 <= i <= len ==> r == i
    // a negative bound counts from the end, and one past either end is clamped
    ensures i < 0 && 0 <= len + i ==> r == len + i
    ensures len + i < 0 ==> r == 0
    ensures i > len ==> r == len
  {
    if i < 0 then (if len + i < 0 then 0 else len + i)
    else if i > len then len
    else i
  }

  /** The index range Python actually takes for `s[lo:hi]` when `len(s) == len`. */
  function Effective(lo: int, hi: int, len: nat): (w: Span)
    ensures 0 <= w.lo <= w.hi <= len
    ensures 0 <= lo <= hi <= len ==> w == Span(lo, hi)
    ensures w.lo == Bound(lo, len)
    ensures Bound(hi, len) <= Bound(lo, len) ==> w.hi - w.lo == 0
    ensures Bound(lo, len) <= Bound(hi, len) ==> w.hi == Bound(hi, len)
  {
    var l, h := Bound(lo, len), Bound(hi, len);
    Span(l, if h < l then l else h)
  }

  /** `s[lo:hi]` in Python. */
  function Slice<T>(s: seq<T>, lo: int, hi: int): (r: seq<T>)
    ensures |r| <= |s|
    ensures 0 <= lo <= hi <= |s| ==> r == s[lo..hi]
  {
    var w := Effective(lo, hi, |s|);
    s[w.lo..w.hi]
  }
}
