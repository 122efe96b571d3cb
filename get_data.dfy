/**
 * The batch-window rule of the training driver (`get_data`): a batch start
 * index selects a contiguous window of the training data and, with the same
 * bounds, of the training labels. When b <= n, a window that would run past
 * the end of the training set is right-aligned to end at its last example
 * instead of being shortened or dropped. As written, a batch size above n
 * makes the start negative, and Python's slicing then shortens the window.
 */
module Batching {
  import opened PythonSlice

  /** One batch: the data rows and the label rows handed to the model. */
  datatype Batch<D, L> = Batch(data: seq<D>, labels: seq<L>)

  function Min(a: int, b: int): (m: int)
    ensures m <= a && m <= b && (m == a || m == b)
  {
    if a <= b then a else b
  }

  /**
   * `r` is the window `w` of `data` and of `labels`: both parts have the
   * window's length and agree with the inputs position by position.
   */
  ghost predicate SlicedAt<D, L>(r: Batch<D, L>, data: seq<D>, labels: seq<L>, w: Span)
  {
    0 <= w.lo <= w.hi <= |data| && w.hi <= |labels| &&
    |r.data| == w.hi - w.lo && |r.labels| == w.hi - w.lo &&
    forall k :: 0 <= k < w.hi - w.lo ==> r.data[k] == data[w.lo + k] && r.labels[k] == labels[w.lo + k]
  }

  /**
   * The window of the batch that starts at `ix`, for batch size `b` and a
   * training set of `n` examples. The clamped start never goes below 0.
   */
  function Window(ix: nat, b: nat, n: nat): (w: Span)
    ensures 0 <= w.lo <= w.hi <= n
    // the usual window, also at the boundary ix + b == n
    ensures ix + b <= n ==> w == Span(ix, ix + b)
    // a window that would run past the end ends at the last example
    // and still holds b examples whenever the training set has that many
    ensures ix + b >= n ==> w.hi == n && w.hi - w.lo == Min(b, n)
  {
    if ix + b >= n then Span(if n < b then 0 else n - b, n)
    else Span(ix, ix + b)
  }

  /** `get_data(ix, b, n)` over the training data and labels, with the start clamped at 0. */
  function GetData<D, L>(data: seq<D>, labels: seq<L>, ix: nat, b: nat, n: nat): (r: Batch<D, L>)
    requires |data| == n && |labels| == n
    ensures SlicedAt(r, data, labels, Window(ix, b, n))
    ensures b <= n ==> |r.data| == b
  {
    var w := Window(ix, b, n);
    Batch(data[w.lo..w.hi], labels[w.lo..w.hi])
  }

  /**
   * The start and the end of `get_data` exactly as written: when the window
   * would pass the end, the start becomes `n - b`, which is negative when
   * `b > n`.
   */
  function RawBounds(ix: int, b: int, n: int): (w: Span)
    // both branches span exactly b indices and never end past n
    ensures w.hi - w.lo == b && w.hi == Min(ix + b, n)
  {
    if ix + b >= n then Span(n - b, n) else Span(ix, ix + b)
  }

  /** The index range Python's slicing takes from `RawBounds`. */
  function AsWrittenWindow(ix: int, b: int, n: nat): (w: Span)
    ensures 0 <= w.lo <= w.hi <= n
  {
    var raw := RawBounds(ix, b, n);
    Effective(raw.lo, raw.hi, n)
  }

  /** `get_data(ix, b, n)` exactly as written, with Python's slicing of both globals. */
  function GetDataAsWritten<D, L>(data: seq<D>, labels: seq<L>, ix: int, b: int, n: nat): (r: Batch<D, L>)
    requires |data| == n && |labels| == n
    ensures SlicedAt(r, data, labels, AsWrittenWindow(ix, b, n))
    ensures 0 <= ix && 0 <= b <= n ==> |r.data| == b
  {
    var raw := RawBounds(ix, b, n);
    Batch(Slice(data, raw.lo, raw.hi), Slice(labels, raw.lo, raw.hi))
  }

  /** For every batch size the training set can fill, the clamped rule is the rule as written. */
  lemma AsWrittenAgrees<D, L>(data: seq<D>, labels: seq<L>, ix: nat, b: nat, n: nat)
    requires |data| == n && |labels| == n && b <= n
    ensures AsWrittenWindow(ix, b, n) == Window(ix, b, n)
    ensures GetDataAsWritten(data, labels, ix, b, n) == GetData(data, labels, ix, b, n)
  {
  }

  /**
   * For every batch size above n, the window as written is the same at every
   * start index: the last b - n examples, from index 2n - b on, when b < 2n,
   * and all of them once
   * b >= 2n, where Python clamps the negative start to 0.
   */
  lemma OversizedWindowAsWritten(ix: nat, b: nat, n: nat)
    requires n < b
    ensures AsWrittenWindow(ix, b, n) == Span(if b < 2 * n then 2 * n - b else 0, n)
    ensures Window(ix, b, n) == Span(0, n)
  {
  }
}
