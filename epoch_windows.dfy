/**
 * The windows of one epoch under the clamped rule `Window`: the window at
 * every start index of `range(0, n, b)`. These are the program's own windows
 * whenever b <= n (`AsWrittenAgrees`). They cover the whole training set;
 * when b divides n they partition it, and otherwise only the final,
 * right-aligned window overlaps its predecessor.
 */
module Epoch {
  import opened PythonSlice
  import opened Batching
  import opened Schedule

  /**
   * The clamped-rule windows of the batches that start at the indices of
   * `range(start, n, b)`; the program's own windows whenever b <= n.
   */
  function WindowsFrom(start: nat, n: nat, b: nat): (ws: seq<Span>)
    requires b > 0
    ensures |ws| == |Range(start, n, b)|
    ensures forall k :: 0 <= k < |ws| ==> ws[k] == Window(Range(start, n, b)[k], b, n)
    decreases n - start
  {
    if start >= n then [] else [Window(start, b, n)] + WindowsFrom(start + b, n, b)
  }

  /** Example `i` is inside window `w`. */
  predicate Covers(w: Span, i: int)
  {
    w.lo <= i < w.hi
  }

  /** Example `i` is inside some window of `ws`. */
  predicate CoveredBy(ws: seq<Span>, i: int)
  {
    exists k :: 0 <= k < |ws| && Covers(ws[k], i)
  }

  /** The clamped-rule windows of one epoch, in the order the loop visits them. */
  function EpochWindows(n: nat, b: nat): (ws: seq<Span>)
    requires b > 0
  {
    WindowsFrom(0, n, b)
  }

  /** Every index from `start` on is inside some window of `range(start, n, b)`. */
  lemma {:induction false} WindowsCoverFrom(start: nat, n: nat, b: nat)
    requires b > 0
    ensures forall i :: start <= i < n ==> CoveredBy(WindowsFrom(start, n, b), i)
    decreases n - start
  {
    if start < n {
      var ws, rest := WindowsFrom(start, n, b), WindowsFrom(start + b, n, b);
      WindowsCoverFrom(start + b, n, b);
      assert ws == [Window(start, b, n)] + rest;
      forall i | start <= i < n ensures CoveredBy(ws, i) {
        if i < start + b {
          assert Covers(ws[0], i);
        } else {
          assert CoveredBy(rest, i);
          var k :| 0 <= k < |rest| && Covers(rest[k], i);
          assert ws[k + 1] == rest[k];
        }
      }
    }
  }

  /**
   * Under the clamped rule one epoch covers every training example, for
   * every positive batch size. For b <= n these are the program's own
   * windows (`AsWrittenAgrees`); for n < b < 2n the program's window is
   * narrower (`OversizedBatchAsWritten`).
   */
  lemma WindowsCover(n: nat, b: nat)
    requires b > 0
    ensures forall i :: 0 <= i < n ==> CoveredBy(EpochWindows(n, b), i)
  {
    WindowsCoverFrom(0, n, b);
  }

  /**
   * Every window but the last is the full window [s, s + b) at its start
   * index s and ends where the next one starts; the last window ends at the
   * last example and, when b <= n, starts at n - b.
   */
  lemma WindowsShape(n: nat, b: nat)
    requires b > 0
    ensures var ws, s := EpochWindows(n, b), Starts(n, b);
      |ws| == |s| == CeilDiv(n, b) &&
      (forall k :: 0 <= k < |ws| - 1 ==> ws[k] == Span(s[k], s[k] + b) && ws[k].hi == s[k + 1]) &&
      (|ws| > 0 ==> ws[|ws| - 1].hi == n) &&
      (|ws| > 0 && b <= n ==> ws[|ws| - 1] == Span(n - b, n))
  {
    var ws, s := EpochWindows(n, b), Starts(n, b);
    StartsShape(n, b);
    RangeConsecutive(0, n, b);
    forall k | 0 <= k < |ws| - 1 ensures ws[k] == Span(s[k], s[k] + b) && ws[k].hi == s[k + 1] {
      assert s[k + 1] == s[k] + b && s[k + 1] < n;
      assert ws[k] == Window(s[k], b, n);
    }
    if |ws| > 0 {
      var last := s[|s| - 1];
      assert n <= last + b;
      assert ws[|ws| - 1] == Window(last, b, n);
    }
  }

  /** When b divides n, every window of the epoch is the full window [s, s + b) at its start s. */
  lemma DivisibleWindowsFull(n: nat, b: nat)
    requires b > 0 && n % b == 0
    ensures var ws, s := EpochWindows(n, b), Starts(n, b);
      |ws| == |s| && forall k :: 0 <= k < |ws| ==> ws[k] == Span(s[k], s[k] + b)
  {
    var ws, s := EpochWindows(n, b), Starts(n, b);
    WindowsShape(n, b);
    if n > 0 {
      LastStart(n, b);
      assert ws[|ws| - 1] == Window(s[|s| - 1], b, n) == Span(n - b, n);
    }
  }

  /**
   * When b divides n the windows of one epoch have b examples each and
   * partition the training set: every example lies in exactly one window.
   */
  lemma PartitionWhenDivisible(n: nat, b: nat)
    requires b > 0 && n % b == 0
    ensures var ws := EpochWindows(n, b);
      (forall k :: 0 <= k < |ws| ==> ws[k].hi - ws[k].lo == b) &&
      (forall j, k :: 0 <= j < k < |ws| ==> ws[j].hi <= ws[k].lo) &&
      (forall i :: 0 <= i < n ==> CoveredBy(ws, i)) &&
      (forall i, j, k :: 0 <= j < |ws| && 0 <= k < |ws| && Covers(ws[j], i) && Covers(ws[k], i) ==> j == k)
  {
    var ws, s := EpochWindows(n, b), Starts(n, b);
    DivisibleWindowsFull(n, b);
    WindowsCover(n, b);
    RangeSpread(0, n, b);
  }

  /**
   * When b <= n and b does not divide n, the final window is [n - b, n) and
   * overlaps the window before it by b - n mod b examples.
   */
  lemma FinalOverlap(n: nat, b: nat)
    requires 0 < b <= n && n % b != 0
    ensures var ws := EpochWindows(n, b);
      |ws| >= 2 &&
      ws[|ws| - 1] == Span(n - b, n) &&
      ws[|ws| - 2] == Span(n - n % b - b, n - n % b) &&
      ws[|ws| - 2].hi - ws[|ws| - 1].lo == b - n % b
    ensures forall j, k :: 0 <= j < k < |EpochWindows(n, b)| && k < |EpochWindows(n, b)| - 1 ==>
      EpochWindows(n, b)[j].hi <= EpochWindows(n, b)[k].lo
    ensures forall j :: 0 <= j < |EpochWindows(n, b)| - 2 ==>
      EpochWindows(n, b)[j].hi <= EpochWindows(n, b)[|EpochWindows(n, b)| - 1].lo
  {
    var ws, s := EpochWindows(n, b), Starts(n, b);
    WindowsShape(n, b);
    LastStart(n, b);
    StartsShape(n, b);
    assert |ws| >= 2 by {
      if |ws| == 1 { assert s[0] == 0; }
    }
    RangeConsecutive(0, n, b);
    assert s[|s| - 2] == n - n % b - b;
    forall j, k | 0 <= j < k < |ws| && k < |ws| - 1 ensures ws[j].hi <= ws[k].lo {
      RangeSpread(0, n, b);
    }
    forall j | 0 <= j < |ws| - 2 ensures ws[j].hi <= ws[|ws| - 1].lo {
      RangeSpread(0, n, b);
      assert s[j] + b <= s[|s| - 2];
    }
  }

  /** A training set of 5 examples with batch size 2 is trained as [0, 2), [2, 4), [3, 5). */
  lemma SmallEpoch()
    ensures Starts(5, 2) == [0, 2, 4]
    ensures EpochWindows(5, 2) == [Span(0, 2), Span(2, 4), Span(3, 5)]
  {
    assert Range(4, 5, 2) == [4];
    assert Range(2, 5, 2) == [2, 4];
  }

  /**
   * As written, a batch size between n and 2n leaves the front of the
   * training set out of every epoch: the only start index is 0, and
   * Python reads the negative start n - b from the end.
   */
  lemma OversizedBatchAsWritten(n: nat, b: nat)
    requires 0 < n < b < 2 * n
    ensures Starts(n, b) == [0]
    ensures AsWrittenWindow(0, b, n) == Span(2 * n - b, n) && 0 < 2 * n - b
    ensures Window(0, b, n) == Span(0, n)
  {
    assert Range(b, n, b) == [];
  }

  /** A small instance: 5 examples, batch size 7, trained only on the last two. */
  lemma OversizedBatchExample()
    ensures GetDataAsWritten([10, 11, 12, 13, 14], [0, 0, 1, 1, 0], 0, 7, 5) == Batch([13, 14], [1, 0])
    ensures GetData([10, 11, 12, 13, 14], [0, 0, 1, 1, 0], 0, 7, 5) == Batch([10, 11, 12, 13, 14], [0, 0, 1, 1, 0])
  {
    var data: seq<int>, labels: seq<int> := [10, 11, 12, 13, 14], [0, 0, 1, 1, 0];
    assert RawBounds(0, 7, 5) == Span(-2, 5);
    assert Effective(-2, 5, 5) == Span(3, 5);
    assert data[3..5] == [13, 14] && labels[3..5] == [1, 0];
    assert Window(0, 7, 5) == Span(0, 5);
    assert data[0..5] == data && labels[0..5] == labels;
  }
}
