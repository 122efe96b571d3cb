/**
 * The batch schedule of one epoch: the loop `for index in range(0, n, b)`
 * visits the start indices 0, b, 2b, ... that lie below the training-set
 * size n, one batch per index.
 */
module Schedule {

  /** The number of batches of size `b` it takes to cover `n` examples. */
  function CeilDiv(n: nat, b: nat): (c: nat)
    requires b > 0
    ensures c * b >= n && c * b < n + b
    ensures (c == 0) == (n == 0)
  {
    CeilDivBounds(n, b);
    (n + b - 1) / b
  }

  /** Multiplying by a natural number keeps the order. */
  lemma MulMono(a: nat, c: nat, b: nat)
    requires a <= c
    ensures a * b <= c * b
  {
    assert c * b == a * b + (c - a) * b;
  }

  /** Floor division is the unique q with q * b <= x < q * b + b. */
  lemma DivUnique(x: nat, b: nat, q: nat)
    requires b > 0 && q * b <= x < q * b + b
    ensures x / b == q && x % b == x - q * b
  {
    var d, m := x / b, x % b;
    assert x == d * b + m && 0 <= m < b;
    if d < q {
      MulMono(d + 1, q, b);
      assert false;
    } else if d > q {
      MulMono(q + 1, d, b);
      assert false;
    }
  }

  lemma CeilDivBounds(n: nat, b: nat)
    requires b > 0
    ensures var c := (n + b - 1) / b; c * b >= n && c * b < n + b
  {
    var x := n + b - 1;
    var d, m := x / b, x % b;
    assert x == d * b + m && 0 <= m < b;
  }

  /** Removing one batch from a non-empty remainder removes one from the count. */
  lemma CeilDivStep(m: nat, b: nat)
    requires b > 0 && m > 0
    ensures CeilDiv(m, b) == 1 + (if m > b then CeilDiv(m - b, b) else 0)
  {
    var c := CeilDiv(m, b);
    if m > b {
      var c' := CeilDiv(m - b, b);
      assert (c' + 1) * b == c' * b + b;
      DivUnique(m + b - 1, b, c' + 1);
    } else {
      DivUnique(m + b - 1, b, 1);
    }
  }

  /**
   * Python's `range(start, stop, step)` for a positive step: the indices
   * start, start + step, ... strictly below stop, in increasing order.
   */
  function Range(start: nat, stop: nat, step: nat): (r: seq<nat>)
    requires step > 0
    ensures |r| == if start < stop then CeilDiv(stop - start, step) else 0
    ensures forall k :: 0 <= k < |r| ==> start <= r[k] < stop
    decreases stop - start
  {
    if start >= stop then []
    else
      var rest := Range(start + step, stop, step);
      CeilDivStep(stop - start, step);
      [start] + rest
  }

  /** A non-empty range is its start followed by the range one step on. */
  lemma RangeUnfold(start: nat, stop: nat, step: nat)
    requires step > 0 && start < stop
    ensures Range(start, stop, step) == [start] + Range(start + step, stop, step)
  {
  }

  /** A non-empty range starts at its start. */
  lemma RangeHead(start: nat, stop: nat, step: nat)
    requires step > 0 && start < stop
    ensures Range(start, stop, step)[0] == start
  {
  }

  /** Consecutive indices of a range are exactly one step apart. */
  lemma {:induction false} RangeConsecutive(start: nat, stop: nat, step: nat)
    requires step > 0
    ensures forall k :: 0 < k < |Range(start, stop, step)| ==>
      Range(start, stop, step)[k] == Range(start, stop, step)[k - 1] + step
    decreases stop - start
  {
    if start < stop {
      var r, rest := Range(start, stop, step), Range(start + step, stop, step);
      RangeConsecutive(start + step, stop, step);
      assert r == [start] + rest;
      if |rest| > 0 { RangeHead(start + step, stop, step); }
      forall k | 0 < k < |r| ensures r[k] == r[k - 1] + step {
        if k > 1 { assert r[k] == rest[k - 1] && r[k - 1] == rest[k - 2]; }
      }
    }
  }

  /** The k-th index of a range is start + k * step. */
  lemma {:induction false} RangeAt(start: nat, stop: nat, step: nat)
    requires step > 0
    ensures forall k :: 0 <= k < |Range(start, stop, step)| ==> Range(start, stop, step)[k] == start + k * step
    decreases stop - start
  {
    if start < stop {
      var r, rest := Range(start, stop, step), Range(start + step, stop, step);
      RangeAt(start + step, stop, step);
      assert r == [start] + rest;
      forall k | 0 <= k < |r| ensures r[k] == start + k * step {
        if k > 0 {
          assert r[k] == rest[k - 1] == start + step + (k - 1) * step;
          assert (k - 1) * step + step == k * step;
        }
      }
    }
  }

  /** Earlier indices of a range are at least one step below later ones. */
  lemma {:induction false} RangeSpread(start: nat, stop: nat, step: nat)
    requires step > 0
    ensures forall j, k :: 0 <= j < k < |Range(start, stop, step)| ==>
      Range(start, stop, step)[j] + step <= Range(start, stop, step)[k]
    decreases stop - start
  {
    if start < stop {
      var r, rest := Range(start, stop, step), Range(start + step, stop, step);
      RangeSpread(start + step, stop, step);
      assert r == [start] + rest;
      forall j, k | 0 <= j < k < |r| ensures r[j] + step <= r[k] {
        assert r[k] == rest[k - 1];
        if j > 0 { assert r[j] == rest[j - 1]; }
      }
    }
  }

  /** The start indices of one epoch: `range(0, n, b)`. */
  function Starts(n: nat, b: nat): (s: seq<nat>)
    requires b > 0
    ensures |s| == CeilDiv(n, b)
    ensures forall k :: 0 <= k < |s| ==> s[k] < n
  {
    Range(0, n, b)
  }

  /**
   * One epoch visits ceil(n / b) start indices 0, b, 2b, ..., all strictly
   * below n, and the last one is the largest multiple of b below n.
   */
  lemma StartsShape(n: nat, b: nat)
    requires b > 0
    ensures var s := Starts(n, b);
      |s| == CeilDiv(n, b) &&
      (forall k :: 0 <= k < |s| ==> s[k] == k * b && s[k] < n) &&
      (|s| > 0 ==> n <= s[|s| - 1] + b)
  {
    var s := Starts(n, b);
    RangeAt(0, n, b);
    if |s| > 0 {
      var c := |s|;
      assert s[c - 1] == (c - 1) * b;
      assert (c - 1) * b + b == c * b;
    }
  }

  /** The last start index is n - (n mod b) when b does not divide n, and n - b when it does. */
  lemma LastStart(n: nat, b: nat)
    requires b > 0 && n > 0
    ensures var s := Starts(n, b);
      |s| > 0 && s[|s| - 1] == if n % b == 0 then n - b else n - n % b
  {
    var s := Starts(n, b);
    StartsShape(n, b);
    var c := |s|;
    var last := s[c - 1];
    assert last == (c - 1) * b && last < n <= last + b;
    assert (c - 1) * b + b == c * b;
    if last + b == n {
      DivUnique(n, b, c);
    } else {
      DivUnique(n, b, c - 1);
    }
  }
}
