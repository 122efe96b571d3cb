/**
 * The batch loop of the training driver: for every epoch, the loop over the
 * batch start indices of `range(0, n, b)` hands one batch to the model per
 * index and counts the batches; after the last epoch the accumulated loss
 * and accuracy are divided by that count.
 */
module Training {
  import opened PythonSlice
  import opened Batching
  import opened Schedule
  import opened Epoch

  datatype Option<T> = None | Some(value: T)

  /** The model variants the driver dispatches on. */
  datatype ModelKind = Player2vec | FdGars | SpamGCN | SemiGNN

  /**
   * What one iteration of the batch loop hands on: a contiguous slice of the
   * training data and labels, or, for SemiGNN, the batch index and size given
   * to the negative-sampling batch builder.
   */
  datatype Step<D, L> = Sliced(batch: Batch<D, L>) | NegativeSampled(index: nat, size: nat)

  /** How the driver ends after its epochs, as far as the batch count decides it. */
  datatype Outcome =
    | Finished(count: nat)  // the loss and accuracy sums are divided by `count`
    | CountUnbound          // no epoch ran, so `count` was never assigned
    | ZeroDivision          // the last epoch had no batch, so the division is by zero
    | IndexError            // the model constructor read past the end of the parameter list

  /**
   * The batch built at start index `ix` for the given model variant: the
   * SemiGNN branch hands the index and size to the negative-sampling builder,
   * every other variant calls `get_data` as written.
   */
  function StepAt<D, L>(kind: ModelKind, data: seq<D>, labels: seq<L>, ix: nat, b: nat): (st: Step<D, L>)
    requires |data| == |labels|
    ensures kind == SemiGNN ==> st == NegativeSampled(ix, b)
    ensures kind != SemiGNN ==> st.Sliced? && SlicedAt(st.batch, data, labels, AsWrittenWindow(ix, b, |data|))
  {
    if kind == SemiGNN then NegativeSampled(ix, b)
    else Sliced(GetDataAsWritten(data, labels, ix, b, |data|))
  }

  /** The batches built at the start indices `s`, in order. */
  function StepsOver<D, L>(kind: ModelKind, data: seq<D>, labels: seq<L>, s: seq<nat>, b: nat): (st: seq<Step<D, L>>)
    requires |data| == |labels|
    ensures |st| == |s|
  {
    if s == [] then [] else [StepAt(kind, data, labels, s[0], b)] + StepsOver(kind, data, labels, s[1..], b)
  }

  /** The k-th batch built over `s` is the batch of the k-th start index. */
  lemma {:induction false} StepsOverAt<D, L>(kind: ModelKind, data: seq<D>, labels: seq<L>, s: seq<nat>, b: nat)
    requires |data| == |labels|
    ensures forall k :: 0 <= k < |s| ==> StepsOver(kind, data, labels, s, b)[k] == StepAt(kind, data, labels, s[k], b)
  {
    if s != [] {
      StepsOverAt(kind, data, labels, s[1..], b);
      var st := StepsOver(kind, data, labels, s, b);
      forall k | 0 < k < |s| ensures st[k] == StepAt(kind, data, labels, s[k], b) {
        assert st[k] == StepsOver(kind, data, labels, s[1..], b)[k - 1];
      }
    }
  }

  /** The batches over `[ix] + s` are the batch at `ix` followed by those over `s`. */
  lemma StepsOverCons<D, L>(kind: ModelKind, data: seq<D>, labels: seq<L>, ix: nat, s: seq<nat>, b: nat)
    requires |data| == |labels|
    ensures StepsOver(kind, data, labels, [ix] + s, b) == [StepAt(kind, data, labels, ix, b)] + StepsOver(kind, data, labels, s, b)
  {
    assert ([ix] + s)[1..] == s;
  }

  /** The batches of one epoch, one per start index of `range(0, n, b)`. */
  function EpochSteps<D, L>(kind: ModelKind, data: seq<D>, labels: seq<L>, b: nat): (st: seq<Step<D, L>>)
    requires b > 0 && |data| == |labels|
    ensures |st| == CeilDiv(|data|, b)
    ensures forall k :: 0 <= k < |st| ==> st[k] == StepAt(kind, data, labels, Starts(|data|, b)[k], b)
  {
    StepsOverAt(kind, data, labels, Starts(|data|, b), b);
    StepsOver(kind, data, labels, Starts(|data|, b), b)
  }

  /** The batches of the start indices from `index` on, one step of the loop at a time. */
  function StepsFrom<D, L>(kind: ModelKind, data: seq<D>, labels: seq<L>, index: nat, b: nat): seq<Step<D, L>>
    requires b > 0 && |data| == |labels|
    decreases |data| - index
  {
    if index >= |data| then []
    else [StepAt(kind, data, labels, index, b)] + StepsFrom(kind, data, labels, index + b, b)
  }

  /** One step of the loop extends the batches of the range one step on. */
  lemma StepsFromStep<D, L>(kind: ModelKind, data: seq<D>, labels: seq<L>, index: nat, b: nat)
    requires b > 0 && |data| == |labels| && index < |data|
    requires StepsFrom(kind, data, labels, index + b, b) == StepsOver(kind, data, labels, Range(index + b, |data|, b), b)
    ensures StepsFrom(kind, data, labels, index, b) == StepsOver(kind, data, labels, Range(index, |data|, b), b)
  {
    RangeUnfold(index, |data|, b);
    StepsOverCons(kind, data, labels, index, Range(index + b, |data|, b), b);
  }

  /** Stepping the loop from `index` builds the batches of `range(index, n, b)`. */
  lemma {:induction false} StepsFromRange<D, L>(kind: ModelKind, data: seq<D>, labels: seq<L>, index: nat, b: nat)
    requires b > 0 && |data| == |labels|
    ensures StepsFrom(kind, data, labels, index, b) == StepsOver(kind, data, labels, Range(index, |data|, b), b)
    decreases |data| - index
  {
    if index < |data| {
      StepsFromRange(kind, data, labels, index + b, b);
      StepsFromStep(kind, data, labels, index, b);
    } else {
      assert Range(index, |data|, b) == [];
    }
  }

  /** Stepping the loop from index 0 builds exactly the batches of one epoch. */
  lemma StepsFromStart<D, L>(kind: ModelKind, data: seq<D>, labels: seq<L>, b: nat)
    requires b > 0 && |data| == |labels|
    ensures StepsFrom(kind, data, labels, 0, b) == EpochSteps(kind, data, labels, b)
  {
    StepsFromRange(kind, data, labels, 0, b);
  }

  /** `m` epochs, one after another. */
  function Repeat<T>(s: seq<T>, m: nat): (r: seq<T>)
    ensures |r| == m * |s|
    ensures forall k :: 0 <= k < |r| ==> r[k] == s[k % |s|]
  {
    if m == 0 then []
    else
      var prev := Repeat(s, m - 1);
      assert (m - 1) * |s| + |s| == m * |s|;
      RepeatTail(prev, s, m - 1);
      prev + s
  }

  lemma RepeatTail<T>(prev: seq<T>, s: seq<T>, m: nat)
    requires |prev| == m * |s|
    ensures forall k :: |prev| <= k < |prev| + |s| ==> k - |prev| == k % |s|
  {
    forall k | |prev| <= k < |prev| + |s| ensures k - |prev| == k % |s| {
      assert m * |s| <= k < m * |s| + |s|;
      DivUnique(k, |s|, m);
    }
  }

  /** Moving the head of the rest onto the end of the prefix keeps the whole. */
  lemma Shift<T>(prefix: seq<T>, x: T, rest: seq<T>)
    ensures prefix + [x] + rest == prefix + ([x] + rest)
  {
  }

  /** One epoch of the inner loop: the batches it hands to the model and its batch count. */
  method RunEpoch<D, L>(kind: ModelKind, data: seq<D>, labels: seq<L>, b: nat) returns (count: nat, steps: seq<Step<D, L>>)
    requires b > 0 && |data| == |labels|
    ensures count == CeilDiv(|data|, b)
    ensures steps == EpochSteps(kind, data, labels, b)
  {
    var n := |data|;
    count := 0;
    steps := [];
    var index := 0;
    while index < n
      invariant steps + StepsFrom(kind, data, labels, index, b) == StepsFrom(kind, data, labels, 0, b)
      invariant count == |steps|
      decreases n - index
    {
      var step := StepAt(kind, data, labels, index, b);
      Shift(steps, step, StepsFrom(kind, data, labels, index + b, b));
      steps := steps + [step];
      count := count + 1;
      index := index + b;
    }
    StepsFromStart(kind, data, labels, b);
  }

  /**
   * The whole training loop: `epochs` runs of the inner loop, after which
   * the outcome depends on the count of the last epoch only. With the
   * four-entry parameter list of the `dblp` layout, building SpamGCN reads
   * `paras[4]` and fails before the first epoch.
   */
  method Train<D, L>(kind: ModelKind, data: seq<D>, labels: seq<L>, b: nat, epochs: int)
    returns (outcome: Outcome, steps: seq<Step<D, L>>)
    requires b > 0 && |data| == |labels|
    ensures kind == SpamGCN ==> outcome == IndexError && steps == []
    ensures kind != SpamGCN ==>
      steps == Repeat(EpochSteps(kind, data, labels, b), if epochs < 0 then 0 else epochs)
    ensures kind != SpamGCN ==>
      outcome == if epochs <= 0 then CountUnbound
                 else if |data| == 0 then ZeroDivision
                 else Finished(CeilDiv(|data|, b))
  {
    steps := [];
    if kind == SpamGCN {
      outcome := IndexError;
      return;
    }
    var last: Option<nat> := None;
    var epoch := 0;
    while epoch < epochs
      invariant 0 <= epoch <= if epochs < 0 then 0 else epochs
      invariant steps == Repeat(EpochSteps(kind, data, labels, b), epoch)
      invariant last == if epoch == 0 then None else Some(CeilDiv(|data|, b))
    {
      var count, batches := RunEpoch(kind, data, labels, b);
      steps := steps + batches;
      last := Some(count);
      epoch := epoch + 1;
    }
    assert epoch == if epochs < 0 then 0 else epochs;
    if last == None {
      outcome := CountUnbound;
    } else if last.value == 0 {
      outcome := ZeroDivision;
    } else {
      outcome := Finished(last.value);
    }
  }

  /**
   * For the variants that slice the training set directly, the k-th batch of
   * an epoch is the window as written at the k-th start index, cut from the
   * data and the labels alike; whenever b <= n that is the k-th epoch window.
   */
  lemma SlicedStepsFollowWindows<D, L>(kind: ModelKind, data: seq<D>, labels: seq<L>, b: nat)
    requires b > 0 && |data| == |labels| && kind != SemiGNN
    ensures var steps, s, ws := EpochSteps(kind, data, labels, b), Starts(|data|, b), EpochWindows(|data|, b);
      |steps| == |s| == |ws| &&
      forall k :: 0 <= k < |steps| ==>
        steps[k].Sliced? && SlicedAt(steps[k].batch, data, labels, AsWrittenWindow(s[k], b, |data|)) &&
        (b <= |data| ==> SlicedAt(steps[k].batch, data, labels, ws[k]))
  {
    var steps, s, ws := EpochSteps(kind, data, labels, b), Starts(|data|, b), EpochWindows(|data|, b);
    forall k | 0 <= k < |steps| && b <= |data| ensures AsWrittenWindow(s[k], b, |data|) == ws[k] {
      AsWrittenAgrees(data, labels, s[k], b, |data|);
    }
  }

  /**
   * Training example `i` reaches the model in the batch of some start index:
   * the k-th step of the epoch is a slice cut at the window Python's slicing
   * takes for the k-th start index, and that window holds position `i`.
   */
  ghost predicate TrainsAt<D, L>(steps: seq<Step<D, L>>, s: seq<nat>, data: seq<D>, labels: seq<L>, b: nat, i: int)
  {
    exists k :: 0 <= k < |steps| && k < |s| && steps[k].Sliced? &&
      SlicedAt(steps[k].batch, data, labels, AsWrittenWindow(s[k], b, |data|)) &&
      Covers(AsWrittenWindow(s[k], b, |data|), i)
  }

  /**
   * For the variants that slice the training set directly and a batch size
   * the training set can fill, every training example, at its own position,
   * reaches the model with its own label in some batch of every epoch.
   */
  lemma EpochTrainsEveryExample<D, L>(kind: ModelKind, data: seq<D>, labels: seq<L>, b: nat)
    requires 0 < b <= |data| && |data| == |labels| && kind != SemiGNN
    ensures forall i :: 0 <= i < |data| ==>
      TrainsAt(EpochSteps(kind, data, labels, b), Starts(|data|, b), data, labels, b, i)
  {
    var n := |data|;
    var steps, s, ws := EpochSteps(kind, data, labels, b), Starts(n, b), EpochWindows(n, b);
    SlicedStepsFollowWindows(kind, data, labels, b);
    WindowsCover(n, b);
    forall i | 0 <= i < n ensures TrainsAt(steps, s, data, labels, b, i) {
      assert CoveredBy(ws, i);
      var k :| 0 <= k < |ws| && Covers(ws[k], i);
      AsWrittenAgrees(data, labels, s[k], b, n);
      assert AsWrittenWindow(s[k], b, n) == ws[k];
    }
  }

  /** A sliced batch whose window holds index `i` holds example `i` and its label at offset `i - lo`. */
  lemma SlicedTrains<D, L>(step: Step<D, L>, data: seq<D>, labels: seq<L>, w: Span, i: int)
    requires step.Sliced? && SlicedAt(step.batch, data, labels, w) && Covers(w, i)
    ensures 0 <= i < |data| && i < |labels|
    ensures 0 <= i - w.lo < |step.batch.data| && i - w.lo < |step.batch.labels|
    ensures step.batch.data[i - w.lo] == data[i] && step.batch.labels[i - w.lo] == labels[i]
  {
    var j := i - w.lo;
    assert step.batch.data[j] == data[w.lo + j];
  }

  /**
   * As written, when n < b < 2n no batch of an epoch holds example 0: the
   * one window is [2n - b, n), which starts above 0.
   */
  lemma OversizedEpochMissesFront<D, L>(kind: ModelKind, data: seq<D>, labels: seq<L>, b: nat)
    requires 0 < |data| < b < 2 * |data| && |data| == |labels| && kind != SemiGNN
    ensures !TrainsAt(EpochSteps(kind, data, labels, b), Starts(|data|, b), data, labels, b, 0)
  {
    var n := |data|;
    assert Range(b, n, b) == [];
    assert Starts(n, b) == [0];
    OversizedWindowAsWritten(0, b, n);
  }

  /**
   * With a batch size above n, an epoch of a slicing variant is a single
   * batch: only the last b - n examples, from index 2n - b on, when b < 2n,
   * so the examples before them never reach the model; all n examples once
   * b >= 2n.
   */
  lemma OversizedEpochAsWritten<D, L>(kind: ModelKind, data: seq<D>, labels: seq<L>, b: nat)
    requires 0 < |data| < b && |data| == |labels| && kind != SemiGNN
    ensures var n, lo := |data|, if b < 2 * |data| then 2 * |data| - b else 0;
      EpochSteps(kind, data, labels, b) == [Sliced(Batch(data[lo..n], labels[lo..n]))]
  {
    var n := |data|;
    assert Range(b, n, b) == [];
    assert Starts(n, b) == [0];
    OversizedWindowAsWritten(0, b, n);
    var st := StepAt(kind, data, labels, 0, b);
    var w := AsWrittenWindow(0, b, n);
    assert st.batch.data == data[w.lo..w.hi];
    assert st.batch.labels == labels[w.lo..w.hi];
  }
}
