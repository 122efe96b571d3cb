# Batch windows of the DGFraud training driver

This project models the batching rule of the DGFraud training driver (`main.py`) and proves properties about it. The driver trains graph-neural-network fraud detectors (Player2vec, FdGars, SpamGCN, SemiGNN) in epochs. Each epoch works through the training set in batches of size `b`.

- `get_data(ix, b, n)` turns a batch start index into a contiguous window of the training data. The training labels are sliced with the same bounds. Normally the window is `[ix, ix + b)`. If that would run past the end of the `n` training examples and `b <= n`, the window is right-aligned to `[n - b, n)`. It is not shortened or dropped. When `n < b < 2n` the start `n - b` is negative, and Python's slicing keeps only the last `b - n` examples, from index `2n - b` on (see Findings).
- One epoch is the loop `for index in range(0, n, b)`. It builds one batch per start index and counts the batches in `count`. The SemiGNN variant hands the index to the negative-sampling batch builder. The other variants call `get_data`.
- After the last epoch, the loss and accuracy sums are divided by `count`.

Modules, one per concern:

- `PythonSlice` (`python_slice.dfy`): Python's slicing `s[lo:hi]`. Negative bounds count from the end, and both bounds are clamped to the sequence.
- `Batching` (`get_data.dfy`): the batch window. It holds `get_data` as written (`GetDataAsWritten`), which the training loop uses. It also holds the rule with the start clamped at 0 (`Window`, `GetData`), which the epoch-window lemmas use. `AsWrittenAgrees` proves that the two are identical whenever `b <= n`. `OversizedWindowAsWritten` gives the window as written for every `b > n`.
- `Schedule` (`batch_schedule.dfy`): `range(0, n, b)` and the batch count `ceil(n / b)`.
- `Epoch` (`epoch_windows.dfy`): the windows of one epoch under the clamped rule. These are the program's own windows whenever `b <= n`, by `AsWrittenAgrees`. It proves that they cover the training set, that they partition it when `b` divides `n`, and that otherwise only the final window overlaps its predecessor, by how much.
- `Training` (`train_loop.dfy`): the inner and outer loops as methods. Their results are tied to the schedule functions. Each batch is the program's own `get_data` slice, as written.

The training data and the labels are module globals in the source. Here they are passed in as two sequences of equal length. The training-set size `n` is their length.

The division and the report (`main.py:166-168`) sit after the epoch loop, so they use the `count` of the last epoch only. `Training.Train` models it that way.

## Model

| member | source | states |
|---|---|---|
| PythonSlice.Bound | main.py:70 | Python's normalisation of one slice bound. A bound inside `[0, len]` is kept. A negative bound counts from the end, and falls to 0 if it is still negative. A bound past the end becomes `len` |
| PythonSlice.Effective | main.py:70 | The index range Python takes for `s[lo:hi]`: it lies inside `[0, len]` and starts at the normalised `lo`. It ends at the normalised `hi`, or is empty when that is not above the start. In-range bounds are taken as they are |
| PythonSlice.Slice | main.py:70 | Python's slice of a sequence: never longer than the sequence, and exactly `s[lo..hi]` whenever `0 <= lo <= hi <= len(s)` |
| Batching.Window | main.py:64-69 | The window lies inside `[0, n)`. When `ix + b <= n` it is exactly `[ix, ix + b)`, so at the boundary `ix + b == n` the clamped branch gives the same window as the unclamped one. When `ix + b >= n` it ends at `n` and holds `min(b, n)` examples |
| Batching.GetData | main.py:64-70 | The data part and the label part are cut with the same window: they have equal length and agree with the inputs position by position. The batch holds exactly `b` examples whenever `b <= n` |
| Batching.RawBounds | main.py:65-69 | The start and end `get_data` computes before slicing. Both branches span exactly `b` indices, and the end is `min(ix + b, n)` |
| Batching.AsWrittenWindow | main.py:65-70 | The index range Python's slicing takes from those bounds always lies inside `[0, n)`. It is characterised by `AsWrittenAgrees` for `b <= n` and by `OversizedWindowAsWritten` for `b > n` |
| Batching.GetDataAsWritten | main.py:64-70 | `get_data` as written, with Python slicing of the start `n - b`. Data and labels use the same effective window and align position by position. A batch holds `b` examples when `0 <= b <= n` |
| Batching.AsWrittenAgrees | main.py:65-70 | For every batch size with `b <= n`, the code as written and the clamped rule give the same window and the same batch |
| Batching.OversizedWindowAsWritten | main.py:65-70 | For every `b > n` and every start index, the window as written is `[2n - b, n)` when `b < 2n` and `[0, n)` once `b >= 2n`. The clamped rule gives `[0, n)` |
| Schedule.CeilDiv | main.py:136-137 | The batch count `c` is `ceil(n / b)`: `c * b >= n > c * b - b`, and `c == 0` exactly when `n == 0` |
| Schedule.Range | main.py:137 | `range(start, stop, step)` has `ceil((stop - start) / step)` indices (none when `start >= stop`), all in `[start, stop)` |
| Schedule.RangeConsecutive | main.py:137 | Consecutive indices of the range differ by exactly one step |
| Schedule.RangeAt | main.py:137 | The k-th index of the range is `start + k * step` |
| Schedule.RangeSpread | main.py:137 | Any earlier index of the range is at least one step below any later one |
| Schedule.Starts | main.py:137 | The start indices of one epoch, `range(0, n, b)`: `ceil(n / b)` of them, all below `n` |
| Schedule.StartsShape | main.py:137 | One epoch visits `ceil(n / b)` start indices. The k-th one is `k * b` and is strictly below `n`. The last one is within `b` of `n` |
| Schedule.LastStart | main.py:137 | The last start index is `n - n mod b` when `b` does not divide `n`, and `n - b` when it does |
| Epoch.WindowsFrom | main.py:137-155 | There is one window per start index of the range, and each is the window at that index under the clamped rule. That is the program's own window whenever `b <= n`, by `AsWrittenAgrees` |
| Epoch.WindowsCover | main.py:137-155 | Under the clamped rule, for every positive batch size, every index `0..n-1` is inside some window of the epoch. Those are the program's own windows whenever `b <= n`, by `AsWrittenAgrees` |
| Epoch.WindowsShape | main.py:65-69 | Every window but the last is the full `[s, s + b)` at its start `s` and ends where the next one starts. The last window ends at `n`, and it is `[n - b, n)` when `b <= n` |
| Epoch.DivisibleWindowsFull | main.py:65-69 | When `n mod b == 0`, every window of the epoch, the clamped final one included, is the full `[s, s + b)` at its start `s` |
| Epoch.PartitionWhenDivisible | main.py:137-155 | When `n mod b == 0`, every window has `b` examples, earlier windows lie wholly before later ones, and every index is in exactly one window |
| Epoch.FinalOverlap | main.py:65-67 | When `b <= n` and `n mod b = r != 0`, the final window is `[n - b, n)`. The one before it is `[n - r - b, n - r)`, so they overlap by `b - r` examples. No other pair overlaps: of two non-final windows, the earlier ends at or before the later one starts, and every window before the second-to-last ends at or before the final one starts |
| Epoch.SmallEpoch | main.py:137 | With `n = 5` and `b = 2`, the start indices are `0, 2, 4` and the windows are `[0,2), [2,4), [3,5)` |
| Epoch.OversizedBatchAsWritten | main.py:65-66 | As written, when `n < b < 2n` the only start index is 0 and its window is `[2n - b, n)`, which leaves out examples `0..2n-b-1`. The clamped rule gives `[0, n)` |
| Epoch.OversizedBatchExample | main.py:64-70 | With 5 examples and batch size 7, `get_data` as written returns only the last two examples and their labels. The clamped rule returns all five |
| Training.Repeat | main.py:133 | Repeating an epoch's batches `m` times gives `m` times as many batches, the k-th being batch `k mod len` of the epoch |
| Training.StepAt | main.py:138-155 | The batch built at one start index. For SemiGNN it is the index and size handed to the negative-sampling builder. For every other variant it is `get_data` as written: data and labels cut at the same window Python's slicing takes |
| Training.EpochSteps | main.py:137-155 | One epoch builds `ceil(n / b)` batches, and the k-th is the batch `StepAt` builds at the k-th start index |
| Training.StepsFromRange | main.py:137-155 | Advancing the index by `b` from `index` until it reaches `n`, one batch per index, builds the batches of `range(index, n, b)` in order |
| Training.StepsFromStart | main.py:137-155 | Starting that stepping at index 0 builds exactly the epoch's batches |
| Training.RunEpoch | main.py:136-164 | After the inner loop, `count` is `ceil(n / b)`. The batches handed on are those of `range(0, n, b)` in order, each built by `StepAt` |
| Training.Train | main.py:118-167 | SpamGCN fails with an index error before any epoch, because its constructor reads `paras[4]` from the four-entry `dblp` parameter list built at `main.py:81`. For the other variants the epochs run one after another, each yielding the same batches. With no epoch, `count` is never assigned. With an empty training set, the final division is by zero. Otherwise the divisor is the last epoch's `count`, `ceil(n / b)` |
| Training.SlicedStepsFollowWindows | main.py:138-158 | For the slicing variants, the k-th batch of an epoch is the window as written at the k-th start index, for both the data and the labels. Whenever `b <= n`, that is the k-th epoch window |
| Training.SlicedTrains | main.py:155-158 | A sliced batch whose window `[lo, hi)` holds index `i` has example `i` and its own label at offset `i - lo` |
| Training.EpochTrainsEveryExample | main.py:137-158 | For the slicing variants and `0 < b <= n`, every position `i` of the training set is inside the window, as written, of some start index of the epoch, and the batch built at that index is the data and label slice of that window |
| Training.OversizedEpochMissesFront | main.py:137-158 | For the slicing variants and `n < b < 2n`, no batch of an epoch holds position 0 of the training set |
| Training.OversizedEpochAsWritten | main.py:137-155 | For the slicing variants and `0 < n < b`, an epoch is a single batch. When `b < 2n` it holds only examples `2n - b .. n-1` and their labels. Once `b >= 2n` it holds all `n` examples |

## Left out

- The TensorFlow session, the model construction and the `net.train` / `net.test` calls (`main.py:103-129`, `150-158`, `176-185`) are calls into a foreign library with learned parameters. The model records what the loop hands to `net.train` as a `Step`.
- The loss and accuracy sums and their averages (`main.py:162-163`, `166-168`) are floating point. Only the integer `count` is modelled, together with the division by zero it causes when it is 0.
- `arg_parser` and `set_env` (`main.py:23-60`) do command-line parsing and random-seed setup.
- `load_data` (`main.py:73-99`) wraps dataset loaders that are not part of this model. The loop bound and `get_data`'s size are both `paras[3]`. With the `dblp` layout that is `len(train_data)`, which is what the model uses. With the `example` layout, `paras[3]` is a feature width (`node_embedding_i`), and the `yelp` name leaves `paras` unassigned. Neither case is modelled.
- `normalize_adj`, `matrix_to_adjlist`, `random_walk_sampling`, `pairs_to_matrix` and `get_batch_negative_sampling` (called at `main.py:107`, `112`, `123`, `125`, `139`, `143`) are defined in `utils/utils.py`, which is not part of this model. For SemiGNN, a batch is recorded only as the index and size passed to the builder. The per-relation calls at `main.py:142-146` are collapsed into one step.
- Timing (`time.clock`) and printing (`main.py:132`, `160-161`, `168`, `172-174`, `187`) are I/O.
- Training.RunEpoch: requires a positive batch size. `range` with step 0 raises `ValueError`, and a negative step gives an empty loop whose division by zero then fails. Neither path is modelled.
- Training.Train: requires a positive batch size, for the same reason as RunEpoch.
- Training.Train: of model construction, only the SpamGCN constructor's read of `paras[4]` (`main.py:118`) is modelled. It fails with the four-entry `dblp` parameter list, so `Train` returns `IndexError` with no batches. The other constructors are assumed to succeed. `EpochSteps`, `RunEpoch` and the slicing lemmas still describe a SpamGCN epoch, which the program reaches only with the `example` layout, and that layout is not modelled (see `load_data`).
- Training.EpochTrainsEveryExample: requires `b <= n`, because for `n < b < 2n` the program itself leaves examples out (see Findings and `Training.OversizedEpochAsWritten`). Coverage for every positive batch size is proved only for the clamped rule, by `Epoch.WindowsCover`.
- Batching.GetData: takes the start index as a natural number. The loop only ever passes non-negative indices.
- Python integers are unbounded, like Dafny's, so nothing in this code can wrap around.

## Findings

| source | as written | input that shows it | evidently intended | confidence | as-written member | corrected member |
|---|---|---|---|---|---|---|
| main.py:65-66 | When the window would pass the end, the start becomes `train_size - int_batch`. That is negative when the batch size exceeds the training set, and Python's slicing then counts it from the end | `train_size = 5`, `batch_size = 7`: the only batch is `get_data(0, 7, 5)`, which returns `train_data[-2:5]`, the last two examples. Examples 0, 1 and 2 never reach the model in any epoch | The start is clamped at 0, so the batch is the whole training set and every example is trained on | medium, not executed | Batching.GetDataAsWritten (exhibited by Epoch.OversizedBatchAsWritten, Epoch.OversizedBatchExample, Training.OversizedEpochAsWritten and Training.OversizedEpochMissesFront) | Batching.GetData (coverage for every positive batch size proved by Epoch.WindowsCover) |
