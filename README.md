# Sampled function of Wilee, in Dafny

This project models `SampledFn`, the 1-dimensional sampled function of the
Wilee scientific computing library (`wilee_core/src/sampled_fn.rs`). A sampled
function holds two parallel vectors: `args`, the x-axis values of the samples,
and `values`, the function values. It has two operations:

- `new(args, values)` takes ownership of both vectors, pairs them up into
  coordinates, sorts the coordinates by x-axis value and splits them back into
  the two fields (`sort_according_to_args`);
- `search_interval(x)` returns the index `i` of the sampling interval
  `[args[i], args[i + 1]]` holding `x`: `i + 1` is the first sample whose x-axis
  value exceeds `x`. There is no answer when no sample exceeds `x` (including
  the empty function and a query equal to the largest sample), or when the
  very first sample already exceeds `x`.

Everything is in one module, `SampledFunction` (`sampled_fn.dfy`):

- `Coordinate` is one (x, y) sample; `Zip`, `ArgsOf` and `ValuesOf` model
  `zip`/`collect` and `unzip`.
- `SortByArg` is the specification of the sort: a stable insertion sort on a
  sequence of coordinates. `SortByArgInPlace` sorts an `array` in place and is
  proved to compute exactly `SortByArg`. Lemmas prove that the result is
  sorted by x-axis value, is a rearrangement of the input (each value stays
  attached to its own x-axis value) and is stable. `StableSortIsSortByArg`
  proves that these three properties determine the result uniquely. So any
  stable sort gives the same sequence, including Rust's `sort_by`, which the
  Rust standard library documents as stable.
- `SampledFn` is a class with the two fields as sequences. Its constructor and
  `SortAccordingToArgs` change them in place. `SearchInterval` is a function
  that reads the object and changes nothing, so it is read-only and
  deterministic by construction. It is built on `Position`, the model of
  `Iterator::position`.

The scalar type `T: PartialOrd + Copy` is modelled by `real`. Its order is
total, so the sort comparator never meets an incomparable pair. Indices
(`usize`) are `nat`.

Two behaviours of the code worth noting:

- Inputs of different lengths are not an error: `zip` stops at the shorter
  vector, so the extra elements of the longer one are dropped and both fields
  end with the shorter length.
- The sort used, `sort_by`, is stable, so coordinates with equal x-axis values
  keep their input order. The model proves this instead of leaving it open.

## Model

| member | source | states |
|---|---|---|
| `SampledFunction.Zip` | wilee_core/src/sampled_fn.rs:35 | the coordinate list has the length of the shorter input, and its entry `i` pairs `args[i]` with `values[i]` |
| `SampledFunction.ArgsOf` | wilee_core/src/sampled_fn.rs:41 | the first half of `unzip`: same length as the coordinates, and entry `i` is the x-axis value of coordinate `i`; with `Zip` it round-trips (`UnzipZip`, `ZipUnzip`) |
| `SampledFunction.ValuesOf` | wilee_core/src/sampled_fn.rs:41 | the second half of `unzip`: same length as the coordinates, and entry `i` is the function value of coordinate `i`; with `Zip` it round-trips (`UnzipZip`, `ZipUnzip`) |
| `SampledFunction.UnzipZip` | wilee_core/src/sampled_fn.rs:35-41 | unzipping the zipped vectors gives back both inputs, cut to the shorter length |
| `SampledFunction.ZipUnzip` | wilee_core/src/sampled_fn.rs:35-41 | zipping the two unzipped halves gives back the coordinate list unchanged |
| `SampledFunction.SortByArg` | wilee_core/src/sampled_fn.rs:37-39 | sorting keeps the number of coordinates |
| `SampledFunction.SortByArgOfSorted` | wilee_core/src/sampled_fn.rs:37-39 | coordinates already in non-decreasing order of x-axis value are left unchanged by the sort |
| `SampledFunction.SortByArgSorted` | wilee_core/src/sampled_fn.rs:37-39 | the sorted coordinates are in non-decreasing order of x-axis value |
| `SampledFunction.SortByArgPermutation` | wilee_core/src/sampled_fn.rs:35-41 | the sorted coordinates are a rearrangement of the input: same multiset of (x, y) pairs |
| `SampledFunction.SortByArgStable` | wilee_core/src/sampled_fn.rs:37-39 | for every x-axis value, the coordinates that share it keep their input order |
| `SampledFunction.StableSortIsSortByArg` | wilee_core/src/sampled_fn.rs:37-39 | any rearrangement of the input that is sorted by x-axis value and keeps equal x-axis values in input order equals the modelled sort |
| `SampledFunction.SortByArgArgsUnique` | wilee_core/src/sampled_fn.rs:34-48 | building from any rearrangement of the same coordinates gives the same sorted x-axis values |
| `SampledFunction.SortByArgInPlace` | wilee_core/src/sampled_fn.rs:37-39 | sorting the array of coordinates in place leaves it equal to the sort of its old contents |
| `SampledFunction.Position` | wilee_core/src/sampled_fn.rs:56 | the result is the first index whose element satisfies the predicate, or none when no element does |
| `SampledFunction.SampledFn.SortAccordingToArgs` | wilee_core/src/sampled_fn.rs:32-42 | the fields become the unzipped halves of the sorted zip of their old values; afterwards they have equal lengths and `args` is sorted |
| `SampledFunction.SampledFn.constructor` | wilee_core/src/sampled_fn.rs:44-51 | after construction `args` is sorted, both fields have length min(len(args), len(values)), the (x, y) pairs are the zipped input pairs rearranged, and equal x-axis values keep their input order |
| `SampledFunction.SampledFn.SearchInterval` | wilee_core/src/sampled_fn.rs:53-68 | an answer `i` has `i + 1 < len(args)`, `x < args[i + 1]` and every arg up to `i` at most `x`; no answer exactly when no arg exceeds `x` or the first arg already does |
| `SampledFunction.SearchIntervalBrackets` | wilee_core/src/sampled_fn.rs:53-61 | on sorted samples the answer is `i` exactly when `args[i] <= x < args[i + 1]` |
| `SampledFunction.SearchIntervalNone` | wilee_core/src/sampled_fn.rs:55-66 | on sorted samples there is no answer exactly when the function is empty, `x` is left of the first sample, or `x` is at or right of the last one |
| `SampledFunction.SearchIntervalAtSample` | wilee_core/src/sampled_fn.rs:55-66 | a query equal to an interior sample that is strictly below the next one resolves to the interval starting at that sample; a query equal to the last sample has no answer |
| `SampledFunction.SortExample` | wilee_core/src/sampled_fn.rs:77-89 | sorting the pairs of `[0, 2, 1]` and `[0, 4, 1]` gives args `[0, 1, 2]` and values `[0, 1, 4]` |
| `SampledFunction.ConstructorExample` | wilee_core/src/sampled_fn.rs:76-100 | `new([0, 2, 1], [0, 4, 1])` has args `[0, 1, 2]` and values `[0, 1, 4]`, and the queries -0.75 and 2.98 have no answer |
| `SampledFunction.SearchIntervalOutsideExamples` | wilee_core/src/sampled_fn.rs:91-100 | on samples at 0, 1 and 2 the queries -0.75 and 2.98 have no answer |
| `SampledFunction.SearchIntervalExamples` | wilee_core/src/sampled_fn.rs:109-122 | on samples at 0, 1, 2 and 3 the queries 0.65, 1.54 and 2.75 give 0, 1 and 2 |
| `SampledFunction.SortedExample` | wilee_core/src/sampled_fn.rs:104-107 | building from the already sorted args `[0, 1, 2, 3]` and values `[0, 1, 4, 9]` keeps both unchanged |
| `SampledFunction.SearchIntervalTestExample` | wilee_core/src/sampled_fn.rs:102-123 | `new([0, 1, 2, 3], [0, 1, 4, 9])` keeps its samples in place, and the queries 0.65, 1.54 and 2.75 give 0, 1 and 2 |

## Left out

- Incomparable scalars: `partial_cmp(..).unwrap()` panics on a NaN. The model's `real` is totally ordered, so that panic cannot occur.
- Floating-point arithmetic: the sampled function only compares scalars, and comparisons of `real` stand for those of `f32`/`f64` on non-NaN values.
- The sorting algorithm itself: Rust's `sort_by` runs a different (merge-based) stable algorithm. `StableSortIsSortByArg` shows that every stable sort gives the same result, so only the order of comparisons and the use of scratch memory are not modelled.
- The `#[derive(Default)]` empty instance: it is never built by the code modelled here. `SearchInterval` returns no answer on empty samples, and `SearchIntervalNone` covers that case.
- Ownership and moves of the `Vec`s, and the borrowed `(&T, &T)` pairs that `sort_according_to_args` builds: the model copies values.
- Approximate float comparison (`wilee_core/src/cmp_approx.rs`): it is only used by the tests to compare results. The examples here compare exactly.
- The 2-dimensional point (`wilee_core/src/point2.rs`): it is not used by the sampled function.
