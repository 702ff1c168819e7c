# Peak finding, monotonicity checks and a piecewise transform, verified

This project is a Dafny model of the numeric-array exercises in the
instructor solutions of the numpy workshop. It covers three pieces.

- **`_exercise_2a`, `_exercise_2b`, `_exercise_2c`** (`solutions_02.py`) are
  three one-line ways to ask whether an array never decreases. The first is
  `np.all(np.diff(a) >= 0)`, the second is `not np.any(np.diff(a) < 0)` and
  the third is `np.all(a[1:] >= a[:-1])`. Each is modelled as a function built
  from models of the numpy operations it uses. Each is proved to decide the
  same adjacent-pair predicate. So the three agree on every one-dimensional
  array of finite floats, with the floats modelled as real numbers. On integer,
  boolean or multi-dimensional arrays, and on Python lists, they can disagree
  (see "## Left out" and "## Findings").
- **`exercise_3`** (`solutions_02.py`) is the peak finder. It promotes a
  scalar to a vector with `np.atleast_1d`. It rejects any other rank but 1
  with a `ValueError`. It then returns
  `np.where((a[1:-1] > a[:-2]) & (a[1:-1] > a[2:]))[0] + 1`. The model proves
  four things about the result:
  - it holds exactly the strict interior local maxima;
  - it is strictly increasing, and it is the only such sequence;
  - it never holds the first or last position, or two neighbouring positions;
  - it is empty for short inputs and for constant inputs.
- **`exercise_1`** (`solutions_05.py`) is the piecewise transform. It
  allocates `out = np.empty_like(arr)` and then writes `out` in place through
  three masks in turn: `arr > 1`, `~mask & (arr > -1)` and `arr <= -1`. The
  model is a method over arrays with one write loop per mask. It is proved
  to return a fresh array of the input's length that holds
  `Transform(arr)`, element by element, in order. Each write loop also
  advances a ghost write counter in the branch that writes the cell. This
  shows that every cell is written exactly once. The natural logarithm and
  the square root are function-valued parameters. The logarithm needs to be
  defined only above 1, and the square root only on non-negative arguments.
  So the verifier checks where each is applied, not what each computes.

Module `NumPy` (`numpy.dfy`) models the numpy operations these expressions
use, over real numbers. Several of them, and three members of the other
modules, are plain definitions with no row in the table below. Where they
have `ensures` clauses, those only spell out the definition element by
element, so that proofs can use it:
- `SliceBound` and `Slice`: Python slicing with negative bounds;
- `Elementwise` and `ElementwiseScalar`: comparison against an array or a
  scalar;
- `Not` and `And`: `~` and `&` on masks;
- `Diff`: `np.diff`;
- `AddScalar`: adding a scalar to an index array;
- `Cumulate`: running sums;
- `Solutions02.ListLess`: Python's `<` on two lists, which is lexicographic. The first differing elements decide, and a proper prefix is smaller;
- `Solutions05.Piecewise`: the value one element gets, which is `ln(x) + 1` above 1, `sign(x) * sqrt(abs(x))` on `(-1, 1]` and `-(x*x)` at or below -1. This is "the piecewise value" in the rows below;
- `Solutions05.Tally`: the per-cell write count after one masked assignment.

What these operations mean is stated by the laws in the table:
- `np.diff` and running sums undo each other;
- `np.all` is `not np.any` of the complement;
- negating `x >= c` gives `x < c`;
- `np.diff(a) >= 0` is the mask `a[1:] >= a[:-1]`;
- adjacent slices join, and a negative bound counts from the end;
- adding a constant keeps an index array increasing.

`np.all` and `np.any` are reductions. `np.where` works on a one-dimensional
mask. `np.atleast_1d` works on an array given by its shape and row-major
data. Modules `Solutions02` and `Solutions05` follow the two source files.

## Model

| member | source | states |
|---|---|---|
| NumPy.CumulateDiff | instructor_solutions/solutions_02.py:49 | the first element and `np.diff(a)` give `a` back through running sums |
| NumPy.DiffCumulate | instructor_solutions/solutions_02.py:49 | `np.diff` of the running sums from any start is the sequence of steps, so the two are inverse |
| NumPy.DiffCons | instructor_solutions/solutions_02.py:49 | `np.diff` of two or more elements is the first step followed by `np.diff` of the rest |
| NumPy.All | instructor_solutions/solutions_02.py:49 | the reduction `np.all` is true exactly when every entry is true |
| NumPy.Any | instructor_solutions/solutions_02.py:57 | the reduction `np.any` is true exactly when some entry is true |
| NumPy.AllIsNoneFalse | instructor_solutions/solutions_02.py:49-57 | `np.all(m)` equals `not np.any(~m)` |
| NumPy.NotAtLeastIsBelow | instructor_solutions/solutions_02.py:49-57 | `~(x >= c)` is the mask `x < c` |
| NumPy.DiffSignIsSliceComparison | instructor_solutions/solutions_02.py:49-66 | `np.diff(a) >= 0` and `a[1:] >= a[:-1]` have the same length and are the same mask |
| NumPy.SliceSplit | instructor_solutions/solutions_02.py:92 | for bounds in order inside the array, `a[lo:mid] + a[mid:hi] == a[lo:hi]` |
| NumPy.SliceFromEnd | instructor_solutions/solutions_02.py:92 | a negative bound `-k` with `0 < k <= len(a)` names the same place as `len(a) - k`, as either bound |
| NumPy.WhereFrom | instructor_solutions/solutions_02.py:92 | the scan from position `i` reports at most as many positions as the mask has from `i` on |
| NumPy.Where | instructor_solutions/solutions_02.py:92 | `np.where(m)[0]` reports no more positions than the mask has entries |
| NumPy.WhereFromSound | instructor_solutions/solutions_02.py:92 | every position the scan from `i` reports is at least `i`, inside the mask, and holds a true entry |
| NumPy.WhereFromComplete | instructor_solutions/solutions_02.py:92 | every true entry at or after `i` is reported by the scan from `i` |
| NumPy.WhereFromIncreasing | instructor_solutions/solutions_02.py:92 | the scan from `i` reports positions in strictly increasing order |
| NumPy.WhereSound | instructor_solutions/solutions_02.py:92 | every position `np.where(m)[0]` reports holds a true entry of `m` |
| NumPy.WhereComplete | instructor_solutions/solutions_02.py:92 | every true entry of `m` is reported by `np.where(m)[0]` |
| NumPy.WhereIncreasing | instructor_solutions/solutions_02.py:92 | `np.where(m)[0]` is strictly increasing |
| NumPy.AddScalarIncreasing | instructor_solutions/solutions_02.py:92 | adding a constant to a strictly increasing index array keeps it strictly increasing |
| NumPy.WhereShiftedAt | instructor_solutions/solutions_02.py:92 | entry `j` of `np.where(m)[0] + c` is a position `i >= c` with `m[i - c]` true |
| NumPy.WhereShifted | instructor_solutions/solutions_02.py:92 | `i` is in `np.where(m)[0] + c` iff `i - c` is a position of `m` (so `i >= c`) whose entry is true |
| NumPy.WhereShiftedIncreasing | instructor_solutions/solutions_02.py:92 | `np.where(m)[0] + c` is strictly increasing |
| NumPy.AtLeast1d | instructor_solutions/solutions_02.py:86 | a scalar becomes the one-element vector of shape `[1]`; an array of rank 1 or more is unchanged |
| Solutions02.Exercise2a | instructor_solutions/solutions_02.py:45-49 | `np.all(np.diff(a) >= 0)` is true iff every adjacent pair satisfies `a[i] <= a[i+1]` |
| Solutions02.Exercise2b | instructor_solutions/solutions_02.py:52-57 | `not np.any(np.diff(a) < 0)` is true iff every adjacent pair satisfies `a[i] <= a[i+1]` |
| Solutions02.Exercise2c | instructor_solutions/solutions_02.py:60-66 | `np.all(a[1:] >= a[:-1])` is true iff every adjacent pair satisfies `a[i] <= a[i+1]`, with equal neighbours allowed |
| Solutions02.MonotoneChecksAgree | instructor_solutions/solutions_02.py:45-66 | the three formulations return the same boolean on every input |
| Solutions02.ShortIsMonotone | instructor_solutions/solutions_02.py:66 | empty and one-element inputs pass all three checks |
| Solutions02.NonDecreasingIffSorted | instructor_solutions/solutions_02.py:30-32 | passing the adjacent-pair test is equivalent to every element being at most every later one, the "monotonically increasing" the exercise asks about |
| Solutions02.NonDecreasingSpan | instructor_solutions/solutions_02.py:30-32 | in a sequence passing the adjacent-pair test, an element is at most any later element |
| Solutions02.MonotoneExamples | instructor_solutions/solutions_02.py:60-66 | `[1,2,3]` passes, `[3,2,1]` fails, `[1,1,1]` passes |
| Solutions02.Exercise2cOnList | instructor_solutions/solutions_02.py:35-36 | `_exercise_2c` on a Python list compares the two slices as lists, lexicographically; a non-decreasing list still passes |
| Solutions02.PairwiseAtLeastNotBelow | instructor_solutions/solutions_02.py:66 | two equal-length lists with each element of the first at least the matching one of the second are not lexicographically smaller |
| Solutions02.ListInputAccepted | instructor_solutions/solutions_02.py:35-36 | the list `[1, 3, 2]` is not non-decreasing and the array check rejects it, yet the list check accepts it |
| Solutions02.InteriorSlices | instructor_solutions/solutions_02.py:92 | `a[1:-1]`, `a[:-2]` and `a[2:]` all have length `max(n-2, 0)`, and their `k`-th elements are `a[k+1]`, `a[k]` and `a[k+2]` |
| Solutions02.PeakMask | instructor_solutions/solutions_02.py:92 | entry `k` of the mask is true iff position `k+1` is strictly above both its neighbours |
| Solutions02.FindPeaks | instructor_solutions/solutions_02.py:92 | the result has at most one position per interior element (so none for fewer than three elements); its meaning is stated by PeaksExact, PeaksIncreasing and PeaksUnique |
| Solutions02.PeaksAreInterior | instructor_solutions/solutions_02.py:92 | every reported position lies in `[1, n-2]`, so the first and last positions are never reported |
| Solutions02.PeaksExact | instructor_solutions/solutions_02.py:92 | a position is reported iff it is interior and strictly above both neighbours (soundness and completeness) |
| Solutions02.PeaksIncreasing | instructor_solutions/solutions_02.py:92 | the reported positions are strictly increasing |
| Solutions02.PeaksApart | instructor_solutions/solutions_02.py:92 | in any increasing list of strict peaks, consecutive entries are at least two apart |
| Solutions02.PeaksNotAdjacent | instructor_solutions/solutions_02.py:92 | two consecutive reported positions are at least two apart: no two neighbours are both peaks |
| Solutions02.PeaksUnique | instructor_solutions/solutions_02.py:92 | the result is the only strictly increasing sequence whose elements are exactly the strict interior maxima |
| Solutions02.IncreasingUnique | instructor_solutions/solutions_02.py:92 | two strictly increasing sequences with the same elements are equal |
| Solutions02.ShortHasNoPeaks | instructor_solutions/solutions_02.py:92 | fewer than three elements give an empty result |
| Solutions02.PlateauHasNoPeak | instructor_solutions/solutions_02.py:92 | two equal neighbours are never reported |
| Solutions02.ConstantHasNoPeaks | instructor_solutions/solutions_02.py:92 | a constant sequence gives an empty result |
| Solutions02.PeakExamples | instructor_solutions/solutions_02.py:92 | `[0,3,1,5,1,0]` gives `[1,3]` and `[1,1,1]` gives `[]` |
| Solutions02.Exercise3 | instructor_solutions/solutions_02.py:85-92 | rank 2 or more gives `ValueError("Input array must be 1-dimensional.")`; otherwise the result has exactly the strict interior maxima, strictly increasing; a scalar gives `[]` |
| Solutions05.Abs | instructor_solutions/solutions_05.py:14 | `np.abs` is non-negative and is `x` or `-x` |
| Solutions05.Sign | instructor_solutions/solutions_05.py:14 | `np.sign` is -1, 0 or 1, is 0 exactly at 0, and is positive exactly for positive input |
| Solutions05.Transform | instructor_solutions/solutions_05.py:6 | the output has the input's length |
| Solutions05.TransformAt | instructor_solutions/solutions_05.py:6-18 | output element `k` is the piecewise value of input element `k` alone |
| Solutions05.TransformAppend | instructor_solutions/solutions_05.py:6-18 | the transform keeps order: the transform of `s + t` is the transform of `s` followed by that of `t` |
| Solutions05.MasksPartition | instructor_solutions/solutions_05.py:8-16 | the masks `x > 1`, `~(x > 1) & (x > -1)` and `x <= -1` have the input's length and each position is in exactly one of them |
| Solutions05.NegativeBranch | instructor_solutions/solutions_05.py:16-18 | at or below -1 the value is exactly `-(x*x)`, and that is at most -1 |
| Solutions05.ZeroMapsToZero | instructor_solutions/solutions_05.py:12-14 | 0 is mapped to 0, because `sign(0) == 0`, whatever the square root returns |
| Solutions05.PiecewiseKeepsRanges | instructor_solutions/solutions_05.py:8-18 | with a logarithm positive above 1 and a square root that keeps `(0, 1]` inside itself (strictly below 1 for arguments below 1), each formula maps its range into itself: the result is above 1 iff `x` is, at most -1 iff `x` is, and has the sign of `x` |
| Solutions05.TransformKeepsMasks | instructor_solutions/solutions_05.py:8-18 | under the same conditions, the masks `x > 1` and `x <= -1` select the same positions in the output as in the input |
| Solutions05.WrittenOnce | instructor_solutions/solutions_05.py:8-18 | starting from zero writes, the three masked assignments leave exactly one write in every cell |
| Solutions05.AssignLog | instructor_solutions/solutions_05.py:8-10 | `out[mask] = log(arr[mask]) + 1` gives each selected cell its piecewise value and leaves the others unchanged; the logarithm is called only on values above 1; the write counter gains one for each selected cell and nothing for the others |
| Solutions05.AssignSignedRoot | instructor_solutions/solutions_05.py:12-14 | `out[mask] = sign * sqrt(abs)` gives each selected cell in `(-1, 1]` its piecewise value and leaves the others unchanged; the square root is called only on non-negative values; the write counter gains one for each selected cell |
| Solutions05.AssignNegSquare | instructor_solutions/solutions_05.py:16-18 | `out[mask] = -arr[mask]**2` gives each selected cell at or below -1 its piecewise value and leaves the others unchanged; the write counter gains one for each selected cell |
| Solutions05.Assemble | instructor_solutions/solutions_05.py:8-18 | once every cell that one of the three masks selects holds its piecewise value, the output is the transform of the input |
| Solutions05.TransformExample | instructor_solutions/solutions_05.py:4-19 | `[2, 0.5, -2]` becomes `[ln(2) + 1, sqrt(0.5), -4]` |
| Solutions05.Exercise1 | instructor_solutions/solutions_05.py:4-19 | the result is a fresh array of the input's length equal to the transform of the input; the write counter, advanced only where a cell is written, ends at exactly one for every cell; the logarithm is applied only above 1 and the square root only to non-negative values |

## Left out

- Floating point: elements are modelled as `real`. NaN, infinities and rounding are not modelled. A NaN would be in none of the three masks of `exercise_1` and would leave its cell of `out` unwritten.
- Solutions05.Exercise1: the values of `np.log` and `np.sqrt` are not modelled. They are parameters of the method, so its contract says where they are applied and not what they return.
- Solutions05.Exercise1: the model works on a flat sequence. The source handles any shape, elementwise, so the shape does not affect any value.
- Solutions05.Exercise1: the element type is `real`. `np.empty_like` keeps an integer input's dtype, so for integer input numpy would truncate the float results when storing them. The model does not cover that case.
- Solutions05.Exercise1: numpy evaluates `np.log(arr[mask])` on the compressed array and then scatters the results back. The model writes the same values one position at a time. Because the transform works element by element, the final contents are the same.
- Solutions02.Exercise3: the branch that builds a seeded random array when no array is given (`solutions_02.py:82-84`) is not modelled, since it needs randomness. The optional plotting block (`solutions_02.py:94-115`) is not modelled either, since it is I/O through matplotlib.
- Solutions02.Exercise3: the rank check is an `assert` caught and re-raised as `ValueError` (`solutions_02.py:87-90`). Under `python -O` the assert is removed, and a two-dimensional input raises no `ValueError`. The model has the assert always active.
- Solutions02.MonotoneChecksAgree: the agreement is proved for one-dimensional arrays of finite floats, modelled as real sequences. It does not hold for other inputs, which the model does not cover:
  - unsigned integers: `np.diff` wraps, so the uint8 array `[5, 3]` passes `_exercise_2a` and `_exercise_2b` but fails `_exercise_2c`;
  - signed integers: `np.diff` can overflow, so the int64 array `[-2**63, 2**63 - 1]` fails `_exercise_2a` but passes `_exercise_2c`;
  - booleans: `np.diff` on booleans is `!=`;
  - multi-dimensional arrays: `np.diff` works along the last axis while `a[1:]` works along the first;
  - NaN: for `[nan, 1.0]`, `np.diff` is `[nan]`, so `_exercise_2a` and `_exercise_2c` return False while `_exercise_2b` returns True;
  - repeated infinities: for `[inf, inf]`, `inf - inf` is NaN, so `_exercise_2a` returns False while `_exercise_2b` and `_exercise_2c` return True;
  - Python lists: see "## Findings".
- Solutions02.Exercise3: the input is an array given by its shape and its elements. How Python objects such as nested lists are converted to arrays is not modelled.
- The `exercise_2` wrapper (`solutions_02.py:29-36`) is not modelled: it only calls `_exercise_2c` or builds a random array. Its `array or ...` test would raise on an array with more than one element. An empty list, or a one-element array holding 0, is false there, so it is replaced by a random array. `exercise_2([])` then almost surely returns False, although `_exercise_2c([])` returns True. It passes a non-empty Python list through unchanged, which "## Findings" records.
- `exercise_1` of `solutions_02.py` and all of `solutions_01.py` are not modelled. They check random float matrices and memory sharing between views, which are floating-point and memory-layout concerns.
- The pairwise-distance routines `exercise_2` and `_exercise_2a` to `_exercise_2e` of `solutions_05.py` are not modelled. They are floating-point `sqrt`, `np.linalg.norm` and `einsum` variants kept for benchmarking.

## Findings

| source | as written | input that shows it | evidently intended | confidence | as-written member | corrected member |
|---|---|---|---|---|---|---|
| instructor_solutions/solutions_02.py:35-36, instructor_solutions/solutions_02.py:66 | `exercise_2` hands a non-empty Python list to `_exercise_2c` unchanged, so `array[1:] >= array[:-1]` is one lexicographic list comparison | `exercise_2([1, 3, 2])`: `[3, 2] >= [1, 3]` holds because `3 > 1`, so the list is reported as monotone (Solutions02.ListInputAccepted) | convert the input to an array first, so the comparison is elementwise and `[1, 3, 2]` is rejected | high; not executed | Solutions02.Exercise2cOnList | Solutions02.Exercise2c |
