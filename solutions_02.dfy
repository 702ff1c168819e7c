/** The monotonicity checks and the peak finder of the second set of
    solutions. Both are single vectorised expressions, so both are functions
    built from the numpy operations of module NumPy. */
module Solutions02 {
  import opened NumPy

  // ---------------------------------------------------------------------
  // Monotonicity: three formulations of "no element is below its predecessor"
  // ---------------------------------------------------------------------

  /** The property all three checks decide: every adjacent pair is in
      non-decreasing order (equal neighbours are allowed). */
  ghost predicate NonDecreasing(a: seq<real>)
  {
    forall i :: 0 <= i < |a| - 1 ==> a[i] <= a[i + 1]
  }

  /** The ordering a reader means by "monotonically increasing": every
      element is at most every later element. */
  ghost predicate Sorted(a: seq<real>)
  {
    forall i, j :: 0 <= i <= j < |a| ==> a[i] <= a[j]
  }

  /** `np.all(np.diff(array) >= 0)` */
  function Exercise2a(a: seq<real>): (b: bool)
    ensures b <==> NonDecreasing(a)
  {
    All(ElementwiseScalar(GreaterEqual, Diff(a), 0.0))
  }

  /** `not np.any(np.diff(array) < 0)` */
  function Exercise2b(a: seq<real>): (b: bool)
    ensures b <==> NonDecreasing(a)
  {
    !Any(ElementwiseScalar(Less, Diff(a), 0.0))
  }

  /** `np.all(array[1:] >= array[:-1])` */
  function Exercise2c(a: seq<real>): (b: bool)
    ensures b <==> NonDecreasing(a)
  {
    All(Elementwise(GreaterEqual, Slice(a, 1, |a|), Slice(a, 0, -1)))
  }

  /** The three formulations give the same answer on every input: 2a and 2b
      by the duality of `np.all` and `np.any`, 2a and 2c because
      `np.diff(a) >= 0` and `a[1:] >= a[:-1]` are the same mask. */
  lemma MonotoneChecksAgree(a: seq<real>)
    ensures Exercise2a(a) == Exercise2b(a) == Exercise2c(a)
  {
    var d := Diff(a);
    AllIsNoneFalse(ElementwiseScalar(GreaterEqual, d, 0.0));
    NotAtLeastIsBelow(d, 0.0);
    DiffSignIsSliceComparison(a);
  }

  /** Inputs with fewer than two elements are always monotone. */
  lemma ShortIsMonotone(a: seq<real>)
    requires |a| <= 1
    ensures Exercise2a(a) && Exercise2b(a) && Exercise2c(a)
  {
  }

  /** The adjacent-pair test decides the full ordering: a sequence passes
      exactly when each element is at most every later one. */
  lemma {:induction false} NonDecreasingIffSorted(a: seq<real>)
    ensures NonDecreasing(a) <==> Sorted(a)
  {
    if NonDecreasing(a) {
      forall i, j | 0 <= i <= j < |a| ensures a[i] <= a[j] {
        NonDecreasingSpan(a, i, j);
      }
    }
  }

  lemma {:induction false} NonDecreasingSpan(a: seq<real>, i: nat, j: nat)
    requires NonDecreasing(a)
    requires i <= j < |a|
    ensures a[i] <= a[j]
    decreases j - i
  {
    if i < j {
      NonDecreasingSpan(a, i + 1, j);
    }
  }

  /** Examples: `[1, 2, 3]` passes, `[3, 2, 1]` fails, and the constant
      `[1, 1, 1]` passes, since equal neighbours are allowed. */
  lemma MonotoneExamples()
    ensures Exercise2c([1.0, 2.0, 3.0])
    ensures !Exercise2c([3.0, 2.0, 1.0])
    ensures Exercise2c([1.0, 1.0, 1.0])
  {
  }

  /** `_exercise_2c` applied to a Python list rather than an array, as
      `exercise_2` passes it on: `array[1:] >= array[:-1]` is then one
      lexicographic comparison of two lists, and `np.all` of a single bool is
      that bool. A sequence that never decreases still passes. */
  function Exercise2cOnList(a: seq<real>): (b: bool)
    ensures NonDecreasing(a) ==> b
  {
    var later, earlier := Slice(a, 1, |a|), Slice(a, 0, -1);
    assert NonDecreasing(a) ==> !ListLess(later, earlier) by {
      if NonDecreasing(a) {
        PairwiseAtLeastNotBelow(later, earlier);
      }
    }
    !ListLess(later, earlier)
  }

  /** Python's `x < y` on two lists: the first differing elements decide, and
      when one list is a prefix of the other the shorter one is smaller. */
  predicate ListLess(x: seq<real>, y: seq<real>)
    decreases |x|
  {
    if x == [] then y != []
    else if y == [] then false
    else if x[0] != y[0] then x[0] < y[0]
    else ListLess(x[1..], y[1..])
  }

  lemma {:induction false} PairwiseAtLeastNotBelow(x: seq<real>, y: seq<real>)
    requires |x| == |y|
    requires forall k :: 0 <= k < |x| ==> x[k] >= y[k]
    ensures !ListLess(x, y)
    decreases |x|
  {
    if x != [] && x[0] == y[0] {
      PairwiseAtLeastNotBelow(x[1..], y[1..]);
    }
  }

  /** `[1, 3, 2]` decreases at its end, yet as a list it passes: `[3, 2] >=
      [1, 3]` is decided by `3 > 1` alone. The array check rejects it. */
  lemma ListInputAccepted()
    ensures Exercise2cOnList([1.0, 3.0, 2.0])
    ensures !NonDecreasing([1.0, 3.0, 2.0])
    ensures !Exercise2c([1.0, 3.0, 2.0])
  {
    var a := [1.0, 3.0, 2.0];
    assert Slice(a, 1, |a|) == [3.0, 2.0];
    assert Slice(a, 0, -1) == [1.0, 3.0];
    assert a[1] > a[2];
  }

  // ---------------------------------------------------------------------
  // Peak finding
  // ---------------------------------------------------------------------

  /** Position `i` is a strict interior local maximum of `a`. */
  ghost predicate IsStrictPeak(a: seq<real>, i: int)
  {
    1 <= i <= |a| - 2 && a[i] > a[i - 1] && a[i] > a[i + 1]
  }

  /** The three slices the mask compares have the same length, and their
      `k`-th elements are the neighbours of position `k + 1`. */
  lemma InteriorSlices(a: seq<real>)
    ensures var n := if |a| < 2 then 0 else |a| - 2;
      |Slice(a, 1, -1)| == |Slice(a, 0, -2)| == |Slice(a, 2, |a|)| == n &&
      forall k :: 0 <= k < n ==>
        Slice(a, 1, -1)[k] == a[k + 1] && Slice(a, 0, -2)[k] == a[k] && Slice(a, 2, |a|)[k] == a[k + 2]
  {
  }

  /** `(array[1:-1] > array[:-2]) & (array[1:-1] > array[2:])`: entry `k`
      says whether position `k + 1` is higher than both its neighbours. */
  function PeakMask(a: seq<real>): (m: seq<bool>)
    ensures |m| == if |a| < 2 then 0 else |a| - 2
    ensures forall k :: 0 <= k < |m| ==> (m[k] <==> IsStrictPeak(a, k + 1))
  {
    var mid, left, right := Slice(a, 1, -1), Slice(a, 0, -2), Slice(a, 2, |a|);
    InteriorSlices(a);
    And(Elementwise(Greater, mid, left), Elementwise(Greater, mid, right))
  }

  /** `np.where(mask)[0] + 1`: the peak positions of a one-dimensional array. */
  function FindPeaks(a: seq<real>): (loc: seq<nat>)
    ensures |loc| <= if |a| < 2 then 0 else |a| - 2
  {
    AddScalar(Where(PeakMask(a)), 1)
  }

  /** Every reported position is an interior position: neither the first nor
      the last element is ever reported. */
  lemma PeaksAreInterior(a: seq<real>)
    ensures forall j :: 0 <= j < |FindPeaks(a)| ==> 1 <= FindPeaks(a)[j] <= |a| - 2
  {
    var m := PeakMask(a);
    forall j | 0 <= j < |FindPeaks(a)| ensures 1 <= FindPeaks(a)[j] <= |a| - 2 {
      WhereShiftedAt(m, 1, j);
    }
  }

  /** Soundness and completeness: a position is reported exactly when it is a
      strict interior local maximum. */
  lemma PeaksExact(a: seq<real>)
    ensures forall i :: i in FindPeaks(a) <==> IsStrictPeak(a, i)
  {
    var m := PeakMask(a);
    WhereShifted(m, 1);
    forall i ensures IsStrictPeak(a, i) <==> 1 <= i < |m| + 1 && m[i - 1] {
      if IsStrictPeak(a, i) {
        assert m[i - 1];
      }
    }
  }

  /** The positions come out in strictly increasing order, each once. */
  lemma PeaksIncreasing(a: seq<real>)
    ensures StrictlyIncreasing(FindPeaks(a))
  {
    WhereShiftedIncreasing(PeakMask(a), 1);
  }

  /** Two reported positions are never neighbours: strictness rules out a
      peak right next to another peak. */
  lemma PeaksNotAdjacent(a: seq<real>)
    ensures forall j :: 0 <= j < |FindPeaks(a)| - 1 ==> FindPeaks(a)[j] + 2 <= FindPeaks(a)[j + 1]
  {
    PeaksExact(a);
    PeaksIncreasing(a);
    PeaksApart(a, FindPeaks(a));
  }

  lemma PeaksApart(a: seq<real>, s: seq<int>)
    requires StrictlyIncreasing(s)
    requires forall i :: i in s ==> IsStrictPeak(a, i)
    ensures forall j :: 0 <= j < |s| - 1 ==> s[j] + 2 <= s[j + 1]
  {
    forall j | 0 <= j < |s| - 1 ensures s[j] + 2 <= s[j + 1] {
      assert s[j] in s && s[j + 1] in s;
    }
  }

  /** The result is the only strictly increasing sequence whose elements are
      exactly the strict interior local maxima. */
  lemma PeaksUnique(a: seq<real>, s: seq<int>)
    requires StrictlyIncreasing(s)
    requires forall i :: i in s <==> IsStrictPeak(a, i)
    ensures s == FindPeaks(a)
  {
    var loc := FindPeaks(a);
    PeaksExact(a);
    PeaksIncreasing(a);
    IncreasingUnique(s, loc);
  }

  /** Two strictly increasing sequences with the same elements are equal. */
  lemma {:induction false} IncreasingUnique(s: seq<int>, t: seq<int>)
    requires StrictlyIncreasing(s) && StrictlyIncreasing(t)
    requires forall x :: x in s <==> x in t
    ensures s == t
    decreases |s|
  {
    assert s != [] ==> s[0] in s;
    assert t != [] ==> t[0] in t;
    if s != [] && t != [] {
      // The smallest elements coincide.
      assert s[0] in s && t[0] in t;
      assert s[0] == t[0] by {
        var i :| 0 <= i < |t| && t[i] == s[0];
        var j :| 0 <= j < |s| && s[j] == t[0];
        assert t[0] <= t[i] && s[0] <= s[j];
      }
      forall x ensures x in s[1..] <==> x in t[1..] {
        if x in s[1..] {
          var i :| 1 <= i < |s| && s[i] == x;
          assert x in t && x != t[0];
        }
        if x in t[1..] {
          var i :| 1 <= i < |t| && t[i] == x;
          assert x in s && x != s[0];
        }
      }
      IncreasingUnique(s[1..], t[1..]);
      assert s == [s[0]] + s[1..] && t == [t[0]] + t[1..];
    }
  }

  /** Fewer than three elements leave no interior position, so no peak. */
  lemma ShortHasNoPeaks(a: seq<real>)
    requires |a| < 3
    ensures FindPeaks(a) == []
  {
  }

  /** Positions on a plateau (equal to a neighbour) are never peaks. */
  lemma PlateauHasNoPeak(a: seq<real>, i: nat)
    requires i + 1 < |a| && a[i] == a[i + 1]
    ensures i !in FindPeaks(a) && i + 1 !in FindPeaks(a)
  {
    PeaksExact(a);
  }

  /** A constant sequence has no peak at all. */
  lemma ConstantHasNoPeaks(a: seq<real>)
    requires forall k :: 0 <= k < |a| ==> a[k] == a[0]
    ensures FindPeaks(a) == []
  {
    PeaksUnique(a, []);
  }

  /** Examples: `[0, 3, 1, 5, 1, 0]` has its peaks at 1 and 3; the plateau
      `[1, 1, 1]` has none. */
  lemma PeakExamples()
    ensures FindPeaks([0.0, 3.0, 1.0, 5.0, 1.0, 0.0]) == [1, 3]
    ensures FindPeaks([1.0, 1.0, 1.0]) == []
  {
    var a := [0.0, 3.0, 1.0, 5.0, 1.0, 0.0];
    PeaksUnique(a, [1, 3]);
    ConstantHasNoPeaks([1.0, 1.0, 1.0]);
  }

  // ---------------------------------------------------------------------
  // exercise_3: the rank check in front of the peak finder
  // ---------------------------------------------------------------------

  /** The outcome of `exercise_3`: the peak positions, or the `ValueError`
      raised for an input that is not one-dimensional. */
  datatype PeakResult = Peaks(loc: seq<nat>) | ValueError(message: string)

  const NotOneDimensional := "Input array must be 1-dimensional."

  /** `exercise_3(array)` for a given array (no plot): a scalar is first
      promoted to a one-element vector, any other rank but 1 is rejected,
      and a one-dimensional array yields its peak positions. */
  function Exercise3(x: NdArray): (r: PeakResult)
    requires x.Valid()
    ensures r.ValueError? <==> x.Ndim() >= 2
    ensures r.ValueError? ==> r.message == NotOneDimensional
    ensures r.Peaks? ==> forall i :: i in r.loc <==> IsStrictPeak(x.data, i)
    ensures r.Peaks? ==> StrictlyIncreasing(r.loc)
    ensures x.Ndim() == 0 ==> r == Peaks([])
  {
    var y := AtLeast1d(x);
    if y.Ndim() != 1 then ValueError(NotOneDimensional)
    else
      PeaksExact(y.data);
      PeaksIncreasing(y.data);
      assert x.Ndim() == 0 ==> FindPeaks(y.data) == [] by {
        if x.Ndim() == 0 { ShortHasNoPeaks(y.data); }
      }
      Peaks(FindPeaks(y.data))
  }
}
