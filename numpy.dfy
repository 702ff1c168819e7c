/** The few numpy operations the exercises are built from, over real numbers.
    Arrays are sequences; boolean masks are sequences of bool; index arrays
    (the result of `np.where`) are sequences of natural numbers. */
module NumPy {

  /** A Python slice bound `i` against a sequence of length `n`: a negative
      bound counts from the end, and the result is clamped to `[0, n]`. */
  function SliceBound(i: int, n: nat): (b: nat)
    ensures b <= n
    ensures 0 <= i <= n ==> b == i
    ensures i < 0 && 0 <= i + n ==> b == i + n
    ensures i + n < 0 ==> b == 0
    ensures n < i ==> b == n
  {
    if i < 0 then (if i + n < 0 then 0 else i + n)
    else if i > n then n
    else i
  }

  /** Python's `a[lo:hi]`: empty when the normalised bounds cross. */
  function Slice<T>(a: seq<T>, lo: int, hi: int): (r: seq<T>)
    ensures var l, h := SliceBound(lo, |a|), SliceBound(hi, |a|);
      |r| == (if l <= h then h - l else 0) &&
      forall k :: 0 <= k < |r| ==> r[k] == a[l + k]
  {
    var l, h := SliceBound(lo, |a|), SliceBound(hi, |a|);
    if l <= h then a[l..h] else []
  }

  /** The comparison operators numpy applies elementwise. */
  datatype Comparison = Greater | GreaterEqual | Less | LessEqual

  predicate Compares(op: Comparison, x: real, y: real)
  {
    match op
    case Greater => x > y
    case GreaterEqual => x >= y
    case Less => x < y
    case LessEqual => x <= y
  }

  /** `x op y` for two arrays of the same shape. */
  function Elementwise(op: Comparison, x: seq<real>, y: seq<real>): (m: seq<bool>)
    requires |x| == |y|
    ensures |m| == |x|
    ensures forall k :: 0 <= k < |m| ==> (m[k] <==> Compares(op, x[k], y[k]))
  {
    seq(|x|, k requires 0 <= k < |x| => Compares(op, x[k], y[k]))
  }

  /** `x op c` for an array and a scalar (the scalar is broadcast). */
  function ElementwiseScalar(op: Comparison, x: seq<real>, c: real): (m: seq<bool>)
    ensures |m| == |x|
    ensures forall k :: 0 <= k < |m| ==> (m[k] <==> Compares(op, x[k], c))
  {
    seq(|x|, k requires 0 <= k < |x| => Compares(op, x[k], c))
  }

  /** `~m` on a boolean array. */
  function Not(m: seq<bool>): (r: seq<bool>)
    ensures |r| == |m|
    ensures forall k :: 0 <= k < |r| ==> r[k] == !m[k]
  {
    seq(|m|, k requires 0 <= k < |m| => !m[k])
  }

  /** `m & p` on two boolean arrays of the same shape. */
  function And(m: seq<bool>, p: seq<bool>): (r: seq<bool>)
    requires |m| == |p|
    ensures |r| == |m|
    ensures forall k :: 0 <= k < |r| ==> r[k] == (m[k] && p[k])
  {
    seq(|m|, k requires 0 <= k < |m| => m[k] && p[k])
  }

  /** `np.diff(a)`: the differences of adjacent elements, one fewer than
      there are elements (none for an empty or one-element array). */
  function Diff(a: seq<real>): (d: seq<real>)
    ensures |d| == if |a| == 0 then 0 else |a| - 1
    ensures forall k :: 0 <= k < |d| ==> d[k] == a[k + 1] - a[k]
  {
    if |a| == 0 then [] else seq(|a| - 1, k requires 0 <= k < |a| - 1 => a[k + 1] - a[k])
  }

  /** The running sums `[x, x + d[0], x + d[0] + d[1], ...]`: the sequence
      that starts at `x` and has the steps `d`. */
  function Cumulate(x: real, d: seq<real>): (r: seq<real>)
    ensures |r| == |d| + 1 && r[0] == x
    decreases |d|
  {
    if d == [] then [x] else [x] + Cumulate(x + d[0], d[1..])
  }

  /** `np.diff` loses only the first element: the first element and the
      differences give the array back. */
  lemma {:induction false} CumulateDiff(a: seq<real>)
    requires a != []
    ensures Cumulate(a[0], Diff(a)) == a
    decreases |a|
  {
    if |a| == 1 {
      assert a == [a[0]];
    } else {
      var tail, d := a[1..], Diff(a);
      DiffCons(a);
      assert d[0] == a[1] - a[0] && d[1..] == Diff(tail);
      assert a[0] + d[0] == tail[0];
      CumulateDiff(tail);
      assert Cumulate(a[0], d) == [a[0]] + Cumulate(tail[0], Diff(tail));
      assert a == [a[0]] + tail;
    }
  }

  /** The differences of the running sums are the steps they were built from. */
  lemma {:induction false} DiffCumulate(x: real, d: seq<real>)
    ensures Diff(Cumulate(x, d)) == d
    decreases |d|
  {
    if d != [] {
      var r := Cumulate(x, d);
      var rest := Cumulate(x + d[0], d[1..]);
      assert r == [x] + rest;
      assert r[1..] == rest;
      DiffCons(r);
      DiffCumulate(x + d[0], d[1..]);
      calc {
        Diff(r);
        [r[1] - r[0]] + Diff(rest);
        [d[0]] + d[1..];
        d;
      }
    }
  }

  /** `np.diff` of an array of two or more elements: its first step, then the
      differences of the rest. */
  lemma DiffCons(a: seq<real>)
    requires |a| >= 2
    ensures Diff(a) == [a[1] - a[0]] + Diff(a[1..])
  {
    var d, e := Diff(a), Diff(a[1..]);
    assert |d| == 1 + |e|;
    forall k | 0 <= k < |e| ensures d[k + 1] == e[k] {
      assert a[1..][k + 1] == a[k + 2] && a[1..][k] == a[k + 1];
    }
    assert d == [d[0]] + d[1..];
  }

  /** `np.all(m)`, as the reduction it is: the conjunction of the elements. */
  function All(m: seq<bool>): (b: bool)
    ensures b <==> forall k :: 0 <= k < |m| ==> m[k]
  {
    if |m| == 0 then true else m[0] && All(m[1..])
  }

  /** `np.any(m)`: the disjunction of the elements. */
  function Any(m: seq<bool>): (b: bool)
    ensures b <==> exists k :: 0 <= k < |m| && m[k]
  {
    if |m| == 0 then false else m[0] || Any(m[1..])
  }

  /** `np.all(m) == (not np.any(~m))`: a mask is all true exactly when none of
      its entries is false. */
  lemma AllIsNoneFalse(m: seq<bool>)
    ensures All(m) == !Any(Not(m))
  {
    var n := Not(m);
    if !All(m) {
      var k :| 0 <= k < |m| && !m[k];
      assert n[k];
    }
  }

  /** `~(x >= c)` is `x < c`: negating a comparison mask gives the mask of the
      opposite comparison. */
  lemma NotAtLeastIsBelow(x: seq<real>, c: real)
    ensures Not(ElementwiseScalar(GreaterEqual, x, c)) == ElementwiseScalar(Less, x, c)
  {
  }

  /** `np.diff(a) >= 0` and `a[1:] >= a[:-1]` are the same mask: a step is
      non-negative exactly when the later element is at least the earlier. */
  lemma DiffSignIsSliceComparison(a: seq<real>)
    ensures |Slice(a, 1, |a|)| == |Slice(a, 0, -1)|
    ensures ElementwiseScalar(GreaterEqual, Diff(a), 0.0) ==
            Elementwise(GreaterEqual, Slice(a, 1, |a|), Slice(a, 0, -1))
  {
  }

  /** Two adjacent slices join into one: `a[lo:mid] + a[mid:hi] == a[lo:hi]`. */
  lemma SliceSplit<T>(a: seq<T>, lo: int, mid: int, hi: int)
    requires 0 <= lo <= mid <= hi <= |a|
    ensures Slice(a, lo, mid) + Slice(a, mid, hi) == Slice(a, lo, hi)
  {
    assert a[lo..mid] + a[mid..hi] == a[lo..hi];
  }

  /** A negative bound `-k` names the same place as `len(a) - k`. */
  lemma SliceFromEnd<T>(a: seq<T>, k: int, other: int)
    requires 0 < k <= |a|
    ensures Slice(a, -k, other) == Slice(a, |a| - k, other)
    ensures Slice(a, other, -k) == Slice(a, other, |a| - k)
  {
  }

  predicate StrictlyIncreasing(s: seq<int>)
  {
    forall i, j :: 0 <= i < j < |s| ==> s[i] < s[j]
  }

  /** The positions `k >= i` of the true entries of `m`, scanning upwards. */
  function WhereFrom(m: seq<bool>, i: nat): (r: seq<nat>)
    requires i <= |m|
    ensures |r| <= |m| - i
    decreases |m| - i
  {
    if i == |m| then []
    else if m[i] then [i] + WhereFrom(m, i + 1)
    else WhereFrom(m, i + 1)
  }

  /** `np.where(m)[0]` for a one-dimensional mask: the positions of the
      true entries, in ascending order (WhereSound, WhereComplete and
      WhereIncreasing below). */
  function Where(m: seq<bool>): (r: seq<nat>)
    ensures |r| <= |m|
  {
    WhereFrom(m, 0)
  }

  lemma {:induction false} WhereFromSound(m: seq<bool>, i: nat, j: nat)
    requires i <= |m| && j < |WhereFrom(m, i)|
    ensures i <= WhereFrom(m, i)[j] < |m| && m[WhereFrom(m, i)[j]]
    decreases |m| - i
  {
    if !m[i] {
      WhereFromSound(m, i + 1, j);
    } else if j > 0 {
      WhereFromSound(m, i + 1, j - 1);
    }
  }

  lemma {:induction false} WhereFromComplete(m: seq<bool>, i: nat, k: nat)
    requires i <= k < |m| && m[k]
    ensures k in WhereFrom(m, i)
    decreases |m| - i
  {
    if k > i {
      WhereFromComplete(m, i + 1, k);
    }
  }

  lemma {:induction false} WhereFromIncreasing(m: seq<bool>, i: nat)
    requires i <= |m|
    ensures StrictlyIncreasing(WhereFrom(m, i))
    decreases |m| - i
  {
    if i < |m| {
      WhereFromIncreasing(m, i + 1);
      if m[i] {
        var rest := WhereFrom(m, i + 1);
        forall j | 0 <= j < |rest| ensures i < rest[j] {
          WhereFromSound(m, i + 1, j);
        }
      }
    }
  }

  /** Every position `np.where` reports holds a true entry. */
  lemma WhereSound(m: seq<bool>, j: nat)
    requires j < |Where(m)|
    ensures Where(m)[j] < |m| && m[Where(m)[j]]
  {
    WhereFromSound(m, 0, j);
  }

  /** Every true entry is reported by `np.where`. */
  lemma WhereComplete(m: seq<bool>, k: nat)
    requires k < |m| && m[k]
    ensures k in Where(m)
  {
    WhereFromComplete(m, 0, k);
  }

  /** `np.where` reports the positions in strictly increasing order. */
  lemma WhereIncreasing(m: seq<bool>)
    ensures StrictlyIncreasing(Where(m))
  {
    WhereFromIncreasing(m, 0);
  }

  /** `s + c` on an index array: `c` is added to every element. */
  function AddScalar(s: seq<nat>, c: nat): (r: seq<nat>)
    ensures |r| == |s|
    ensures forall k :: 0 <= k < |r| ==> r[k] == s[k] + c
  {
    seq(|s|, k requires 0 <= k < |s| => s[k] + c)
  }

  /** Adding a constant to an index array keeps it strictly increasing. */
  lemma AddScalarIncreasing(s: seq<nat>, c: nat)
    requires StrictlyIncreasing(s)
    ensures StrictlyIncreasing(AddScalar(s, c))
  {
    var r := AddScalar(s, c);
    forall i, j | 0 <= i < j < |r| ensures r[i] < r[j] {
      assert s[i] < s[j];
    }
  }

  /** Entry `j` of `np.where(m)[0] + c` is a position `i >= c` with `m[i - c]`. */
  lemma WhereShiftedAt(m: seq<bool>, c: nat, j: nat)
    requires j < |AddScalar(Where(m), c)|
    ensures var i := AddScalar(Where(m), c)[j]; c <= i < |m| + c && m[i - c]
  {
    WhereSound(m, j);
  }

  /** `np.where(m)[0] + c` holds exactly the positions `i` with `m[i - c]`. */
  lemma WhereShifted(m: seq<bool>, c: nat)
    ensures forall i :: i in AddScalar(Where(m), c) <==> c <= i < |m| + c && m[i - c]
  {
    var w := Where(m);
    var loc := AddScalar(w, c);
    forall i | i in loc ensures c <= i < |m| + c && m[i - c] {
      var j :| 0 <= j < |loc| && loc[j] == i;
      WhereShiftedAt(m, c, j);
    }
    forall i | c <= i < |m| + c && m[i - c] ensures i in loc {
      WhereComplete(m, i - c);
      var j :| 0 <= j < |w| && w[j] == i - c;
      assert loc[j] == i;
    }
  }

  /** `np.where(m)[0] + c` is strictly increasing. */
  lemma WhereShiftedIncreasing(m: seq<bool>, c: nat)
    ensures StrictlyIncreasing(AddScalar(Where(m), c))
  {
    WhereIncreasing(m);
    AddScalarIncreasing(Where(m), c);
  }

  /** An n-dimensional array: its shape and its elements in row-major order.
      A shape of `[]` is a 0-dimensional array, that is, a scalar. */
  datatype NdArray = NdArray(shape: seq<nat>, data: seq<real>)
  {
    function Ndim(): nat { |shape| }

    predicate Valid() { |data| == Size(shape) }
  }

  /** The number of elements of an array of the given shape. */
  function Size(shape: seq<nat>): nat
  {
    if |shape| == 0 then 1 else shape[0] * Size(shape[1..])
  }

  /** `np.atleast_1d(x)`: a scalar becomes a one-element vector; an array of
      rank 1 or more is returned as it is. */
  function AtLeast1d(x: NdArray): (y: NdArray)
    requires x.Valid()
    ensures y.Valid() && y.data == x.data
    ensures y.Ndim() >= 1
    ensures x.Ndim() == 0 ==> y.shape == [1]
    ensures x.Ndim() >= 1 ==> y == x
  {
    if x.Ndim() == 0 then NdArray([1], x.data) else x
  }
}
