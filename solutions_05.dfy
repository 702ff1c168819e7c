/** The piecewise elementwise transform of the fifth set of solutions.
    `exercise_1` allocates an output buffer and fills it in place through
    three boolean masks, so it is a method over arrays; the table it
    implements is the function Piecewise. The natural logarithm and the
    square root are parameters: only where they are applied is modelled,
    not their values. */
module Solutions05 {
  import opened NumPy

  /** `np.abs` */
  function Abs(x: real): (y: real)
    ensures y >= 0.0
    ensures y == x || y == -x
  {
    if x < 0.0 then -x else x
  }

  /** `np.sign`: -1, 0 or 1, with `sign(0) == 0`. */
  function Sign(x: real): (s: real)
    ensures s == 1.0 || s == 0.0 || s == -1.0
    ensures s == 0.0 <==> x == 0.0
    ensures s > 0.0 <==> x > 0.0
  {
    if x > 0.0 then 1.0 else if x < 0.0 then -1.0 else 0.0
  }

  /** The logarithm is only ever asked for arguments above 1: a logarithm
      defined there and nowhere else is enough for the transform. */
  ghost predicate LogDefinedAboveOne(ln: real --> real)
  {
    forall x :: x > 1.0 ==> ln.requires(x)
  }

  /** The square root is asked only for non-negative arguments. */
  ghost predicate SqrtDefinedOnNonNegatives(sqrt: real --> real)
  {
    forall x :: x >= 0.0 ==> sqrt.requires(x)
  }

  /** The value the transform gives one element: `ln(x) + 1` above 1,
      `sign(x) * sqrt(|x|)` on `(-1, 1]`, and `-(x^2)` at or below -1. */
  function Piecewise(ln: real --> real, sqrt: real --> real, x: real): (v: real)
    requires LogDefinedAboveOne(ln) && SqrtDefinedOnNonNegatives(sqrt)
  {
    if x > 1.0 then ln(x) + 1.0
    else if x > -1.0 then Sign(x) * sqrt(Abs(x))
    else -(x * x)
  }

  /** The transform of a whole sequence, element by element. */
  function Transform(ln: real --> real, sqrt: real --> real, s: seq<real>): (r: seq<real>)
    requires LogDefinedAboveOne(ln) && SqrtDefinedOnNonNegatives(sqrt)
    ensures |r| == |s|
  {
    if s == [] then [] else [Piecewise(ln, sqrt, s[0])] + Transform(ln, sqrt, s[1..])
  }

  /** Element `k` of the output depends on element `k` of the input alone. */
  lemma {:induction false} TransformAt(ln: real --> real, sqrt: real --> real, s: seq<real>, k: nat)
    requires LogDefinedAboveOne(ln) && SqrtDefinedOnNonNegatives(sqrt)
    requires k < |s|
    ensures Transform(ln, sqrt, s)[k] == Piecewise(ln, sqrt, s[k])
  {
    if k > 0 {
      TransformAt(ln, sqrt, s[1..], k - 1);
    }
  }

  /** The transform keeps the order: transforming a concatenation is
      concatenating the transforms. */
  lemma {:induction false} TransformAppend(ln: real --> real, sqrt: real --> real, s: seq<real>, t: seq<real>)
    requires LogDefinedAboveOne(ln) && SqrtDefinedOnNonNegatives(sqrt)
    ensures Transform(ln, sqrt, s + t) == Transform(ln, sqrt, s) + Transform(ln, sqrt, t)
  {
    if s != [] {
      assert (s + t)[1..] == s[1..] + t;
      TransformAppend(ln, sqrt, s[1..], t);
    } else {
      assert s + t == t;
    }
  }

  /** The three masks `x > 1`, `~(x > 1) & (x > -1)` and `x <= -1` split the
      positions: each position is in exactly one of them. */
  lemma MasksPartition(a: seq<real>)
    ensures var m1 := ElementwiseScalar(Greater, a, 1.0);
      var m2 := And(Not(m1), ElementwiseScalar(Greater, a, -1.0));
      var m3 := ElementwiseScalar(LessEqual, a, -1.0);
      |m1| == |m2| == |m3| == |a| &&
      forall k :: 0 <= k < |a| ==>
        (if m1[k] then 1 else 0) + (if m2[k] then 1 else 0) + (if m3[k] then 1 else 0) == 1
  {
  }

  /** At or below -1 the result is `-(x^2)` exactly, so it is at most -1. */
  lemma NegativeBranch(ln: real --> real, sqrt: real --> real, x: real)
    requires LogDefinedAboveOne(ln) && SqrtDefinedOnNonNegatives(sqrt)
    requires x <= -1.0
    ensures Piecewise(ln, sqrt, x) == -(x * x) <= -1.0
  {
    assert x * x >= 1.0 by {
      assert x * x == (-x) * (-x);
      assert (-x) * (-x) >= (-x) * 1.0;
    }
  }

  /** `sign(0) == 0`, so zero is mapped to zero whatever the square root is. */
  lemma ZeroMapsToZero(ln: real --> real, sqrt: real --> real)
    requires LogDefinedAboveOne(ln) && SqrtDefinedOnNonNegatives(sqrt)
    ensures Piecewise(ln, sqrt, 0.0) == 0.0
  {
  }

  /** What the real logarithm does above 1: it is positive there. */
  ghost predicate LogPositiveAboveOne(ln: real --> real)
    requires LogDefinedAboveOne(ln)
  {
    forall t :: t > 1.0 ==> ln(t) > 0.0
  }

  /** What the real square root does on `(0, 1]`: it stays in `(0, 1]`, and
      below 1 it stays below 1. */
  ghost predicate SqrtKeepsUnitInterval(sqrt: real --> real)
    requires SqrtDefinedOnNonNegatives(sqrt)
  {
    forall t :: 0.0 < t <= 1.0 ==> 0.0 < sqrt(t) <= 1.0 && (t < 1.0 ==> sqrt(t) < 1.0)
  }

  /** With the real logarithm and square root, each formula maps its range
      into itself: values above 1 stay above 1, values in `(-1, 1]` stay
      there with their sign, and values at or below -1 stay at or below -1. */
  lemma PiecewiseKeepsRanges(ln: real --> real, sqrt: real --> real, x: real)
    requires LogDefinedAboveOne(ln) && SqrtDefinedOnNonNegatives(sqrt)
    requires LogPositiveAboveOne(ln) && SqrtKeepsUnitInterval(sqrt)
    ensures Piecewise(ln, sqrt, x) > 1.0 <==> x > 1.0
    ensures Piecewise(ln, sqrt, x) <= -1.0 <==> x <= -1.0
    ensures Piecewise(ln, sqrt, x) > 0.0 <==> x > 0.0
    ensures Piecewise(ln, sqrt, x) == 0.0 <==> x == 0.0
  {
    if x <= -1.0 {
      NegativeBranch(ln, sqrt, x);
    } else if x <= 1.0 && x != 0.0 {
      var r := sqrt(Abs(x));
      assert 0.0 < r <= 1.0 && (x > -1.0 ==> x < 0.0 ==> r < 1.0);
    }
  }

  /** Consequently, the masks `x > 1` and `x <= -1` pick the same positions in
      the output as in the input. */
  lemma TransformKeepsMasks(ln: real --> real, sqrt: real --> real, a: seq<real>)
    requires LogDefinedAboveOne(ln) && SqrtDefinedOnNonNegatives(sqrt)
    requires LogPositiveAboveOne(ln) && SqrtKeepsUnitInterval(sqrt)
    ensures ElementwiseScalar(Greater, Transform(ln, sqrt, a), 1.0) == ElementwiseScalar(Greater, a, 1.0)
    ensures ElementwiseScalar(LessEqual, Transform(ln, sqrt, a), -1.0) == ElementwiseScalar(LessEqual, a, -1.0)
  {
    var o := Transform(ln, sqrt, a);
    forall k | 0 <= k < |a| ensures (o[k] > 1.0 <==> a[k] > 1.0) && (o[k] <= -1.0 <==> a[k] <= -1.0) {
      TransformAt(ln, sqrt, a, k);
      PiecewiseKeepsRanges(ln, sqrt, a[k]);
    }
  }

  /** Example: `[2, 0.5, -2]` becomes `[ln(2) + 1, sqrt(0.5), -4]`. */
  lemma TransformExample(ln: real --> real, sqrt: real --> real)
    requires LogDefinedAboveOne(ln) && SqrtDefinedOnNonNegatives(sqrt)
    ensures Transform(ln, sqrt, [2.0, 0.5, -2.0]) == [ln(2.0) + 1.0, sqrt(0.5), -4.0]
  {
    var s := [2.0, 0.5, -2.0];
    assert s[1..] == [0.5, -2.0] && s[1..][1..] == [-2.0] && s[1..][1..][1..] == [];
  }

  /** Once the cells each mask selects hold the piecewise value, the whole
      output is the transform of the input. */
  lemma Assemble(ln: real --> real, sqrt: real --> real, a: seq<real>, o: seq<real>,
                 m1: seq<bool>, m2: seq<bool>, m3: seq<bool>)
    requires LogDefinedAboveOne(ln) && SqrtDefinedOnNonNegatives(sqrt)
    requires |o| == |a|
    requires m1 == ElementwiseScalar(Greater, a, 1.0)
    requires m2 == And(Not(m1), ElementwiseScalar(Greater, a, -1.0))
    requires m3 == ElementwiseScalar(LessEqual, a, -1.0)
    requires forall j :: 0 <= j < |a| && (m1[j] || m2[j] || m3[j]) ==> o[j] == Piecewise(ln, sqrt, a[j])
    ensures o == Transform(ln, sqrt, a)
  {
    MasksPartition(a);
    forall j | 0 <= j < |a| ensures o[j] == Transform(ln, sqrt, a)[j] {
      TransformAt(ln, sqrt, a, j);
    }
  }

  /** `out[mask] = np.log(arr[mask]) + 1`, for a mask that selects only
      elements above 1. */
  method AssignLog(out: array<real>, mask: seq<bool>, src: seq<real>, ln: real --> real, ghost sqrt: real --> real,
                   ghost writes: seq<nat>) returns (ghost written: seq<nat>)
    requires LogDefinedAboveOne(ln) && SqrtDefinedOnNonNegatives(sqrt)
    requires |mask| == |src| == out.Length == |writes|
    requires forall k :: 0 <= k < |mask| && mask[k] ==> src[k] > 1.0
    modifies out
    ensures forall k :: 0 <= k < out.Length ==>
      out[k] == if mask[k] then Piecewise(ln, sqrt, src[k]) else old(out[k])
    ensures written == Tally(writes, mask)
  {
    written := writes;
    var k := 0;
    while k < out.Length
      invariant 0 <= k <= out.Length
      invariant forall j :: 0 <= j < k ==> out[j] == if mask[j] then Piecewise(ln, sqrt, src[j]) else old(out[j])
      invariant forall j :: k <= j < out.Length ==> out[j] == old(out[j])
      invariant |written| == |writes|
      invariant forall j :: 0 <= j < k ==> written[j] == writes[j] + if mask[j] then 1 else 0
      invariant forall j :: k <= j < |written| ==> written[j] == writes[j]
    {
      if mask[k] {
        out[k] := ln(src[k]) + 1.0;
        written := written[k := written[k] + 1];
      }
      k := k + 1;
    }
  }

  /** `out[mask] = np.sign(arr[mask]) * np.sqrt(np.abs(arr[mask]))`, for a
      mask that selects only elements in `(-1, 1]`. */
  method AssignSignedRoot(out: array<real>, mask: seq<bool>, src: seq<real>, ghost ln: real --> real, sqrt: real --> real,
                          ghost writes: seq<nat>) returns (ghost written: seq<nat>)
    requires LogDefinedAboveOne(ln) && SqrtDefinedOnNonNegatives(sqrt)
    requires |mask| == |src| == out.Length == |writes|
    requires forall k :: 0 <= k < |mask| && mask[k] ==> -1.0 < src[k] <= 1.0
    modifies out
    ensures forall k :: 0 <= k < out.Length ==>
      out[k] == if mask[k] then Piecewise(ln, sqrt, src[k]) else old(out[k])
    ensures written == Tally(writes, mask)
  {
    written := writes;
    var k := 0;
    while k < out.Length
      invariant 0 <= k <= out.Length
      invariant forall j :: 0 <= j < k ==> out[j] == if mask[j] then Piecewise(ln, sqrt, src[j]) else old(out[j])
      invariant forall j :: k <= j < out.Length ==> out[j] == old(out[j])
      invariant |written| == |writes|
      invariant forall j :: 0 <= j < k ==> written[j] == writes[j] + if mask[j] then 1 else 0
      invariant forall j :: k <= j < |written| ==> written[j] == writes[j]
    {
      if mask[k] {
        out[k] := Sign(src[k]) * sqrt(Abs(src[k]));
        written := written[k := written[k] + 1];
      }
      k := k + 1;
    }
  }

  /** `out[mask] = - arr[mask]**2`, for a mask that selects only elements at
      or below -1. */
  method AssignNegSquare(out: array<real>, mask: seq<bool>, src: seq<real>, ghost ln: real --> real, ghost sqrt: real --> real,
                         ghost writes: seq<nat>) returns (ghost written: seq<nat>)
    requires LogDefinedAboveOne(ln) && SqrtDefinedOnNonNegatives(sqrt)
    requires |mask| == |src| == out.Length == |writes|
    requires forall k :: 0 <= k < |mask| && mask[k] ==> src[k] <= -1.0
    modifies out
    ensures forall k :: 0 <= k < out.Length ==>
      out[k] == if mask[k] then Piecewise(ln, sqrt, src[k]) else old(out[k])
    ensures written == Tally(writes, mask)
  {
    written := writes;
    var k := 0;
    while k < out.Length
      invariant 0 <= k <= out.Length
      invariant forall j :: 0 <= j < k ==> out[j] == if mask[j] then Piecewise(ln, sqrt, src[j]) else old(out[j])
      invariant forall j :: k <= j < out.Length ==> out[j] == old(out[j])
      invariant |written| == |writes|
      invariant forall j :: 0 <= j < k ==> written[j] == writes[j] + if mask[j] then 1 else 0
      invariant forall j :: k <= j < |written| ==> written[j] == writes[j]
    {
      if mask[k] {
        out[k] := -(src[k] * src[k]);
        written := written[k := written[k] + 1];
      }
      k := k + 1;
    }
  }

  /** The write counts per cell after one masked assignment: one more for
      every selected cell. */
  ghost function Tally(writes: seq<nat>, mask: seq<bool>): (w: seq<nat>)
    requires |writes| == |mask|
    ensures |w| == |writes|
    ensures forall k :: 0 <= k < |w| ==> w[k] == writes[k] + if mask[k] then 1 else 0
  {
    seq(|writes|, k requires 0 <= k < |writes| => writes[k] + if mask[k] then 1 else 0)
  }

  /** Starting from no writes, the three masked assignments of `exercise_1`
      write every cell exactly once. */
  lemma WrittenOnce(a: seq<real>)
    ensures var m1 := ElementwiseScalar(Greater, a, 1.0);
      var m2 := And(Not(m1), ElementwiseScalar(Greater, a, -1.0));
      var m3 := ElementwiseScalar(LessEqual, a, -1.0);
      var w := Tally(Tally(Tally(seq(|a|, _ => 0), m1), m2), m3);
      forall k :: 0 <= k < |w| ==> w[k] == 1
  {
    MasksPartition(a);
  }

  /** `exercise_1(arr)`: allocate `out` like `arr`, then write it through the
      masks `arr > 1`, `~mask & (arr > -1)` and `arr <= -1` in turn. The
      result is a fresh array, `arr` is left as it was, every cell of `out`
      is written exactly once (`writes` counts the writes per cell), and
      `out` holds the transform of `arr`. */
  method Exercise1(arr: array<real>, ln: real --> real, sqrt: real --> real)
    returns (out: array<real>, ghost writes: seq<nat>)
    requires LogDefinedAboveOne(ln) && SqrtDefinedOnNonNegatives(sqrt)
    ensures fresh(out) && out.Length == arr.Length
    ensures out[..] == Transform(ln, sqrt, arr[..])
    ensures |writes| == arr.Length && forall k :: 0 <= k < |writes| ==> writes[k] == 1
  {
    var n := arr.Length;
    var a := arr[..];
    // np.empty_like(arr): what the buffer holds before it is written is never read.
    out := new real[n];
    writes := seq(n, _ => 0);

    var mask := ElementwiseScalar(Greater, a, 1.0);
    ghost var m1 := mask;
    writes := AssignLog(out, mask, a, ln, sqrt, writes);

    mask := And(Not(mask), ElementwiseScalar(Greater, a, -1.0));
    ghost var m2 := mask;
    writes := AssignSignedRoot(out, mask, a, ln, sqrt, writes);

    mask := ElementwiseScalar(LessEqual, a, -1.0);
    ghost var m3 := mask;
    writes := AssignNegSquare(out, mask, a, ln, sqrt, writes);
    assert forall j :: 0 <= j < n && (m1[j] || m2[j] || m3[j]) ==> out[..][j] == Piecewise(ln, sqrt, a[j]);

    WrittenOnce(a);
    Assemble(ln, sqrt, a, out[..], m1, m2, m3);
  }
}
