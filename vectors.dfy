/**
  The vector helpers of test2.py. Python tuples of floats become sequences
  of integers: every coordinate the script builds (the cube corners at
  +-1.0, scaled by 5) is integral, and exact integer arithmetic keeps the
  algebraic laws below free of floating-point rounding.
 */
module Vectors {
  import opened Outcomes

  type Vec = seq<int>
  type Vec3 = v: Vec | |v| == 3 witness [0, 0, 0]

  const Zero3: Vec3 := [0, 0, 0]

  /** `vec_sub`: the length check is the function's assert. */
  function Sub(a: Vec, b: Vec): (r: Vec)
    requires |a| == |b|
    ensures |r| == |a|
    ensures forall i :: 0 <= i < |r| ==> r[i] == a[i] - b[i]
  {
    seq(|a|, i requires 0 <= i < |a| => a[i] - b[i])
  }

  /** `vec_add`. */
  function Add(a: Vec, b: Vec): (r: Vec)
    requires |a| == |b|
    ensures |r| == |a|
    ensures forall i :: 0 <= i < |r| ==> r[i] == a[i] + b[i]
  {
    seq(|a|, i requires 0 <= i < |a| => a[i] + b[i])
  }

  /** `vec_scale`: no length condition. */
  function Scale(a: Vec, s: int): (r: Vec)
    ensures |r| == |a|
    ensures forall i :: 0 <= i < |r| ==> r[i] == a[i] * s
  {
    seq(|a|, i requires 0 <= i < |a| => a[i] * s)
  }

  /** Adding back what was subtracted restores the vector. */
  lemma AddSubInverse(a: Vec, b: Vec)
    requires |a| == |b|
    ensures Add(Sub(a, b), b) == a
  {
    var r := Add(Sub(a, b), b);
    assert forall i | 0 <= i < |a| :: r[i] == a[i];
  }

  /** Subtracting what was added restores the vector. */
  lemma SubAddInverse(a: Vec, b: Vec)
    requires |a| == |b|
    ensures Sub(Add(a, b), b) == a
  {
    var r := Sub(Add(a, b), b);
    assert forall i | 0 <= i < |a| :: r[i] == a[i];
  }

  /** A difference is the first operand plus the negated second one. */
  lemma SubIsAddNegated(a: Vec, b: Vec)
    requires |a| == |b|
    ensures Sub(a, b) == Add(a, Scale(b, -1))
  {
    var l, r := Sub(a, b), Add(a, Scale(b, -1));
    assert forall i | 0 <= i < |a| :: l[i] == r[i];
  }

  /** Scaling twice is scaling by the product. */
  lemma ScaleScale(a: Vec, s: int, t: int)
    ensures Scale(Scale(a, s), t) == Scale(a, s * t)
  {
    var l, r := Scale(Scale(a, s), t), Scale(a, s * t);
    forall i | 0 <= i < |a| ensures l[i] == r[i] {
      assert (a[i] * s) * t == a[i] * (s * t);
    }
  }

  /** Scaling distributes over differences. */
  lemma SubScale(a: Vec, b: Vec, k: int)
    requires |a| == |b|
    ensures Sub(Scale(a, k), Scale(b, k)) == Scale(Sub(a, b), k)
  {
    var l, r := Sub(Scale(a, k), Scale(b, k)), Scale(Sub(a, b), k);
    forall i | 0 <= i < |a| ensures l[i] == r[i] {
      assert a[i] * k - b[i] * k == (a[i] - b[i]) * k;
    }
  }

  /** Dot product of two 3-vectors. */
  function Dot(a: Vec3, b: Vec3): int
  {
    a[0] * b[0] + a[1] * b[1] + a[2] * b[2]
  }

  /**
    The right-handed cross product of two 3-vectors, i.e. the vector the
    script's `vec_cross` returns for three-dimensional arguments. Its
    contract is the defining geometric fact: the result is perpendicular
    to both arguments.
   */
  function Cross(u: Vec3, v: Vec3): (w: Vec3)
    ensures Dot(w, u) == 0 && Dot(w, v) == 0
  {
    [u[1] * v[2] - u[2] * v[1], u[2] * v[0] - u[0] * v[2], u[0] * v[1] - u[1] * v[0]]
  }

  /** Component `i` of `vec_cross` as its loop computes it: index 0 uses
      axes (1, 2), index 1 axes (2, 0) and every later index axes (0, 1). */
  function CrossAt(u: Vec, v: Vec, i: nat): (c: int)
    requires 3 <= |u| && |u| == |v|
    ensures |u| == 3 && i < 3 ==> c == Cross(u, v)[i]
    ensures i >= 2 ==> c == Cross(u[..3], v[..3])[2]
  {
    if i == 0 then u[1] * v[2] - u[2] * v[1]
    else if i == 1 then u[2] * v[0] - u[0] * v[2]
    else u[0] * v[1] - u[1] * v[0]
  }

  /** The Python `IndexError` that `vec_cross` raises on one- and two-dimensional input. */
  datatype CrossError = IndexOutOfRange

  /**
    `vec_cross`: appends one component per input dimension. On 3-vectors it is
    the cross product; on 1- or 2-vectors the first iteration indexes past the
    end; the empty input gives the empty list; beyond three dimensions every
    extra component repeats the third one.
   */
  method VecCross(u: Vec, v: Vec) returns (r: Result<Vec, CrossError>)
    requires |u| == |v|
    ensures r.Err? <==> |u| == 1 || |u| == 2
    ensures r.Ok? ==> |r.value| == |u|
    ensures r.Ok? ==> forall i :: 0 <= i < |u| ==> r.value[i] == CrossAt(u, v, i)
    ensures |u| == 3 ==> r.Ok? && r.value == Cross(u, v)
  {
    var dim := |u|;
    var s: Vec := [];
    var i := 0;
    while i < dim
      invariant 0 <= i <= dim
      invariant i > 0 ==> dim >= 3
      invariant |s| == i
      invariant forall k :: 0 <= k < i ==> s[k] == CrossAt(u, v, k)
    {
      var j, k;
      if i == 0 {
        j, k := 1, 2;
      } else if i == 1 {
        j, k := 2, 0;
      } else {
        j, k := 0, 1;
      }
      if j >= dim || k >= dim {
        return Err(IndexOutOfRange);
      }
      s := s + [u[j] * v[k] - u[k] * v[j]];
      i := i + 1;
    }
    r := Ok(s);
  }

  /** The cross product is anti-commutative. */
  lemma CrossAntiCommutative(u: Vec3, v: Vec3)
    ensures Cross(u, v) == Scale(Cross(v, u), -1)
  {
  }

  /** A vector crossed with itself is the zero vector. */
  lemma CrossSelfZero(u: Vec3)
    ensures Cross(u, u) == Zero3
  {
  }

  /** Integer step for one cross-product component under scaling. */
  lemma ScaledDifference(x: int, y: int, z: int, w: int, a: int, b: int, c: int, d: int, k: int)
    requires x == a * k && y == b * k && z == c * k && w == d * k
    ensures x * y - z * w == (a * b - c * d) * (k * k)
  {
    assert (a * k) * (b * k) == (a * b) * (k * k);
    assert (c * k) * (d * k) == (c * d) * (k * k);
  }

  /** The cross product is bilinear: scaling both arguments by `k` scales it by `k * k`. */
  lemma CrossScale(u: Vec3, v: Vec3, k: int)
    ensures Cross(Scale(u, k), Scale(v, k)) == Scale(Cross(u, v), k * k)
  {
    var su, sv := Scale(u, k), Scale(v, k);
    ScaledDifference(su[1], sv[2], su[2], sv[1], u[1], v[2], u[2], v[1], k);
    ScaledDifference(su[2], sv[0], su[0], sv[2], u[2], v[0], u[0], v[2], k);
    ScaledDifference(su[0], sv[1], su[1], sv[0], u[0], v[1], u[1], v[0], k);
    var l, r := Cross(su, sv), Scale(Cross(u, v), k * k);
    assert l[0] == r[0] && l[1] == r[1] && l[2] == r[2];
  }

  /** Collinear edge vectors (one a multiple of the other) have a zero cross product. */
  lemma CrossParallelZero(u: Vec3, t: int)
    ensures Cross(u, Scale(u, t)) == Zero3
  {
    var w := Scale(u, t);
    assert u[1] * (u[2] * t) == u[2] * (u[1] * t);
    assert u[2] * (u[0] * t) == u[0] * (u[2] * t);
    assert u[0] * (u[1] * t) == u[1] * (u[0] * t);
  }

  /** The radicand of `vec_len`: the sum of the squared components, summed left to right. */
  function SumSquares(a: Vec): (r: int)
    ensures r >= 0
  {
    if a == [] then 0 else SumSquares(a[..|a| - 1]) + a[|a| - 1] * a[|a| - 1]
  }

  /** On 3-vectors the sum of squares is the vector's dot product with itself. */
  lemma SumSquaresIsDot(a: Vec3)
    ensures SumSquares(a) == Dot(a, a)
  {
    var a1, a2 := a[..1], a[..2];
    assert a2[..1] == a1 && a1[..0] == [];
    assert SumSquares(a1) == a[0] * a[0];
    assert SumSquares(a2) == a[0] * a[0] + a[1] * a[1];
    assert a[..2] == a2;
  }

  /** The sum of squares is zero exactly on the zero vector. */
  lemma SumSquaresZero(a: Vec3)
    ensures SumSquares(a) == 0 <==> a == Zero3
  {
    SumSquaresIsDot(a);
    if a[0] == 0 && a[1] == 0 && a[2] == 0 {
      assert a == Zero3;
    }
  }

  /** Scaling a 3-vector by `k` scales its sum of squares by `k * k`. */
  lemma SumSquaresScale(a: Vec3, k: int)
    ensures SumSquares(Scale(a, k)) == k * k * SumSquares(a)
  {
    var b := Scale(a, k);
    SumSquaresIsDot(a);
    SumSquaresIsDot(b);
    assert b[0] * b[0] == k * k * (a[0] * a[0]);
    assert b[1] * b[1] == k * k * (a[1] * a[1]);
    assert b[2] * b[2] == k * k * (a[2] * a[2]);
  }
}
