/**
  The triangle soup of test2.py: a triangle is a triple of corner points,
  the script's mesh is a fixed list of twelve triangles (a cube with corners
  at +-1) that is then scaled by 5, and each triangle's facet normal is the
  cross product of two of its edge vectors.
 */
module Mesh {
  import opened Vectors

  /** One triangle as the script stores it: corners v0, v1, v2 in winding order. */
  datatype Triangle = Triangle(v0: Vec3, v1: Vec3, v2: Vec3)

  /** The factor of the scaling comprehension. */
  const ScaleFactor: int := 5

  /** One element of the scaling comprehension: every coordinate times five. */
  function ScaleTriangle(t: Triangle): (r: Triangle)
    ensures r == Triangle(Scale(t.v0, ScaleFactor), Scale(t.v1, ScaleFactor), Scale(t.v2, ScaleFactor))
  {
    var a, b, c := t.v0, t.v1, t.v2;
    Triangle([a[0] * 5, a[1] * 5, a[2] * 5], [b[0] * 5, b[1] * 5, b[2] * 5], [c[0] * 5, c[1] * 5, c[2] * 5])
  }

  /**
    The scaling comprehension: the same number of triangles, in the same
    order, each one's corners scaled componentwise by five (what `vec_scale`
    with factor 5 does to each corner).
   */
  function ScaleTriangles(ts: seq<Triangle>): (r: seq<Triangle>)
    ensures |r| == |ts|
    ensures forall i :: 0 <= i < |ts| ==>
      r[i] == Triangle(Scale(ts[i].v0, ScaleFactor), Scale(ts[i].v1, ScaleFactor), Scale(ts[i].v2, ScaleFactor))
  {
    seq(|ts|, i requires 0 <= i < |ts| => ScaleTriangle(ts[i]))
  }

  /** The right-hand-rule normal of the winding v0, v1, v2: (v1 - v0) x (v2 - v0). */
  function RightHandNormal(t: Triangle): Vec3
  {
    Cross(Sub(t.v1, t.v0), Sub(t.v2, t.v0))
  }

  /**
    The unnormalised normal the writer loop computes,
    `vec_cross(vec_sub(v0, v1), vec_sub(v1, v2))`. It is the right-hand-rule
    normal of the winding, so it is perpendicular to both edges at v0.
   */
  function RawNormal(t: Triangle): (n: Vec3)
    ensures n == RightHandNormal(t)
    ensures Dot(n, Sub(t.v1, t.v0)) == 0 && Dot(n, Sub(t.v2, t.v0)) == 0
  {
    var a, b, c := t.v0, t.v1, t.v2;
    var n := Cross(Sub(a, b), Sub(b, c));
    var p, q := Sub(b, a), Sub(c, a);
    assert n[0] == p[1] * q[2] - p[2] * q[1];
    assert n[1] == p[2] * q[0] - p[0] * q[2];
    assert n[2] == p[0] * q[1] - p[1] * q[0];
    n
  }

  /** A triangle is degenerate when its normal is the zero vector. */
  predicate Degenerate(t: Triangle)
  {
    RawNormal(t) == Zero3
  }

  /** The special case of collinear corners where v2 - v0 is an integer multiple of v1 - v0. */
  lemma CollinearIsDegenerate(t: Triangle, s: int)
    requires Sub(t.v2, t.v0) == Scale(Sub(t.v1, t.v0), s)
    ensures Degenerate(t)
    ensures SumSquares(RawNormal(t)) == 0
  {
    CrossParallelZero(Sub(t.v1, t.v0), s);
    SumSquaresZero(RawNormal(t));
  }

  /**
    The three corners lie on one line: some non-trivial combination
    a (v2 - v0) = b (v1 - v0) holds. This covers coincident corners too.
   */
  ghost predicate Collinear(t: Triangle)
  {
    exists a: int, b: int :: (a != 0 || b != 0) && Scale(Sub(t.v2, t.v0), a) == Scale(Sub(t.v1, t.v0), b)
  }

  /** One normal component vanishes when a q = b p on its two axes and a is non-zero. */
  lemma ProportionalMinor(p1: int, p2: int, q1: int, q2: int, a: int, b: int)
    requires a != 0 && a * q1 == b * p1 && a * q2 == b * p2
    ensures p1 * q2 - p2 * q1 == 0
  {
    calc {
      a * (p1 * q2 - p2 * q1);
      p1 * (a * q2) - p2 * (a * q1);
      p1 * (b * p2) - p2 * (b * p1);
      0;
    }
  }

  /** Collinear corners give the zero normal. */
  lemma CollinearDegenerate(t: Triangle, a: int, b: int)
    requires a != 0 || b != 0
    requires Scale(Sub(t.v2, t.v0), a) == Scale(Sub(t.v1, t.v0), b)
    ensures Degenerate(t)
  {
    var p, q := Sub(t.v1, t.v0), Sub(t.v2, t.v0);
    var aq, bp := Scale(q, a), Scale(p, b);
    assert aq[0] == bp[0] && aq[1] == bp[1] && aq[2] == bp[2];
    if a == 0 {
      assert p == Zero3;
    } else {
      ProportionalMinor(p[1], p[2], q[1], q[2], a, b);
      ProportionalMinor(p[2], p[0], q[2], q[0], a, b);
      ProportionalMinor(p[0], p[1], q[0], q[1], a, b);
    }
    assert Cross(p, q) == Zero3;
  }

  /** The zero normal arises exactly from collinear corners. */
  lemma DegenerateIffCollinear(t: Triangle)
    ensures Degenerate(t) <==> Collinear(t)
  {
    var p, q := Sub(t.v1, t.v0), Sub(t.v2, t.v0);
    if Collinear(t) {
      var a, b :| (a != 0 || b != 0) && Scale(q, a) == Scale(p, b);
      CollinearDegenerate(t, a, b);
    }
    if Degenerate(t) {
      var n := RawNormal(t);
      assert n == Cross(p, q);
      assert p[1] * q[2] == p[2] * q[1] && p[2] * q[0] == p[0] * q[2] && p[0] * q[1] == p[1] * q[0];
      var a, b := 0, 1;
      if p[0] != 0 {
        a, b := p[0], q[0];
      } else if p[1] != 0 {
        a, b := p[1], q[1];
      } else if p[2] != 0 {
        a, b := p[2], q[2];
      }
      var aq, bp := Scale(q, a), Scale(p, b);
      assert aq[0] == bp[0] && aq[1] == bp[1] && aq[2] == bp[2];
      assert aq == bp;
    }
  }

  /** Scaling a triangle by five scales its normal by twenty-five, so its direction is kept. */
  lemma ScaledNormal(t: Triangle)
    ensures RawNormal(ScaleTriangle(t)) == Scale(RawNormal(t), ScaleFactor * ScaleFactor)
  {
    var k := ScaleFactor;
    var st := ScaleTriangle(t);
    SubScale(t.v1, t.v0, k);
    SubScale(t.v2, t.v0, k);
    CrossScale(Sub(t.v1, t.v0), Sub(t.v2, t.v0), k);
  }

  /** Scaling keeps degenerate triangles degenerate and the others not. */
  lemma ScalingKeepsDegeneracy(t: Triangle)
    ensures Degenerate(ScaleTriangle(t)) <==> Degenerate(t)
  {
    ScaledNormal(t);
    var n := RawNormal(t);
    var m := Scale(n, ScaleFactor * ScaleFactor);
    if m == Zero3 {
      assert m[0] == 0 && m[1] == 0 && m[2] == 0;
      assert n == Zero3;
    }
  }

  /** The twelve triangles of the cube as the script lists them, two per face. */
  const CubeTriangles: seq<Triangle> := [
    Triangle([-1, -1, -1], [-1, -1,  1], [-1,  1,  1]),
    Triangle([ 1,  1, -1], [-1, -1, -1], [-1,  1, -1]),
    Triangle([ 1, -1,  1], [-1, -1, -1], [ 1, -1, -1]),
    Triangle([ 1,  1, -1], [ 1, -1, -1], [-1, -1, -1]),
    Triangle([-1, -1, -1], [-1,  1,  1], [-1,  1, -1]),
    Triangle([ 1, -1,  1], [-1, -1,  1], [-1, -1, -1]),
    Triangle([-1,  1,  1], [-1, -1,  1], [ 1, -1,  1]),
    Triangle([ 1,  1,  1], [ 1, -1, -1], [ 1,  1, -1]),
    Triangle([ 1, -1, -1], [ 1,  1,  1], [ 1, -1,  1]),
    Triangle([ 1,  1,  1], [ 1,  1, -1], [-1,  1, -1]),
    Triangle([ 1,  1,  1], [-1,  1, -1], [-1,  1,  1]),
    Triangle([ 1,  1,  1], [-1,  1,  1], [ 1, -1,  1])
  ]

  /** A vertex of the cube with edge two centred at the origin. */
  predicate CubeCorner(v: Vec3)
  {
    (v[0] == -1 || v[0] == 1) && (v[1] == -1 || v[1] == 1) && (v[2] == -1 || v[2] == 1)
  }

  /** Three distinct cube vertices sharing one coordinate: half of a face of the cube. */
  predicate HalfFace(t: Triangle)
  {
    CubeCorner(t.v0) && CubeCorner(t.v1) && CubeCorner(t.v2) &&
    t.v0 != t.v1 && t.v1 != t.v2 && t.v0 != t.v2 &&
    ((t.v0[0] == t.v1[0] == t.v2[0]) || (t.v0[1] == t.v1[1] == t.v2[1]) || (t.v0[2] == t.v1[2] == t.v2[2]))
  }

  lemma HalfFaceAt(i: nat)
    requires i < 12
    ensures HalfFace(CubeTriangles[i])
  {
    var c := CubeTriangles;
    if i < 6 {
      if i == 0 { assert HalfFace(c[0]); }
      else if i == 1 { assert HalfFace(c[1]); }
      else if i == 2 { assert HalfFace(c[2]); }
      else if i == 3 { assert HalfFace(c[3]); }
      else if i == 4 { assert HalfFace(c[4]); }
      else { assert HalfFace(c[5]); }
    } else {
      if i == 6 { assert HalfFace(c[6]); }
      else if i == 7 { assert HalfFace(c[7]); }
      else if i == 8 { assert HalfFace(c[8]); }
      else if i == 9 { assert HalfFace(c[9]); }
      else if i == 10 { assert HalfFace(c[10]); }
      else { assert HalfFace(c[11]); }
    }
  }

  /** The list holds twelve triangles, each half of a face of the cube. */
  lemma CubeTrianglesHalfFaces()
    ensures |CubeTriangles| == 12
    ensures forall i :: 0 <= i < 12 ==> HalfFace(CubeTriangles[i])
  {
    forall i | 0 <= i < 12 ensures HalfFace(CubeTriangles[i]) { HalfFaceAt(i); }
  }

  /** The mesh the script writes: the cube scaled by five. */
  function ScriptTriangles(): (r: seq<Triangle>)
    ensures |r| == 12
  {
    ScaleTriangles(CubeTriangles)
  }

  /** A triangle whose normal is non-zero and points away from the origin, seen from its first corner. */
  predicate Outward(t: Triangle)
  {
    !Degenerate(t) && Dot(RawNormal(t), t.v0) > 0
  }

  /** The normal written out coordinate by coordinate. */
  lemma RawNormalExplicit(t: Triangle)
    ensures RawNormal(t) == [
      (t.v1[1] - t.v0[1]) * (t.v2[2] - t.v0[2]) - (t.v1[2] - t.v0[2]) * (t.v2[1] - t.v0[1]),
      (t.v1[2] - t.v0[2]) * (t.v2[0] - t.v0[0]) - (t.v1[0] - t.v0[0]) * (t.v2[2] - t.v0[2]),
      (t.v1[0] - t.v0[0]) * (t.v2[1] - t.v0[1]) - (t.v1[1] - t.v0[1]) * (t.v2[0] - t.v0[0])]
  {
  }

  /** A triangle is outward when the normal formula, dotted with its first corner, is positive. */
  lemma OutwardByFormula(t: Triangle)
    requires
      var p, q := Sub(t.v1, t.v0), Sub(t.v2, t.v0);
      (p[1] * q[2] - p[2] * q[1]) * t.v0[0] + (p[2] * q[0] - p[0] * q[2]) * t.v0[1]
        + (p[0] * q[1] - p[1] * q[0]) * t.v0[2] > 0
    ensures Outward(t)
  {
    RawNormalExplicit(t);
  }

  /** The cube triangles 0 to 3, 4 to 7 and 8 to 11 are outward. */
  lemma CubeOutwardLow(i: nat)
    requires i < 4
    ensures Outward(CubeTriangles[i])
  {
    var c := CubeTriangles;
    if i == 0 { OutwardByFormula(c[0]); }
    else if i == 1 { OutwardByFormula(c[1]); }
    else if i == 2 { OutwardByFormula(c[2]); }
    else { OutwardByFormula(c[3]); }
  }

  lemma CubeOutwardMiddle(i: nat)
    requires 4 <= i < 8
    ensures Outward(CubeTriangles[i])
  {
    var c := CubeTriangles;
    if i == 4 { OutwardByFormula(c[4]); }
    else if i == 5 { OutwardByFormula(c[5]); }
    else if i == 6 { OutwardByFormula(c[6]); }
    else { OutwardByFormula(c[7]); }
  }

  lemma CubeOutwardHigh(i: nat)
    requires 8 <= i < 12
    ensures Outward(CubeTriangles[i])
  {
    var c := CubeTriangles;
    if i == 8 { OutwardByFormula(c[8]); }
    else if i == 9 { OutwardByFormula(c[9]); }
    else if i == 10 { OutwardByFormula(c[10]); }
    else { OutwardByFormula(c[11]); }
  }

  /** Every cube triangle has a non-zero normal pointing away from the centre of the cube. */
  lemma CubeFacesOutward()
    ensures forall i :: 0 <= i < |CubeTriangles| ==> Outward(CubeTriangles[i])
  {
    forall i | 0 <= i < |CubeTriangles|
      ensures Outward(CubeTriangles[i])
    {
      if i < 4 {
        CubeOutwardLow(i);
      } else if i < 8 {
        CubeOutwardMiddle(i);
      } else {
        CubeOutwardHigh(i);
      }
    }
  }

  /** Scaling both arguments of a dot product scales it by the product of the factors. */
  lemma DotScale(a: Vec3, b: Vec3, s: int, k: int)
    ensures Dot(Scale(a, s), Scale(b, k)) == s * k * Dot(a, b)
  {
    var sa, sb := Scale(a, s), Scale(b, k);
    assert sa[0] * sb[0] == s * k * (a[0] * b[0]);
    assert sa[1] * sb[1] == s * k * (a[1] * b[1]);
    assert sa[2] * sb[2] == s * k * (a[2] * b[2]);
  }

  /** Scaling by five keeps a triangle outward-facing. */
  lemma ScalingKeepsOutward(t: Triangle)
    requires Outward(t)
    ensures Outward(ScaleTriangle(t))
  {
    ScalingKeepsDegeneracy(t);
    ScaledNormal(t);
    DotScale(RawNormal(t), t.v0, ScaleFactor * ScaleFactor, ScaleFactor);
  }

  /** The scaled cube the script writes keeps all twelve normals non-zero and outward. */
  lemma ScriptFacesOutward()
    ensures forall i :: 0 <= i < |ScriptTriangles()| ==> Outward(ScriptTriangles()[i])
  {
    CubeFacesOutward();
    forall i | 0 <= i < 12
      ensures Outward(ScriptTriangles()[i])
    {
      assert ScriptTriangles()[i] == ScaleTriangle(CubeTriangles[i]);
      ScalingKeepsOutward(CubeTriangles[i]);
    }
  }
}
