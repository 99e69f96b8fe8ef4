/**
  The writer loop of test2.py: for every triangle it computes the normal
  `vec_cross(vec_sub(v0, v1), vec_sub(v1, v2))`, divides it by its length
  and writes the normal, the three corners and a zero attribute.

  Two float operations are parameters of the model: `round` gives the
  float32 bit pattern that `struct.pack('<f')` stores for a value, and
  `sqrt` is the `** 0.5` inside `vec_len`.
 */
module StlWriter {
  import opened Outcomes
  import opened LittleEndian
  import opened Vectors
  import opened Mesh
  import opened StlFormat

  type RealVec3 = v: seq<real> | |v| == 3 witness [0.0, 0.0, 0.0]

  /** A corner or normal as the floats the script holds. */
  function AsReal(v: Vec3): (r: RealVec3)
    ensures forall i :: 0 <= i < 3 ==> r[i] == v[i] as real
  {
    [v[0] as real, v[1] as real, v[2] as real]
  }

  /**
    `vec_scale` with a float factor. The integer `Scale` of the vectors
    module covers the integer factor 5; the factor `1 / len` of the normal
    is not an integer, hence this real version (see `AsRealScale`).
   */
  function ScaleReal(a: RealVec3, s: real): (r: RealVec3)
    ensures forall i :: 0 <= i < 3 ==> r[i] == a[i] * s
  {
    [a[0] * s, a[1] * s, a[2] * s]
  }

  /** On integer vectors both scalings agree. */
  lemma AsRealScale(a: Vec3, k: int)
    ensures ScaleReal(AsReal(a), k as real) == AsReal(Scale(a, k))
  {
    var l, r := ScaleReal(AsReal(a), k as real), AsReal(Scale(a, k));
    assert l[0] == r[0] && l[1] == r[1] && l[2] == r[2];
  }

  /**
    The dot product on the floats of the unit normal; `Dot` of the vectors
    module is its integer counterpart (see `AsRealDot`).
   */
  function RealDot(a: RealVec3, b: RealVec3): real
  {
    a[0] * b[0] + a[1] * b[1] + a[2] * b[2]
  }

  /** On integer vectors both dot products agree. */
  lemma AsRealDot(a: Vec3, b: Vec3)
    ensures RealDot(AsReal(a), AsReal(b)) == Dot(a, b) as real
  {
    assert (a[0] * b[0]) as real == a[0] as real * b[0] as real;
    assert (a[1] * b[1]) as real == a[1] as real * b[1] as real;
    assert (a[2] * b[2]) as real == a[2] as real * b[2] as real;
  }

  /** `vec_len(n)`: the square root of the sum of the squared components. */
  function VecLen(n: Vec3, sqrt: real -> real): (len: real)
    ensures SqrtLike(sqrt) ==> len >= 0.0 && (len == 0.0 <==> n == Zero3)
  {
    SumSquaresZero(n);
    sqrt(SumSquares(n) as real)
  }

  /** What the script needs of `** 0.5`: it is zero exactly at zero, and positive elsewhere. */
  ghost predicate SqrtLike(sqrt: real -> real)
  {
    forall x: real :: x >= 0.0 ==> (sqrt(x) == 0.0 <==> x == 0.0) && sqrt(x) >= 0.0
  }

  /** `vec_scale(n, 1 / len)`. */
  function UnitNormal(n: Vec3, len: real): (u: RealVec3)
    requires len != 0.0
    ensures forall i :: 0 <= i < 3 ==> u[i] * len == n[i] as real
  {
    ScaleReal(AsReal(n), 1.0 / len)
  }

  /** `struct.pack('<fff', ...)` of three floats, as bit patterns. */
  function Pack(round: real -> Float32Bits, v: RealVec3): (p: Packed3)
    ensures p.x == round(v[0]) && p.y == round(v[1]) && p.z == round(v[2])
  {
    Packed3(round(v[0]), round(v[1]), round(v[2]))
  }

  /** The record written for `t` when its normal has length `len`. */
  function FacetOf(t: Triangle, round: real -> Float32Bits, len: real): (f: Facet)
    requires len != 0.0
  {
    Facet(Pack(round, UnitNormal(RawNormal(t), len)),
          Pack(round, AsReal(t.v0)), Pack(round, AsReal(t.v1)), Pack(round, AsReal(t.v2)), 0)
  }

  /**
    The writer's failures: `struct.pack('<I')` rejects a count of 2^32 or
    more, and `1 / vec_len(n)` raises ZeroDivisionError at the triangle
    with the given index.
   */
  datatype WriteError = CountOverflow | ZeroDivision(index: nat)

  /** The record for one triangle, or None when `1 / vec_len(n)` divides by zero. */
  function FacetFor(t: Triangle, round: real -> Float32Bits, sqrt: real -> real): (r: Option<Facet>)
    ensures r.None? <==> VecLen(RawNormal(t), sqrt) == 0.0
    ensures SqrtLike(sqrt) ==> (r.None? <==> Degenerate(t))
    ensures r.Some? ==> r.value == FacetOf(t, round, VecLen(RawNormal(t), sqrt))
  {
    var len := VecLen(RawNormal(t), sqrt);
    if len == 0.0 then None else Some(FacetOf(t, round, len))
  }

  function FacetStep(round: real -> Float32Bits, sqrt: real -> real): Triangle -> Option<Facet>
  {
    t => FacetFor(t, round, sqrt)
  }

  /** The records for `tris` in order, or the first triangle whose normal has length zero. */
  function Facets(tris: seq<Triangle>, round: real -> Float32Bits, sqrt: real -> real): (r: Result<seq<Facet>, WriteError>)
    ensures r.Ok? ==> |r.value| == |tris|
    ensures r.Err? ==> r.error.ZeroDivision? && r.error.index < |tris|
  {
    TryMapSpec(FacetStep(round, sqrt), tris);
    match TryMap(FacetStep(round, sqrt), tris)
    case Ok(fs) => Ok(fs)
    case Err(k) => Err(ZeroDivision(k))
  }

  /**
    The records are produced exactly when no normal has length zero; then
    record `i` belongs to triangle `i`. Otherwise the error names the first
    triangle whose normal has length zero.
   */
  lemma FacetsSpec(tris: seq<Triangle>, round: real -> Float32Bits, sqrt: real -> real)
    ensures Facets(tris, round, sqrt).Ok? <==> forall i :: 0 <= i < |tris| ==> VecLen(RawNormal(tris[i]), sqrt) != 0.0
    ensures Facets(tris, round, sqrt).Ok? ==>
      var fs := Facets(tris, round, sqrt).value;
      |fs| == |tris| &&
      forall i :: 0 <= i < |tris| ==>
        (VecLen(RawNormal(tris[i]), sqrt) != 0.0 && fs[i] == FacetOf(tris[i], round, VecLen(RawNormal(tris[i]), sqrt)))
    ensures Facets(tris, round, sqrt).Err? ==>
      var e := Facets(tris, round, sqrt).error;
      e.ZeroDivision? && e.index < |tris| && VecLen(RawNormal(tris[e.index]), sqrt) == 0.0 &&
      forall j :: 0 <= j < e.index ==> VecLen(RawNormal(tris[j]), sqrt) != 0.0
  {
    var step := FacetStep(round, sqrt);
    TryMapSpec(step, tris);
    assert forall i :: 0 <= i < |tris| ==> step(tris[i]) == FacetFor(tris[i], round, sqrt);
  }

  /** The whole file, or the error at which the script stops. */
  function WriteFile(header: seq<byte>, tris: seq<Triangle>, round: real -> Float32Bits, sqrt: real -> real)
    : (r: Result<seq<byte>, WriteError>)
    requires |header| == HeaderSize
    ensures r == Err(CountOverflow) <==> |tris| >= MaxCount
    ensures r.Ok? <==> |tris| < MaxCount && forall i :: 0 <= i < |tris| ==> VecLen(RawNormal(tris[i]), sqrt) != 0.0
    ensures r.Ok? ==>
      |r.value| == RecordsOffset + RecordSize * |tris| && r.value[..HeaderSize] == header &&
      DecodeU32(r.value[HeaderSize..RecordsOffset]) == |tris|
  {
    FacetsSpec(tris, round, sqrt);
    if |tris| >= MaxCount then Err(CountOverflow)
    else
      match Facets(tris, round, sqrt)
      case Err(e) => Err(e)
      case Ok(fs) => Ok(Encode(header, fs))
  }

  /**
    Record `i` of a written file starts at byte 84 + 50 i and holds the
    unit normal, the three corners in order and a zero attribute.
   */
  lemma WrittenRecordAt(header: seq<byte>, tris: seq<Triangle>, round: real -> Float32Bits, sqrt: real -> real, i: nat)
    requires |header| == HeaderSize && WriteFile(header, tris, round, sqrt).Ok? && i < |tris|
    ensures var bs := WriteFile(header, tris, round, sqrt).value;
      var p := RecordsOffset + RecordSize * i;
      var t := tris[i];
      var len := VecLen(RawNormal(t), sqrt);
      len != 0.0 && p + RecordSize <= |bs| &&
      bs[p..p + 12] == EncodePacked3(Pack(round, UnitNormal(RawNormal(t), len))) &&
      bs[p + 12..p + 24] == EncodePacked3(Pack(round, AsReal(t.v0))) &&
      bs[p + 24..p + 36] == EncodePacked3(Pack(round, AsReal(t.v1))) &&
      bs[p + 36..p + 48] == EncodePacked3(Pack(round, AsReal(t.v2))) &&
      bs[p + 48..p + 50] == [0, 0]
  {
    FacetsSpec(tris, round, sqrt);
    var fs := Facets(tris, round, sqrt).value;
    assert WriteFile(header, tris, round, sqrt).value == Encode(header, fs);
    EncodeFieldsAt(header, fs, i);
  }

  /** Reading a written file back, whatever follows it, gives the header and the records the writer produced. */
  lemma ReadBackWritten(header: seq<byte>, tris: seq<Triangle>, round: real -> Float32Bits, sqrt: real -> real,
                        trailing: seq<byte>)
    requires |header| == HeaderSize && WriteFile(header, tris, round, sqrt).Ok?
    ensures Facets(tris, round, sqrt).Ok?
    ensures Parse(WriteFile(header, tris, round, sqrt).value + trailing)
         == Ok(StlFile(header, Facets(tris, round, sqrt).value))
  {
    FacetsSpec(tris, round, sqrt);
    ParseEncode(header, Facets(tris, round, sqrt).value, trailing);
  }

  /** With a square root that is zero only at zero, `1 / vec_len(n)` fails exactly on a degenerate triangle. */
  lemma ZeroLengthIffDegenerate(t: Triangle, sqrt: real -> real)
    requires SqrtLike(sqrt)
    ensures VecLen(RawNormal(t), sqrt) == 0.0 <==> Degenerate(t)
  {
    SumSquaresZero(RawNormal(t));
  }

  /**
    With such a square root, the file is written exactly when the count fits
    and no triangle is degenerate; otherwise the writer stops at the first
    degenerate triangle.
   */
  lemma WriteFileDegenerate(header: seq<byte>, tris: seq<Triangle>, round: real -> Float32Bits, sqrt: real -> real)
    requires |header| == HeaderSize && SqrtLike(sqrt)
    ensures WriteFile(header, tris, round, sqrt).Ok? <==>
      |tris| < MaxCount && forall i :: 0 <= i < |tris| ==> !Degenerate(tris[i])
    ensures var r := WriteFile(header, tris, round, sqrt);
      r.Err? && r.error.ZeroDivision? ==>
        r.error.index < |tris| && Degenerate(tris[r.error.index]) &&
        forall j :: 0 <= j < r.error.index ==> !Degenerate(tris[j])
  {
    FacetsSpec(tris, round, sqrt);
    forall i | 0 <= i < |tris| {
      ZeroLengthIffDegenerate(tris[i], sqrt);
    }
  }

  /** The dot product of a scaled vector with another one, as floats. */
  lemma RealDotScale(a: Vec3, b: Vec3, c: real)
    ensures RealDot(ScaleReal(AsReal(a), c), AsReal(b)) == c * (Dot(a, b) as real)
  {
    var x, y := AsReal(a), AsReal(b);
    assert x[0] * c * y[0] == c * (a[0] * b[0]) as real;
    assert x[1] * c * y[1] == c * (a[1] * b[1]) as real;
    assert x[2] * c * y[2] == c * (a[2] * b[2]) as real;
  }

  /** The written normal is perpendicular to both edges of the triangle at its first corner. */
  lemma UnitNormalPerpendicular(t: Triangle, len: real)
    requires len != 0.0
    ensures RealDot(UnitNormal(RawNormal(t), len), AsReal(Sub(t.v1, t.v0))) == 0.0
    ensures RealDot(UnitNormal(RawNormal(t), len), AsReal(Sub(t.v2, t.v0))) == 0.0
  {
    RealDotScale(RawNormal(t), Sub(t.v1, t.v0), 1.0 / len);
    RealDotScale(RawNormal(t), Sub(t.v2, t.v0), 1.0 / len);
  }

  /** Dividing by a positive length keeps an outward normal pointing outward. */
  lemma UnitNormalOutward(t: Triangle, len: real)
    requires len > 0.0 && Outward(t)
    ensures RealDot(UnitNormal(RawNormal(t), len), AsReal(t.v0)) > 0.0
  {
    RealDotScale(RawNormal(t), t.v0, 1.0 / len);
    var d := Dot(RawNormal(t), t.v0) as real;
    assert d > 0.0;
    assert 1.0 / len > 0.0;
    assert (1.0 / len) * d > 0.0;
  }

  /**
    One turn of the writer loop: the record built from the normal `n` of
    length `len` is FacetFor's record for the triangle, and appending its
    bytes keeps the output equal to the encoding of the records so far.
   */
  lemma WriteStep(tris: seq<Triangle>, i: nat, round: real -> Float32Bits, sqrt: real -> real,
                  fs: seq<Facet>, prefix: seq<byte>, n: Vec3, len: real)
    requires i < |tris| && TryMap(FacetStep(round, sqrt), tris[..i]) == Ok(fs)
    requires n == RawNormal(tris[i]) && len == sqrt(SumSquares(n) as real) && len != 0.0
    ensures var t := tris[i];
      var f := Facet(Pack(round, ScaleReal(AsReal(n), 1.0 / len)), Pack(round, AsReal(t.v0)),
                     Pack(round, AsReal(t.v1)), Pack(round, AsReal(t.v2)), 0);
      TryMap(FacetStep(round, sqrt), tris[..i + 1]) == Ok(fs + [f]) &&
      prefix + EncodeFacets(fs) + EncodeFacet(f) == prefix + EncodeFacets(fs + [f])
  {
    var t := tris[i];
    var f := Facet(Pack(round, ScaleReal(AsReal(n), 1.0 / len)), Pack(round, AsReal(t.v0)),
                   Pack(round, AsReal(t.v1)), Pack(round, AsReal(t.v2)), 0);
    assert FacetStep(round, sqrt)(t) == Some(f);
    TryMapExtend(FacetStep(round, sqrt), tris, i, fs);
    EncodeFacetsAppend(fs, f);
  }

  /** When every triangle yields a record, the file is the header, the count and the records. */
  lemma WriteFileOk(header: seq<byte>, tris: seq<Triangle>, round: real -> Float32Bits, sqrt: real -> real, fs: seq<Facet>)
    requires |header| == HeaderSize && |tris| < MaxCount
    requires TryMap(FacetStep(round, sqrt), tris) == Ok(fs)
    ensures WriteFile(header, tris, round, sqrt) == Ok(header + EncodeU32(|tris|) + EncodeFacets(fs))
  {
  }

  /** When triangle `i` is the first without a record, writing stops there. */
  lemma WriteFileStop(header: seq<byte>, tris: seq<Triangle>, round: real -> Float32Bits, sqrt: real -> real, i: nat)
    requires |header| == HeaderSize && |tris| < MaxCount
    requires TryMap(FacetStep(round, sqrt), tris) == Err(i)
    ensures WriteFile(header, tris, round, sqrt) == Err(ZeroDivision(i))
  {
  }

  /** `n = vec_cross(vec_sub(tri[0], tri[1]), vec_sub(tri[1], tri[2]))`. */
  method ComputeNormal(tri: Triangle) returns (n: Vec3)
    ensures n == RawNormal(tri)
  {
    var n1 := Sub(tri.v0, tri.v1);
    var n2 := Sub(tri.v1, tri.v2);
    var cross := VecCross(n1, n2);
    n := cross.value;
  }

  /** The five `fp.write` calls of one record: normal, three corners, attribute. */
  method AppendRecord(out: seq<byte>, f: Facet) returns (out': seq<byte>)
    ensures out' == out + EncodeFacet(f)
  {
    out' := out + EncodePacked3(f.normal);
    out' := out' + EncodePacked3(f.v0);
    out' := out' + EncodePacked3(f.v1);
    out' := out' + EncodePacked3(f.v2);
    out' := out' + EncodeU16(f.attribute);
  }

  /**
    The writer loop: the output grows by one 50-byte record per triangle, so
    after `i` triangles the next record starts at byte 84 + 50 i.
   */
  method WriteStl(header: seq<byte>, tris: seq<Triangle>, round: real -> Float32Bits, sqrt: real -> real)
    returns (r: Result<seq<byte>, WriteError>)
    requires |header| == HeaderSize
    ensures r == WriteFile(header, tris, round, sqrt)
  {
    var out := header;
    if |tris| >= MaxCount {
      return Err(CountOverflow);
    }
    out := out + EncodeU32(|tris|);
    ghost var fs: seq<Facet> := [];
    var i := 0;
    while i < |tris|
      invariant 0 <= i <= |tris|
      invariant TryMap(FacetStep(round, sqrt), tris[..i]) == Ok(fs)
      invariant out == header + EncodeU32(|tris|) + EncodeFacets(fs)
      invariant |out| == RecordsOffset + RecordSize * i
    {
      var tri := tris[i];
      var n := ComputeNormal(tri);
      var len := sqrt(SumSquares(n) as real);
      if len == 0.0 {
        TryMapStop(FacetStep(round, sqrt), tris, i);
        WriteFileStop(header, tris, round, sqrt, i);
        return Err(ZeroDivision(i));
      }
      var unit := ScaleReal(AsReal(n), 1.0 / len);
      var f := Facet(Pack(round, unit), Pack(round, AsReal(tri.v0)), Pack(round, AsReal(tri.v1)),
                     Pack(round, AsReal(tri.v2)), 0);
      WriteStep(tris, i, round, sqrt, fs, header + EncodeU32(|tris|), n, len);
      out := AppendRecord(out, f);
      fs := fs + [f];
      i := i + 1;
    }
    assert tris[..i] == tris;
    WriteFileOk(header, tris, round, sqrt, fs);
    return Ok(out);
  }
}
