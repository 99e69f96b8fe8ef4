/**
  The top level of test2.py: the fixed 80-byte header and the scaled cube,
  handed to the writer loop.
 */
module Script {
  import opened Outcomes
  import opened LittleEndian
  import opened Vectors
  import opened Mesh
  import opened StlFormat
  import opened StlWriter

  /** The bytes of a string whose characters all lie below 256, one per character. */
  function Latin1(s: string): (bs: seq<byte>)
    requires forall i :: 0 <= i < |s| ==> s[i] as int < 0x100
    ensures |bs| == |s| && forall i :: 0 <= i < |s| ==> bs[i] == s[i] as int
  {
    seq(|s|, i requires 0 <= i < |s| => s[i] as int)
  }

  /**
    The header literal: the text "STLB ATF 2.0.0.9000 COLOR=", the colour
    bytes A0 A0 A0 FF and fifty spaces.
   */
  function ScriptHeader(): (h: seq<byte>)
    ensures |h| == HeaderSize
  {
    Latin1("STLB ATF 2.0.0.9000 COLOR=") + [0xA0, 0xA0, 0xA0, 0xFF] + seq(50, _ => 0x20)
  }

  /**
    With a square root that is zero only at zero, the script writes its
    whole file: 684 bytes holding twelve records, whatever the float32
    rounding.
   */
  lemma ScriptWrites(round: real -> Float32Bits, sqrt: real -> real)
    requires SqrtLike(sqrt)
    ensures WriteFile(ScriptHeader(), ScriptTriangles(), round, sqrt).Ok?
    ensures var bs := WriteFile(ScriptHeader(), ScriptTriangles(), round, sqrt).value;
      |bs| == 684 && bs[..HeaderSize] == ScriptHeader() && DecodeU32(bs[HeaderSize..RecordsOffset]) == 12
  {
    ScriptFacesOutward();
    WriteFileDegenerate(ScriptHeader(), ScriptTriangles(), round, sqrt);
  }

  /**
    Every normal the script writes (before float32 rounding) points away from
    the centre of the cube.
   */
  lemma ScriptNormalsOutward(sqrt: real -> real)
    requires SqrtLike(sqrt)
    ensures forall i :: 0 <= i < |ScriptTriangles()| ==>
      var t := ScriptTriangles()[i];
      VecLen(RawNormal(t), sqrt) > 0.0 && RealDot(UnitNormal(RawNormal(t), VecLen(RawNormal(t), sqrt)), AsReal(t.v0)) > 0.0
  {
    ScriptFacesOutward();
    forall i | 0 <= i < |ScriptTriangles()|
      ensures var t := ScriptTriangles()[i];
        VecLen(RawNormal(t), sqrt) > 0.0 && RealDot(UnitNormal(RawNormal(t), VecLen(RawNormal(t), sqrt)), AsReal(t.v0)) > 0.0
    {
      var t := ScriptTriangles()[i];
      ZeroLengthIffDegenerate(t, sqrt);
      UnitNormalOutward(t, VecLen(RawNormal(t), sqrt));
    }
  }
}
