# Binary STL cube writer — Dafny model

`test2.py` writes a cube as a binary STL file. The cube has twelve triangles with corners at ±1, scaled by five. The file is an 80-byte header, the triangle count as a little-endian uint32, and one 50-byte record per triangle. A record holds the unit facet normal, the three corners (three float32 values each) and a zero 16-bit attribute. The normal of each triangle is `vec_cross(vec_sub(v0, v1), vec_sub(v1, v2))`, divided by its length. A disabled block at the end of the script reads such a file back record by record.

The model is split into these modules:

- `Vectors` (`vectors.dfy`): the vector helpers. `vec_cross` is a loop method proved against the cross product. The radicand of `vec_len` is `SumSquares`.
- `Mesh` (`mesh.dfy`): the triangle type, the scaling comprehension, the cube data, and the normal the writer computes.
- `LittleEndian` (`little_endian.dfy`): `struct.pack('<H')` and `'<I'` and their inverses.
- `StlFormat` (`stl_format.dfy`): the file layout, the encoder and the parser as functions, and the reader loop as a method with a cursor.
- `StlWriter` (`stl_writer.dfy`): the writer loop as a method over a growing byte sequence, proved against the function `WriteFile`.
- `Script` (`script.dfy`): the header literal and the concrete run on the scaled cube.
- `Outcomes` and `Records` (`outcomes.dfy`, `records.dfy`): generic support. `TryMap` applies a function to each element in turn and stops at the first failure. `Concat` and `Split` lay fixed-width records end to end and cut them apart again.

Modelling decisions:

- **Coordinates** are integers. The script's coordinates are the floats ±1.0 times 5, all of them integral. Integers make the algebraic laws exact.
- **A float32** is represented by its 32-bit pattern. The writer receives a function `round`, standing for the rounding `struct.pack('<f')` performs, and stores `round(x)` little-endian. That makes the byte-level round trips exact whatever `round` is.
- **`** 0.5`** in `vec_len` is a function parameter `sqrt`. Results that need it to behave like a square root take the predicate `SqrtLike`, which says that `sqrt` is non-negative and zero exactly at zero.
- **Errors** become `Result` values:
  - `ZeroDivisionError` from `1 / vec_len(n)` is `ZeroDivision(i)`, where `i` is the index of the triangle.
  - The `struct.error` raised by `pack('<I')` when the count is 2^32 or more is `CountOverflow`.
  - The `IndexError` that `vec_cross` raises on vectors of length 1 or 2 is `IndexOutOfRange`.
  - A short read in the reader is `ShortRead`.
- **The `assert len(a) == len(b)`** in `vec_sub`, `vec_add` and `vec_cross` becomes a precondition.

Behaviour that follows the code:

- The code does not emit a zero normal for a degenerate triangle. It divides by the zero length, raises `ZeroDivisionError`, and stops writing at that triangle. The model does the same. `WriteFileDegenerate` states exactly when this happens.
- The script's normal `(v0 - v1) x (v1 - v2)` equals the right-hand normal `(v1 - v0) x (v2 - v0)`. `Mesh.RawNormal` proves this.

## Model

| member | source | states |
|---|---|---|
| Vectors.Sub | test2.py:6-8 | equal lengths are required; the result has that length and component i is a[i] - b[i] |
| Vectors.Add | test2.py:10-12 | equal lengths are required; the result has that length and component i is a[i] + b[i] |
| Vectors.Scale | test2.py:14-15 | any length; the result has the same length and component i is a[i] * s |
| Vectors.AddSubInverse | test2.py:6-12 | vec_add(vec_sub(a, b), b) == a |
| Vectors.SubAddInverse | test2.py:6-12 | vec_sub(vec_add(a, b), b) == a |
| Vectors.SubIsAddNegated | test2.py:6-15 | vec_sub(a, b) == vec_add(a, vec_scale(b, -1)) |
| Vectors.ScaleScale | test2.py:14-15 | scaling by s and then by t is scaling by s * t |
| Vectors.SubScale | test2.py:6-15 | scaling distributes over vec_sub |
| Vectors.Cross | test2.py:17-31 | the 3-D cross product is perpendicular to both arguments |
| Vectors.CrossAt | test2.py:22-30 | the component vec_cross appends at index i: on 3-vectors component i of Cross; from index 2 on, always the third component of the cross product of the first three coordinates |
| Vectors.VecCross | test2.py:17-31 | IndexError exactly for length 1 or 2; otherwise one component per dimension, with axes (1,2), (2,0), then (0,1) for every later index; on 3-vectors exactly Cross |
| Vectors.CrossAntiCommutative | test2.py:17-31 | u x v == -(v x u) |
| Vectors.CrossSelfZero | test2.py:17-31 | u x u == 0 |
| Vectors.CrossScale | test2.py:17-31 | (k u) x (k v) == k^2 (u x v) |
| Vectors.CrossParallelZero | test2.py:17-31 | u x (t u) == 0 |
| Vectors.SumSquares | test2.py:33-34 | the radicand of vec_len is never negative |
| Vectors.SumSquaresIsDot | test2.py:33-34 | on 3-vectors the radicand is a . a |
| Vectors.SumSquaresZero | test2.py:33-34 | the radicand is zero exactly for the zero vector |
| Vectors.SumSquaresScale | test2.py:33-34 | scaling by k multiplies the radicand by k^2 |
| Mesh.ScaleTriangle | test2.py:90-92 | every corner of the triangle is scaled by 5, keeping the corner order |
| Mesh.ScaleTriangles | test2.py:90-92 | same count and order; triangle i of the result is triangle i with every corner scaled by 5 |
| Mesh.ScriptTriangles | test2.py:38-92 | the mesh written has twelve triangles |
| Mesh.RawNormal | test2.py:118-120 | the script's normal equals the right-hand normal (v1 - v0) x (v2 - v0) and is perpendicular to both edges at v0 |
| Mesh.CollinearIsDegenerate | test2.py:118-120 | special case: when v2 - v0 is an integer multiple of v1 - v0, the normal is zero and so is the radicand of its length |
| Mesh.CollinearDegenerate | test2.py:118-120 | any non-trivial combination a (v2 - v0) = b (v1 - v0), including coincident corners, gives the zero normal |
| Mesh.DegenerateIffCollinear | test2.py:118-121 | the normal is zero exactly when the three corners are collinear |
| Mesh.CubeTrianglesHalfFaces | test2.py:38-88 | the listed mesh has twelve triangles, each with three distinct corners of the cube at ±1 that share one coordinate |
| Mesh.ScaledNormal | test2.py:90-92 | scaling by 5 multiplies the normal by 25 |
| Mesh.ScalingKeepsDegeneracy | test2.py:90-92 | scaling by 5 neither creates nor removes degenerate triangles |
| Mesh.CubeFacesOutward | test2.py:38-88 | every cube triangle has a non-zero normal with positive dot product against its first corner |
| Mesh.ScalingKeepsOutward | test2.py:90-92 | scaling by 5 keeps a triangle outward-facing |
| Mesh.ScriptFacesOutward | test2.py:38-92 | every triangle the script writes is non-degenerate and outward-facing |
| LittleEndian.EncodeU16 | test2.py:127 | pack('<H') yields two bytes, and 0 yields [0, 0] |
| LittleEndian.DecodeEncodeU16 | test2.py:139 | unpack('<H') inverts pack('<H') |
| LittleEndian.EncodeDecodeU16 | test2.py:139 | pack('<H') inverts unpack('<H') on any two bytes |
| LittleEndian.DecodeU16 | test2.py:139 | unpack('<H') of two bytes; no contract of its own, DecodeEncodeU16 and EncodeDecodeU16 make it the inverse of EncodeU16 |
| LittleEndian.EncodeU32 | test2.py:116 | pack('<I') yields four bytes |
| LittleEndian.DecodeEncodeU32 | test2.py:132 | unpack('<I') gives back the packed count |
| LittleEndian.EncodeDecodeU32 | test2.py:132 | every four bytes are the packing of the count they decode to |
| LittleEndian.DecodeU32 | test2.py:132 | unpack('<I') of four bytes; no contract of its own, DecodeEncodeU32 and EncodeDecodeU32 make it the inverse of EncodeU32 |
| LittleEndian.EncodeU32Injective | test2.py:116 | distinct counts pack to distinct bytes |
| StlFormat.Float32Bytes | test2.py:123-126 | a float32 is four bytes that decode back to its bit pattern |
| StlFormat.EncodePacked3 | test2.py:123-126 | pack('<fff') yields twelve bytes |
| StlFormat.DecodePacked3 | test2.py:135-138 | unpack('<fff') of twelve bytes, as three bit patterns; no contract of its own, the two lemmas below make it the inverse of EncodePacked3 |
| StlFormat.DecodeEncodePacked3 | test2.py:135-138 | on bit patterns, unpack('<fff') inverts pack('<fff') |
| StlFormat.EncodeDecodePacked3 | test2.py:135-138 | on bit patterns, pack('<fff') inverts unpack('<fff') on any twelve bytes |
| StlFormat.EncodeFacet | test2.py:123-127 | a record is 50 bytes |
| StlFormat.EncodeFacetFields | test2.py:123-127 | normal, v0, v1, v2 and attribute lie at offsets 0, 12, 24, 36 and 48 |
| StlFormat.DecodeFacet | test2.py:135-139 | the reader's five reads of one record; no contract of its own, the two lemmas below make it the inverse of EncodeFacet |
| StlFormat.DecodeEncodeFacet | test2.py:135-139 | the reader's five reads invert the writer's five writes |
| StlFormat.EncodeDecodeFacet | test2.py:135-139 | on bit patterns, every 50 bytes are the encoding of the record they decode to |
| StlFormat.EncodeFacets | test2.py:117-127 | N records take 50 N bytes |
| StlFormat.EncodeFacetsAppend | test2.py:117-127 | one more record appends its 50 bytes |
| StlFormat.EncodeFacetsAt | test2.py:117-127 | record i occupies bytes 50 i to 50 i + 50 of the record area |
| StlFormat.Encode | test2.py:114-127 | a file is 84 + 50 N bytes, starts with the header, and its count field decodes to N (N < 2^32) |
| StlFormat.EncodeRecordAt | test2.py:114-127 | record i starts at byte 84 + 50 i |
| StlFormat.EncodeFieldsAt | test2.py:114-127 | the five fields of record i lie at 84 + 50 i plus 0, 12, 24, 36 and 48 |
| StlFormat.DecodeFacets | test2.py:134-139 | an area of N records decodes to N records |
| StlFormat.Parse | test2.py:129-141 | succeeds exactly when the header, the count and count whole records are present; the header is the first 80 bytes; there are count records |
| StlFormat.DecodeEncodeFacets | test2.py:134-139 | decoding an encoded record area gives the records back |
| StlFormat.EncodeDecodeFacets | test2.py:134-139 | encoding a decoded record area gives the bytes back |
| StlFormat.ParseEncode | test2.py:114-141 | reading a written file, followed by any bytes, gives back its header and records |
| StlFormat.EncodeParse | test2.py:129-141 | on bit patterns, every accepted input starts with the encoding of what was read from it |
| StlFormat.ReadRecord | test2.py:135-139 | the five reads fail exactly when fewer than 50 bytes remain; otherwise they decode the record at the cursor |
| StlFormat.ReadStl | test2.py:129-141 | the cursor loop returns exactly what Parse returns |
| StlWriter.ScaleReal | test2.py:121 | vec_scale by the float factor 1 / len: component i is a[i] * s |
| StlWriter.AsRealScale | test2.py:14-15 | on integer vectors and an integer factor, ScaleReal agrees with Vectors.Scale |
| StlWriter.AsRealDot | test2.py:121 | on integer vectors, the real dot product agrees with Vectors.Dot |
| StlWriter.VecLen | test2.py:33-34 | with a square root that is zero only at zero, the length is non-negative and zero exactly for the zero vector |
| StlWriter.UnitNormal | test2.py:121 | vec_scale(n, 1 / len) for a non-zero len: each component times len gives back the component of n |
| StlWriter.Pack | test2.py:123-126 | pack('<fff') stores the rounding of each of the three components in order |
| StlWriter.FacetOf | test2.py:118-127 | the record built for one triangle; no contract of its own, WrittenRecordAt states where its fields land in the file |
| StlWriter.FacetFor | test2.py:118-127 | no record exactly when the normal has length zero, which with SqrtLike means a degenerate triangle; otherwise the record FacetOf builds |
| StlWriter.Facets | test2.py:117-127 | a success holds one record per triangle; a failure is a ZeroDivision at an index of the mesh |
| StlWriter.FacetsSpec | test2.py:117-127 | records are produced exactly when no normal has length zero, and record i comes from triangle i; otherwise the error names the first triangle whose normal has length zero |
| StlWriter.WriteFile | test2.py:114-127 | CountOverflow exactly when N >= 2^32; success exactly when N < 2^32 and no normal has length zero; the output is 84 + 50 N bytes with the header and the count N |
| StlWriter.WrittenRecordAt | test2.py:114-127 | record i of a written file, at 84 + 50 i, holds the unit normal, v0, v1 and v2, then bytes 0, 0 |
| StlWriter.ReadBackWritten | test2.py:114-141 | the reader gives back the header and exactly the records written, whatever follows them |
| StlWriter.ZeroLengthIffDegenerate | test2.py:121 | with a square root that is zero only at zero, the division fails exactly on a degenerate triangle |
| StlWriter.WriteFileDegenerate | test2.py:114-127 | with such a square root, writing succeeds exactly when N < 2^32 and no triangle is degenerate; a ZeroDivision error names the first degenerate triangle |
| StlWriter.UnitNormalPerpendicular | test2.py:121 | the normalised normal stays perpendicular to both edges at v0 |
| StlWriter.UnitNormalOutward | test2.py:121 | dividing by a positive length keeps an outward normal outward |
| StlWriter.ComputeNormal | test2.py:118-120 | the loop's vec_cross of the two differences is RawNormal |
| StlWriter.AppendRecord | test2.py:123-127 | the five writes append exactly one encoded record |
| StlWriter.WriteStl | test2.py:114-127 | the writer loop, whose output grows by 50 bytes per triangle from offset 84, returns exactly WriteFile |
| Script.ScriptHeader | test2.py:4 | the header literal is 80 bytes |
| Script.ScriptWrites | test2.py:114-127 | the script's run succeeds and writes 684 bytes with the header and a count of 12, whatever the float32 rounding |
| Script.ScriptNormalsOutward | test2.py:118-121 | every normal the script computes has positive length and points away from the cube's centre |

## Left out

- File I/O: `open`, the `with` blocks and `fp.tell()` are not modelled. The writer returns the bytes it would write, and the reader takes the file's bytes as input.
- Partial files: when the script raises, the bytes already written remain in `test.stl`. The model returns only the error.
- The `print` calls of the reader are left out.
- The reader block runs under `if False:`. It is modelled as if enabled.
- Float32 rounding: the rounding inside `struct.pack('<f')` is the parameter `round`. `struct.unpack('<f')` is modelled by returning the bit pattern, so the round trips above hold on bit patterns. CPython's `unpack('<f')` turns a signalling NaN pattern into a quiet one (0x7f800001 reads back as 0x7fc00001), so on such bytes the Python reader followed by the writer would not give the same bytes back. Overflow of a double beyond the float32 range is not modelled, because the script's values are all small.
- Floating-point arithmetic: corners are integers. The normal's division, `n[i] * (1 / len)`, is exact real arithmetic.
- StlWriter.VecLen: `** 0.5` is the parameter `sqrt`, so the model does not prove that the normal has unit length.
- Vectors.VecCross: the values are integers rather than Python floats, so float overflow to infinity or NaN is not modelled.
- Python 2 versus Python 3: `header` is a `str` literal. The model uses its 80 Latin-1 bytes as Python 2 writes them. Under Python 3 the `fp.write(header)` call would raise `TypeError`.
- The commented-out mesh construction at test2.py:94-111 is dead code and is not modelled.
- `vec_add` is defined but never called by the script. It is modelled, with its inverse laws, but it is not part of the writer.
