/**
  The binary STL layout that test2.py writes and reads back: an 80-byte
  header, the triangle count as a little-endian uint32, then one 50-byte
  record per triangle holding the facet normal and the three corners (each
  three float32 values, little-endian) followed by a 2-byte attribute.

  A float32 value is represented by its 32-bit pattern; `struct.pack('<f')`
  writes that pattern little-endian, and `struct.unpack('<f')` gives back the
  value with that pattern. How a Python float is rounded to a pattern is not
  modelled here: the writer receives it as a function (see StlWriter).
 */
module StlFormat {
  import opened Outcomes
  import opened LittleEndian
  import opened Records

  const HeaderSize: nat := 80
  const CountSize: nat := 4
  const FloatSize: nat := 4
  const TripleSize: nat := 12
  const AttributeSize: nat := 2
  const RecordSize: nat := 50
  /** Offset of the first record: the header and the count. */
  const RecordsOffset: nat := 84
  /** The count field holds values below 2^32 only. */
  const MaxCount: nat := 0x1_0000_0000

  /** The bit pattern of a float32 value. */
  type Float32Bits = uint32

  /** `struct.pack('<f', x)` for the float32 value whose pattern is `bits`. */
  function Float32Bytes(bits: Float32Bits): (bs: seq<byte>)
    ensures |bs| == FloatSize
    ensures DecodeU32(bs) == bits
  {
    DecodeEncodeU32(bits);
    EncodeU32(bits)
  }

  /** Three float32 values, as one `'<fff'` group: a normal or a corner. */
  datatype Packed3 = Packed3(x: Float32Bits, y: Float32Bits, z: Float32Bits)

  /** `struct.pack('<fff', x, y, z)`. */
  function EncodePacked3(p: Packed3): (bs: seq<byte>)
    ensures |bs| == TripleSize
  {
    Float32Bytes(p.x) + Float32Bytes(p.y) + Float32Bytes(p.z)
  }

  /** `struct.unpack('<fff', bs)` on exactly twelve bytes. */
  function DecodePacked3(bs: seq<byte>): Packed3
    requires |bs| == TripleSize
  {
    Packed3(DecodeU32(bs[0..4]), DecodeU32(bs[4..8]), DecodeU32(bs[8..12]))
  }

  lemma DecodeEncodePacked3(p: Packed3)
    ensures DecodePacked3(EncodePacked3(p)) == p
  {
    var bs := EncodePacked3(p);
    assert bs[0..4] == Float32Bytes(p.x);
    assert bs[4..8] == Float32Bytes(p.y);
    assert bs[8..12] == Float32Bytes(p.z);
  }

  lemma EncodeDecodePacked3(bs: seq<byte>)
    requires |bs| == TripleSize
    ensures EncodePacked3(DecodePacked3(bs)) == bs
  {
    EncodeDecodeU32(bs[0..4]);
    EncodeDecodeU32(bs[4..8]);
    EncodeDecodeU32(bs[8..12]);
    assert bs == bs[0..4] + bs[4..8] + bs[8..12];
  }

  /** One 50-byte triangle record. */
  datatype Facet = Facet(normal: Packed3, v0: Packed3, v1: Packed3, v2: Packed3, attribute: uint16)

  /** A record: normal, v0, v1, v2, then the attribute. */
  function EncodeFacet(f: Facet): (bs: seq<byte>)
    ensures |bs| == RecordSize
  {
    EncodePacked3(f.normal) + EncodePacked3(f.v0) + EncodePacked3(f.v1) + EncodePacked3(f.v2)
    + EncodeU16(f.attribute)
  }

  /** The fields of a record lie at offsets 0, 12, 24, 36 and 48. */
  lemma EncodeFacetFields(f: Facet)
    ensures EncodeFacet(f)[0..12] == EncodePacked3(f.normal)
    ensures EncodeFacet(f)[12..24] == EncodePacked3(f.v0)
    ensures EncodeFacet(f)[24..36] == EncodePacked3(f.v1)
    ensures EncodeFacet(f)[36..48] == EncodePacked3(f.v2)
    ensures EncodeFacet(f)[48..50] == EncodeU16(f.attribute)
  {
    var p0, p1, p2, p3 := EncodePacked3(f.normal), EncodePacked3(f.v0), EncodePacked3(f.v1), EncodePacked3(f.v2);
    var bs := EncodeFacet(f);
    assert bs == p0 + p1 + p2 + p3 + EncodeU16(f.attribute);
    assert bs[12..24] == p1;
    assert bs[24..36] == p2;
    assert bs[36..48] == p3;
  }

  /** The reads of one record, in the reader's order: 12, 12, 12, 12 and 2 bytes. */
  function DecodeFacet(bs: seq<byte>): Facet
    requires |bs| == RecordSize
  {
    Facet(DecodePacked3(bs[0..12]), DecodePacked3(bs[12..24]), DecodePacked3(bs[24..36]),
          DecodePacked3(bs[36..48]), DecodeU16(bs[48..50]))
  }

  lemma DecodeEncodeFacet(f: Facet)
    ensures DecodeFacet(EncodeFacet(f)) == f
  {
    EncodeFacetFields(f);
    DecodeEncodePacked3(f.normal);
    DecodeEncodePacked3(f.v0);
    DecodeEncodePacked3(f.v1);
    DecodeEncodePacked3(f.v2);
    DecodeEncodeU16(f.attribute);
  }

  lemma EncodeDecodeFacet(bs: seq<byte>)
    requires |bs| == RecordSize
    ensures EncodeFacet(DecodeFacet(bs)) == bs
  {
    EncodeDecodePacked3(bs[0..12]);
    EncodeDecodePacked3(bs[12..24]);
    EncodeDecodePacked3(bs[24..36]);
    EncodeDecodePacked3(bs[36..48]);
    EncodeDecodeU16(bs[48..50]);
    assert bs == bs[0..12] + bs[12..24] + bs[24..36] + bs[36..48] + bs[48..50];
  }

  /** A record encodes to 50 bytes, and decoding accepts any 50 bytes. */
  lemma FacetWidths()
    ensures FixedWidth(EncodeFacet, RecordSize) && DecodesWidth(DecodeFacet, RecordSize)
  {
  }

  /** Record decoding inverts record encoding in both directions. */
  lemma FacetCodec()
    ensures forall f :: DecodeFacet(EncodeFacet(f)) == f
    ensures forall bs: seq<byte> | |bs| == RecordSize :: EncodeFacet(DecodeFacet(bs)) == bs
  {
    forall f: Facet {
      DecodeEncodeFacet(f);
    }
    forall bs: seq<byte> | |bs| == RecordSize {
      EncodeDecodeFacet(bs);
    }
  }

  /** The records in order, each appended after the previous ones. */
  function EncodeFacets(fs: seq<Facet>): (bs: seq<byte>)
    ensures |bs| == RecordSize * |fs|
  {
    FacetWidths();
    ConcatLength(EncodeFacet, RecordSize, fs);
    Concat(EncodeFacet, fs)
  }

  /** Writing one more record appends its 50 bytes. */
  lemma EncodeFacetsAppend(fs: seq<Facet>, f: Facet)
    ensures EncodeFacets(fs + [f]) == EncodeFacets(fs) + EncodeFacet(f)
  {
    assert (fs + [f])[..|fs|] == fs;
  }

  /** Record `i` occupies bytes [50 i, 50 i + 50) of the record area. */
  lemma EncodeFacetsAt(fs: seq<Facet>, i: nat)
    requires i < |fs|
    ensures RecordSize * i + RecordSize <= |EncodeFacets(fs)|
    ensures EncodeFacets(fs)[RecordSize * i..RecordSize * i + RecordSize] == EncodeFacet(fs[i])
  {
    FacetWidths();
    ConcatAt(EncodeFacet, RecordSize, fs, i);
  }

  /** A whole file: header, count, records. */
  function Encode(header: seq<byte>, fs: seq<Facet>): (bs: seq<byte>)
    requires |header| == HeaderSize
    requires |fs| < MaxCount
    ensures |bs| == RecordsOffset + RecordSize * |fs|
    ensures bs[..HeaderSize] == header
    ensures DecodeU32(bs[HeaderSize..RecordsOffset]) == |fs|
  {
    var bs := header + EncodeU32(|fs|) + EncodeFacets(fs);
    assert bs[HeaderSize..RecordsOffset] == EncodeU32(|fs|);
    DecodeEncodeU32(|fs|);
    bs
  }

  /** Record `i` of an encoded file starts at byte 84 + 50 i. */
  lemma EncodeRecordAt(header: seq<byte>, fs: seq<Facet>, i: nat)
    requires |header| == HeaderSize && |fs| < MaxCount && i < |fs|
    ensures RecordsOffset + RecordSize * i + RecordSize <= |Encode(header, fs)|
    ensures Encode(header, fs)[RecordsOffset + RecordSize * i..RecordsOffset + RecordSize * i + RecordSize]
         == EncodeFacet(fs[i])
  {
    EncodeFacetsAt(fs, i);
    var bs := Encode(header, fs);
    var body := EncodeFacets(fs);
    assert bs == (header + EncodeU32(|fs|)) + body;
    var p := RecordSize * i;
    assert bs[RecordsOffset + p..RecordsOffset + p + RecordSize] == body[p..p + RecordSize];
  }

  /** The fields of record `i` lie at 84 + 50 i plus 0, 12, 24, 36 and 48. */
  lemma EncodeFieldsAt(header: seq<byte>, fs: seq<Facet>, i: nat)
    requires |header| == HeaderSize && |fs| < MaxCount && i < |fs|
    ensures var bs, p := Encode(header, fs), RecordsOffset + RecordSize * i;
      p + RecordSize <= |bs| &&
      bs[p..p + 12] == EncodePacked3(fs[i].normal) &&
      bs[p + 12..p + 24] == EncodePacked3(fs[i].v0) &&
      bs[p + 24..p + 36] == EncodePacked3(fs[i].v1) &&
      bs[p + 36..p + 48] == EncodePacked3(fs[i].v2) &&
      bs[p + 48..p + 50] == EncodeU16(fs[i].attribute)
  {
    EncodeRecordAt(header, fs, i);
    var bs, p := Encode(header, fs), RecordsOffset + RecordSize * i;
    EncodeFacetFields(fs[i]);
    SubSlice(bs, p, RecordSize, 0, 12);
    SubSlice(bs, p, RecordSize, 12, 24);
    SubSlice(bs, p, RecordSize, 24, 36);
    SubSlice(bs, p, RecordSize, 36, 48);
    SubSlice(bs, p, RecordSize, 48, 50);
  }

  /** The reader's error: `struct.unpack` on fewer bytes than the format needs. */
  datatype ReadError = ShortRead

  /** What the reader obtains: the header bytes and the records. */
  datatype StlFile = StlFile(header: seq<byte>, facets: seq<Facet>)

  /** The records of a record area holding exactly `n` records. */
  function DecodeFacets(bs: seq<byte>, n: nat): (fs: seq<Facet>)
    requires |bs| == RecordSize * n
    ensures |fs| == n
  {
    FacetWidths();
    Split(DecodeFacet, RecordSize, bs, n)
  }

  /**
    The reader: it takes up to 80 header bytes, fails unless four count bytes
    follow, and then fails unless `count` whole records follow. Bytes after
    the last record are never read.
   */
  function Parse(bs: seq<byte>): (r: Result<StlFile, ReadError>)
    ensures r.Ok? <==> |bs| >= RecordsOffset && |bs| - RecordsOffset >= RecordSize * DecodeU32(bs[HeaderSize..RecordsOffset])
    ensures r.Ok? ==> r.value.header == bs[..HeaderSize]
    ensures r.Ok? ==> |r.value.facets| == DecodeU32(bs[HeaderSize..RecordsOffset])
  {
    if |bs| < RecordsOffset then Err(ShortRead)
    else
      var count := DecodeU32(bs[HeaderSize..RecordsOffset]);
      if |bs| - RecordsOffset < RecordSize * count then Err(ShortRead)
      else Ok(StlFile(bs[..HeaderSize], DecodeFacets(bs[RecordsOffset..RecordsOffset + RecordSize * count], count)))
  }

  lemma DecodeEncodeFacets(fs: seq<Facet>)
    ensures DecodeFacets(EncodeFacets(fs), |fs|) == fs
  {
    FacetWidths();
    FacetCodec();
    SplitConcat(EncodeFacet, DecodeFacet, RecordSize, fs);
  }

  lemma EncodeDecodeFacets(bs: seq<byte>, n: nat)
    requires |bs| == RecordSize * n
    ensures EncodeFacets(DecodeFacets(bs, n)) == bs
  {
    FacetWidths();
    FacetCodec();
    ConcatSplit(EncodeFacet, DecodeFacet, RecordSize, bs, n);
  }

  /** Reading back a written file gives the header and records that were written, whatever follows them. */
  lemma ParseEncode(header: seq<byte>, fs: seq<Facet>, trailing: seq<byte>)
    requires |header| == HeaderSize && |fs| < MaxCount
    ensures Parse(Encode(header, fs) + trailing) == Ok(StlFile(header, fs))
  {
    var e := Encode(header, fs);
    var bs := e + trailing;
    assert bs[..HeaderSize] == header;
    assert bs[HeaderSize..RecordsOffset] == e[HeaderSize..RecordsOffset];
    assert e == (header + EncodeU32(|fs|)) + EncodeFacets(fs);
    assert bs[RecordsOffset..RecordsOffset + RecordSize * |fs|] == EncodeFacets(fs);
    DecodeEncodeFacets(fs);
  }

  /** Conversely, every file the reader accepts starts with the encoding of what it read. */
  lemma EncodeParse(bs: seq<byte>)
    requires Parse(bs).Ok?
    ensures var f := Parse(bs).value;
      |f.facets| < MaxCount && |f.header| == HeaderSize &&
      Encode(f.header, f.facets) == bs[..RecordsOffset + RecordSize * |f.facets|]
  {
    var f := Parse(bs).value;
    var n := |f.facets|;
    var area := bs[RecordsOffset..RecordsOffset + RecordSize * n];
    EncodeDecodeFacets(area, n);
    EncodeDecodeU32(bs[HeaderSize..RecordsOffset]);
    assert bs[..RecordsOffset + RecordSize * n] == bs[..HeaderSize] + bs[HeaderSize..RecordsOffset] + area;
  }

  /**
    The five reads of one record at the cursor `pos`: the normal and the
    three corners as twelve bytes each, then the two attribute bytes. Any
    read that finds too few bytes fails.
   */
  method ReadRecord(bs: seq<byte>, pos: nat) returns (r: Result<Facet, ReadError>)
    requires pos <= |bs|
    ensures r.Ok? <==> |bs| - pos >= RecordSize
    ensures r.Ok? ==> r.value == DecodeFacet(bs[pos..pos + RecordSize])
  {
    var p := pos;
    if |bs| - p < TripleSize {
      return Err(ShortRead);
    }
    var normal := DecodePacked3(bs[p..p + TripleSize]);
    p := p + TripleSize;
    if |bs| - p < TripleSize {
      return Err(ShortRead);
    }
    var a := DecodePacked3(bs[p..p + TripleSize]);
    p := p + TripleSize;
    if |bs| - p < TripleSize {
      return Err(ShortRead);
    }
    var b := DecodePacked3(bs[p..p + TripleSize]);
    p := p + TripleSize;
    if |bs| - p < TripleSize {
      return Err(ShortRead);
    }
    var c := DecodePacked3(bs[p..p + TripleSize]);
    p := p + TripleSize;
    if |bs| - p < AttributeSize {
      return Err(ShortRead);
    }
    var attribute := DecodeU16(bs[p..p + AttributeSize]);
    DecodeFacetAt(bs, pos);
    r := Ok(Facet(normal, a, b, c, attribute));
  }

  /**
    The reader loop of test2.py: a cursor advances through the header, the
    count and then one record per turn; a read that finds too few bytes
    fails. Bytes after the last record are never read.
   */
  method ReadStl(bs: seq<byte>) returns (r: Result<StlFile, ReadError>)
    ensures r == Parse(bs)
  {
    var pos := if |bs| < HeaderSize then |bs| else HeaderSize;
    var header := bs[..pos];
    if |bs| - pos < CountSize {
      return Err(ShortRead);
    }
    var count := DecodeU32(bs[pos..pos + CountSize]);
    pos := pos + CountSize;
    var facets: seq<Facet> := [];
    var i: nat := 0;
    while i < count
      invariant 0 <= i <= count
      invariant pos == RecordsOffset + RecordSize * i <= |bs|
      invariant facets == DecodeFacets(bs[RecordsOffset..][..RecordSize * i], i)
    {
      var record := ReadRecord(bs, pos);
      if record.Err? {
        return Err(ShortRead);
      }
      ReadRecordStep(bs, pos, i);
      facets := facets + [record.value];
      pos := pos + RecordSize;
      i := i + 1;
    }
    assert bs[RecordsOffset..][..RecordSize * count] == bs[RecordsOffset..RecordsOffset + RecordSize * count];
    r := Ok(StlFile(header, facets));
  }

  /** Decoding the record at `start` reads its five fields at offsets 0, 12, 24, 36 and 48 from there. */
  lemma DecodeFacetAt(bs: seq<byte>, start: nat)
    requires start + RecordSize <= |bs|
    ensures DecodeFacet(bs[start..start + RecordSize])
         == Facet(DecodePacked3(bs[start..start + 12]), DecodePacked3(bs[start + 12..start + 24]),
                  DecodePacked3(bs[start + 24..start + 36]), DecodePacked3(bs[start + 36..start + 48]),
                  DecodeU16(bs[start + 48..start + 50]))
  {
    var rec := bs[start..start + RecordSize];
    assert rec[0..12] == bs[start..start + 12];
    assert rec[12..24] == bs[start + 12..start + 24];
    assert rec[24..36] == bs[start + 24..start + 36];
    assert rec[36..48] == bs[start + 36..start + 48];
    assert rec[48..50] == bs[start + 48..start + 50];
  }

  /** One turn of the reader loop extends the decoded records by the record at the cursor. */
  lemma ReadRecordStep(bs: seq<byte>, start: nat, i: nat)
    requires start == RecordsOffset + RecordSize * i && start + RecordSize <= |bs|
    ensures DecodeFacets(bs[RecordsOffset..][..RecordSize * i], i) + [DecodeFacet(bs[start..start + RecordSize])]
         == DecodeFacets(bs[RecordsOffset..][..RecordSize * i + RecordSize], i + 1)
  {
    FacetWidths();
    SplitStep(DecodeFacet, RecordSize, bs, RecordsOffset, i);
  }
}
