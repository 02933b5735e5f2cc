/** The binary STL format as read_binary (stl.cpp:576-658) reads it and create_stl_binary
    (stl.cpp:113-197) writes it: an 80-byte header, a little-endian uint32 triangle count and
    one 50-byte record per triangle (normal, three vertices, attribute word). */
module BinaryCodec {
  import opened StlLayout
  import opened Tokenizer

  /** A value read from the input and the stream left behind */
  datatype Got<T> = Got(value: T, rest: Stream)

  /** istream::read of |prev| bytes into a buffer that holds prev: the bytes that are left
      overwrite a prefix of the buffer, the rest of the buffer keeps its old contents, and a
      read that comes up short sets end of file. */
  function ReadInto(s: Stream, prev: seq<byte>): (g: Got<seq<byte>>)
    requires s.Valid()
    ensures g.rest.Valid() && g.rest.data == s.data && |g.value| == |prev|
    ensures s.pos + |prev| <= |s.data| ==>
      g.value == s.data[s.pos..s.pos + |prev|] && g.rest == Stream(s.data, s.pos + |prev|, s.eof)
    ensures s.pos + |prev| > |s.data| ==>
      g.value[..|s.data| - s.pos] == s.data[s.pos..] && g.value[|s.data| - s.pos..] == prev[|s.data| - s.pos..] &&
      g.rest == Stream(s.data, |s.data|, true)
  {
    var avail := if |s.data| - s.pos < |prev| then |s.data| - s.pos else |prev|;
    Got(s.data[s.pos..s.pos + avail] + prev[avail..],
        Stream(s.data, s.pos + avail, s.eof || avail < |prev|))
  }

  /** Consecutive reads of one float each into variables that hold prev: where the file ends,
      a variable keeps (the rest of) its previous value */
  function ReadFloats(s: Stream, prev: seq<Float32>): (g: Got<seq<Float32>>)
    requires s.Valid()
    ensures g.rest.Valid() && g.rest.data == s.data && |g.value| == |prev|
    decreases |prev|
  {
    if prev == [] then Got([], s)
    else
      var w := ReadInto(s, prev[0]);
      var x: Float32 := w.value;
      var more := ReadFloats(w.rest, prev[1..]);
      Got([x] + more.value, more.rest)
  }

  /** One triangle record as read_binary reads it */
  datatype Record = Record(normal: seq<Float32>, vertices: seq<Float32>, attribute: uint16)

  predicate Shaped(r: Record)
  {
    |r.normal| == 3 && |r.vertices| == 9
  }

  const ZERO_TRIPLE: seq<Float32> := [ZERO_FLOAT, ZERO_FLOAT, ZERO_FLOAT]

  /** x, y and z start at 0 for each triangle; the three vertices are read into the same
      variables after the normal, and the attribute word starts at 0 */
  function ReadRecord(s: Stream): (g: Got<Record>)
    requires s.Valid()
    ensures g.rest.Valid() && g.rest.data == s.data && Shaped(g.value)
  {
    var n := ReadFloats(s, ZERO_TRIPLE);
    var v1 := ReadFloats(n.rest, n.value);
    var v2 := ReadFloats(v1.rest, v1.value);
    var v3 := ReadFloats(v2.rest, v2.value);
    var a := ReadInto(v3.rest, [0, 0]);
    Got(Record(n.value, v1.value + v2.value + v3.value, Le16Value(a.value)), a.rest)
  }

  /** The records the loop of read_binary reads, k of them from s */
  function ReadRecords(s: Stream, k: nat): (g: Got<seq<Record>>)
    requires s.Valid()
    ensures g.rest.Valid() && g.rest.data == s.data
    ensures |g.value| == k && forall r <- g.value :: Shaped(r)
  {
    if k == 0 then Got([], s)
    else
      var g := ReadRecords(s, k - 1);
      var r := ReadRecord(g.rest);
      Got(g.value + [r.value], r.rest)
  }

  /** m_normals after the records: three components each, in record order */
  function Normals(recs: seq<Record>): (n: seq<Float32>)
    requires forall r <- recs :: Shaped(r)
    ensures |n| == 3 * |recs|
  {
    if recs == [] then []
    else
      var last := recs[|recs| - 1];
      assert last in recs && Shaped(last);
      Normals(recs[..|recs| - 1]) + last.normal
  }

  /** m_vectors after the records: nine coordinates each, in record order */
  function Vectors(recs: seq<Record>): (v: seq<Float32>)
    requires forall r <- recs :: Shaped(r)
    ensures |v| == 9 * |recs|
  {
    if recs == [] then []
    else
      var last := recs[|recs| - 1];
      assert last in recs && Shaped(last);
      Vectors(recs[..|recs| - 1]) + last.vertices
  }

  /** The colour a record contributes to m_rgb_color: three values n/15 when the word's valid
      bit is set, nothing otherwise (stl.cpp:629-647) */
  function Colour(a: uint16, fifteenths: uint16 -> Float32): (c: seq<Float32>)
    ensures |c| == 0 || |c| == 3
  {
    var u := UnpackAttribute(a);
    if u.valid then [fifteenths(u.r), fifteenths(u.g), fifteenths(u.b)] else []
  }

  lemma WholeTriples(a: nat, b: nat)
    requires a % 3 == 0 && b % 3 == 0
    ensures (a + b) % 3 == 0
  {
  }

  /** m_rgb_color after the records: whole colours, at most one per record */
  function Colours(recs: seq<Record>, fifteenths: uint16 -> Float32): (c: seq<Float32>)
    ensures |c| % 3 == 0 && |c| <= 3 * |recs|
  {
    if recs == [] then []
    else
      var before := Colours(recs[..|recs| - 1], fifteenths);
      var last := Colour(recs[|recs| - 1].attribute, fifteenths);
      WholeTriples(|before|, |last|);
      before + last
  }

  /** What read_binary stores when it accepts a file: the header, the count and the records */
  datatype Binary = Binary(header: seq<byte>, count: nat, records: seq<Record>)

  /** The triangle count field */
  function CountField(data: seq<byte>): nat
    requires |data| >= RECORDS_START
  {
    Le32Value(data[STL_HEADER_SIZE..RECORDS_START])
  }

  /** The size check of stl.cpp:593: `m_num_triangles * STL_TRIANGLE_SIZE` is computed in 32-bit
      unsigned arithmetic, and only a file LONGER than the size it gives is refused. */
  predicate SizeCheckPasses(count: nat, size: nat)
  {
    RECORDS_START + (count * STL_TRIANGLE_SIZE) % UINT32_LIMIT >= size
  }

  /** The stream read_binary reads the records from: header and count consumed */
  function RecordStream(data: seq<byte>): (s: Stream)
    requires |data| >= RECORDS_START
    ensures s.Valid()
  {
    Stream(data, RECORDS_START, false)
  }

  /** read_binary on a whole file: None where it calls cleanup and returns -1 */
  function DecodeBinary(data: seq<byte>): (r: Option<Binary>)
    ensures r.Some? <==> |data| >= RECORDS_START && SizeCheckPasses(CountField(data), |data|)
    ensures r.Some? ==> r.value.header == data[..STL_HEADER_SIZE] && r.value.count == CountField(data)
    ensures r.Some? ==> |r.value.records| == r.value.count && forall q <- r.value.records :: Shaped(q)
  {
    if |data| < RECORDS_START then None
    else
      var count := CountField(data);
      if !SizeCheckPasses(count, |data|) then None
      else Some(Binary(data[..STL_HEADER_SIZE], count, ReadRecords(RecordStream(data), count).value))
  }

  /** The four bytes of each float, in order */
  function FloatBytes(ws: seq<Float32>): (b: seq<byte>)
    ensures |b| == FLOAT_SIZE * |ws|
  {
    if ws == [] then [] else ws[0] + FloatBytes(ws[1..])
  }

  /** m_rgb_color[i] where the writer may read one element past the end of the vector: the
      value found there is a parameter of the model */
  function RgbAt(rgb: seq<Float32>, i: nat, pastEnd: Float32): Float32
  {
    if i < |rgb| then rgb[i] else pastEnd
  }

  /** The attribute word of one record and the colour index after it (stl.cpp:167-181): a
      colour is written only while `rgb_index + 2 < size`, and its channels are read through
      pre-increment, at indices rgb_index+1 to rgb_index+3. */
  function AttributeAt(rgb: seq<Float32>, idx: nat, scale128: Float32 -> uint16, pastEnd: Float32): (a: uint16)
    ensures idx + 2 < |rgb| ==> Nibble(a, 0) == 1
    ensures idx + 2 >= |rgb| ==> a == 0
  {
    if idx + 2 < |rgb| then
      PackAttribute(scale128(RgbAt(rgb, idx + 1, pastEnd)),
                    scale128(RgbAt(rgb, idx + 2, pastEnd)),
                    scale128(RgbAt(rgb, idx + 3, pastEnd)))
    else 0
  }

  function NextRgbIndex(rgb: seq<Float32>, idx: nat): nat
  {
    if idx + 2 < |rgb| then idx + 3 else idx
  }

  /** rgb_index after t records have been written */
  function RgbIndex(rgb: seq<Float32>, t: nat): nat
  {
    if t == 0 then 0 else NextRgbIndex(rgb, RgbIndex(rgb, t - 1))
  }

  /** The attribute words of the first k records */
  function Attributes(rgb: seq<Float32>, k: nat, scale128: Float32 -> uint16, pastEnd: Float32): (attrs: seq<uint16>)
    ensures |attrs| == k
  {
    if k == 0 then []
    else Attributes(rgb, k - 1, scale128, pastEnd) + [AttributeAt(rgb, RgbIndex(rgb, k - 1), scale128, pastEnd)]
  }

  /** The bytes of one record */
  function RecordBytes(normal: seq<Float32>, vertices: seq<Float32>, a: uint16): (b: seq<byte>)
    requires |normal| == 3 && |vertices| == 9
    ensures |b| == STL_TRIANGLE_SIZE
  {
    FloatBytes(normal) + FloatBytes(vertices) + Le16(a)
  }

  /** The records written for normals, vectors and attribute words, one record per word */
  function Records(normals: seq<Float32>, vectors: seq<Float32>, attrs: seq<uint16>): (b: seq<byte>)
    requires |normals| == 3 * |attrs| && |vectors| == 9 * |attrs|
    ensures |b| == STL_TRIANGLE_SIZE * |attrs|
  {
    if attrs == [] then []
    else
      var k := |attrs| - 1;
      Records(normals[..3 * k], vectors[..9 * k], attrs[..k]) +
      RecordBytes(normals[3 * k..], vectors[9 * k..], attrs[k])
  }

  /** The bytes create_stl_binary writes for a consistent object */
  function EncodeBinary(header: seq<byte>, count: nat, normals: seq<Float32>, vectors: seq<Float32>,
                        rgb: seq<Float32>, scale128: Float32 -> uint16, pastEnd: Float32): (b: seq<byte>)
    requires |header| == STL_HEADER_SIZE && count < UINT32_LIMIT
    requires Consistent(count, |normals|, |vectors|)
    ensures |b| == RECORDS_START + STL_TRIANGLE_SIZE * count
    ensures b[..STL_HEADER_SIZE] == header && Le32Value(b[STL_HEADER_SIZE..RECORDS_START]) == count
  {
    Le32RoundTrip(count);
    var b := header + Le32(count) + Records(normals, vectors, Attributes(rgb, count, scale128, pastEnd));
    assert b[STL_HEADER_SIZE..RECORDS_START] == Le32(count);
    b
  }

  /** The records a reader finds in a file written from normals, vectors and attribute words */
  function RecordsOf(normals: seq<Float32>, vectors: seq<Float32>, attrs: seq<uint16>): (recs: seq<Record>)
    requires |normals| == 3 * |attrs| && |vectors| == 9 * |attrs|
    ensures |recs| == |attrs| && forall r <- recs :: Shaped(r)
  {
    if attrs == [] then []
    else
      var k := |attrs| - 1;
      RecordsOf(normals[..3 * k], vectors[..9 * k], attrs[..k]) +
      [Record(normals[3 * k..], vectors[9 * k..], attrs[k])]
  }

  /** The colours read back from attribute words */
  function AttributeColours(attrs: seq<uint16>, fifteenths: uint16 -> Float32): seq<Float32>
  {
    if attrs == [] then []
    else AttributeColours(attrs[..|attrs| - 1], fifteenths) + Colour(attrs[|attrs| - 1], fifteenths)
  }

  lemma {:induction false} FloatBytesAppend(a: seq<Float32>, b: seq<Float32>)
    ensures FloatBytes(a + b) == FloatBytes(a) + FloatBytes(b)
    decreases |a|
  {
    if a == [] {
      assert a + b == b;
    } else {
      assert (a + b)[0] == a[0] && (a + b)[1..] == a[1..] + b;
      FloatBytesAppend(a[1..], b);
    }
  }

  /** The bytes of three floats */
  lemma FloatBytesTriple(ws: seq<Float32>)
    requires |ws| == 3
    ensures var first: seq<byte> := ws[0]; FloatBytes(ws) == first + ws[1] + ws[2]
  {
    var first: seq<byte> := ws[0];
    var last: seq<byte> := ws[2];
    assert FloatBytes(ws[2..]) == last + FloatBytes([]) by {
      assert ws[2..][1..] == [];
    }
    AppendEmpty(last);
    assert ws[1..][1..] == ws[2..];
    Assoc(first, ws[1], ws[2]);
  }

  /** The writer's loop adds one record to those before it */
  lemma RecordsStep(normals: seq<Float32>, vectors: seq<Float32>, rgb: seq<Float32>, t: nat,
                    scale128: Float32 -> uint16, pastEnd: Float32)
    requires 3 * t + 3 <= |normals| && 9 * t + 9 <= |vectors|
    ensures Records(normals[..3 * (t + 1)], vectors[..9 * (t + 1)], Attributes(rgb, t + 1, scale128, pastEnd)) ==
      Records(normals[..3 * t], vectors[..9 * t], Attributes(rgb, t, scale128, pastEnd)) +
      RecordBytes(normals[3 * t..3 * t + 3], vectors[9 * t..9 * t + 9],
                  AttributeAt(rgb, RgbIndex(rgb, t), scale128, pastEnd))
  {
    var attrs := Attributes(rgb, t + 1, scale128, pastEnd);
    var ns := normals[..3 * (t + 1)];
    var vs := vectors[..9 * (t + 1)];
    assert attrs[..t] == Attributes(rgb, t, scale128, pastEnd);
    assert ns[..3 * t] == normals[..3 * t] && ns[3 * t..] == normals[3 * t..3 * t + 3];
    assert vs[..9 * t] == vectors[..9 * t] && vs[9 * t..] == vectors[9 * t..9 * t + 9];
  }

  /** Reading floats over bytes written for them gives them back */
  lemma {:induction false} ReadWrittenFloats(s: Stream, ws: seq<Float32>, prev: seq<Float32>)
    requires s.Valid() && !s.eof && |prev| == |ws|
    requires s.pos + FLOAT_SIZE * |ws| <= |s.data|
    requires s.data[s.pos..s.pos + FLOAT_SIZE * |ws|] == FloatBytes(ws)
    ensures ReadFloats(s, prev) == Got(ws, Stream(s.data, s.pos + FLOAT_SIZE * |ws|, false))
    decreases |ws|
  {
    if ws != [] {
      var w := ReadInto(s, prev[0]);
      SliceParts(s.data, s.pos, ws[0], FloatBytes(ws[1..]));
      assert w.value == ws[0] && w.rest == Stream(s.data, s.pos + FLOAT_SIZE, false);
      var t := w.rest;
      ReadWrittenFloats(t, ws[1..], prev[1..]);
      assert [ws[0]] + ws[1..] == ws;
    }
  }

  /** Reading a record over the bytes written for it gives it back */
  lemma {:induction false} ReadWrittenRecord(d: seq<byte>, p: nat, normal: seq<Float32>, vertices: seq<Float32>, a: uint16)
    requires |normal| == 3 && |vertices| == 9
    requires p + STL_TRIANGLE_SIZE <= |d|
    requires d[p..p + STL_TRIANGLE_SIZE] == RecordBytes(normal, vertices, a)
    ensures ReadRecord(Stream(d, p, false)) == Got(Record(normal, vertices, a), Stream(d, p + STL_TRIANGLE_SIZE, false))
  {
    var s := Stream(d, p, false);
    var v1, v2, v3 := vertices[..3], vertices[3..6], vertices[6..];
    RecordLayout(d, p, normal, vertices, a);
    ReadWrittenFloats(s, normal, ZERO_TRIPLE);
    var n := ReadFloats(s, ZERO_TRIPLE);
    ReadWrittenFloats(n.rest, v1, n.value);
    var r1 := ReadFloats(n.rest, n.value);
    ReadWrittenFloats(r1.rest, v2, r1.value);
    var r2 := ReadFloats(r1.rest, r1.value);
    ReadWrittenFloats(r2.rest, v3, r2.value);
    Le16RoundTrip(a);
    assert v1 + v2 + v3 == vertices;
  }

  /** Where the normal, the three vertices and the attribute word sit in a record's bytes */
  lemma RecordLayout(d: seq<byte>, p: nat, normal: seq<Float32>, vertices: seq<Float32>, a: uint16)
    requires |normal| == 3 && |vertices| == 9
    requires p + STL_TRIANGLE_SIZE <= |d| && d[p..p + STL_TRIANGLE_SIZE] == RecordBytes(normal, vertices, a)
    ensures d[p..p + 12] == FloatBytes(normal) && d[p + 12..p + 24] == FloatBytes(vertices[..3])
    ensures d[p + 24..p + 36] == FloatBytes(vertices[3..6]) && d[p + 36..p + 48] == FloatBytes(vertices[6..])
    ensures d[p + 48..p + 50] == Le16(a)
  {
    var v1, v2, v3 := vertices[..3], vertices[3..6], vertices[6..];
    assert vertices == v1 + v2 + v3;
    FloatBytesAppend(v1 + v2, v3);
    FloatBytesAppend(v1, v2);
    var nb, b1, b2, b3 := FloatBytes(normal), FloatBytes(v1), FloatBytes(v2), FloatBytes(v3);
    assert RecordBytes(normal, vertices, a) == nb + b1 + b2 + b3 + Le16(a);
    SliceParts(d, p, nb + b1 + b2 + b3, Le16(a));
    SliceParts(d, p, nb + b1 + b2, b3);
    SliceParts(d, p, nb + b1, b2);
    SliceParts(d, p, nb, b1);
  }

  /** Reading k records over the bytes written for k records gives them back */
  lemma {:induction false} ReadWrittenRecords(s: Stream, normals: seq<Float32>, vectors: seq<Float32>, attrs: seq<uint16>)
    requires s.Valid() && !s.eof
    requires |normals| == 3 * |attrs| && |vectors| == 9 * |attrs|
    requires s.pos + STL_TRIANGLE_SIZE * |attrs| <= |s.data|
    requires s.data[s.pos..s.pos + STL_TRIANGLE_SIZE * |attrs|] == Records(normals, vectors, attrs)
    ensures ReadRecords(s, |attrs|) ==
      Got(RecordsOf(normals, vectors, attrs), Stream(s.data, s.pos + STL_TRIANGLE_SIZE * |attrs|, false))
    decreases |attrs|
  {
    if attrs != [] {
      var k := |attrs| - 1;
      var n0, v0, a0 := normals[..3 * k], vectors[..9 * k], attrs[..k];
      var q := s.pos + STL_TRIANGLE_SIZE * k;
      assert q + STL_TRIANGLE_SIZE == s.pos + STL_TRIANGLE_SIZE * |attrs|;
      var last := Record(normals[3 * k..], vectors[9 * k..], attrs[k]);
      var mid, end := Stream(s.data, q, false), Stream(s.data, q + STL_TRIANGLE_SIZE, false);
      assert ReadRecords(s, k) == Got(RecordsOf(n0, v0, a0), mid) && ReadRecord(mid) == Got(last, end) by {
        WrittenRecordsSplit(s.data, s.pos, q, normals, vectors, attrs, k);
        assert |a0| == k && s.pos + STL_TRIANGLE_SIZE * |a0| == q;
        ReadWrittenRecords(s, n0, v0, a0);
        ReadWrittenRecord(s.data, q, normals[3 * k..], vectors[9 * k..], attrs[k]);
      }
      ReadRecordsSnoc(s, k, RecordsOf(n0, v0, a0), mid, last, end);
      assert RecordsOf(normals, vectors, attrs) ==
        RecordsOf(n0, v0, a0) + [Record(normals[3 * k..], vectors[9 * k..], attrs[k])];
    }
  }

  /** k + 1 records read: the first k, then one more where they stop */
  lemma ReadRecordsSnoc(s: Stream, k: nat, front: seq<Record>, mid: Stream, last: Record, end: Stream)
    requires s.Valid() && ReadRecords(s, k) == Got(front, mid) && mid.Valid() && ReadRecord(mid) == Got(last, end)
    ensures ReadRecords(s, k + 1) == Got(front + [last], end)
  {
  }

  /** The bytes of k + 1 records, from position p of d: those of the first k up to q, then
      those of the last */
  lemma WrittenRecordsSplit(d: seq<byte>, p: nat, q: nat, normals: seq<Float32>, vectors: seq<Float32>,
                            attrs: seq<uint16>, k: nat)
    requires k + 1 == |attrs| && |normals| == 3 * |attrs| && |vectors| == 9 * |attrs|
    requires q == p + STL_TRIANGLE_SIZE * k && q + STL_TRIANGLE_SIZE <= |d|
    requires d[p..q + STL_TRIANGLE_SIZE] == Records(normals, vectors, attrs)
    ensures d[p..q] == Records(normals[..3 * k], vectors[..9 * k], attrs[..k])
    ensures d[q..q + STL_TRIANGLE_SIZE] == RecordBytes(normals[3 * k..], vectors[9 * k..], attrs[k])
  {
    var front := Records(normals[..3 * k], vectors[..9 * k], attrs[..k]);
    var last := RecordBytes(normals[3 * k..], vectors[9 * k..], attrs[k]);
    assert Records(normals, vectors, attrs) == front + last;
    assert p + |front| == q && q + |last| == q + STL_TRIANGLE_SIZE;
    SliceParts(d, p, front, last);
  }

  lemma {:induction false} NormalsOfWritten(normals: seq<Float32>, vectors: seq<Float32>, attrs: seq<uint16>)
    requires |normals| == 3 * |attrs| && |vectors| == 9 * |attrs|
    ensures Normals(RecordsOf(normals, vectors, attrs)) == normals
    ensures Vectors(RecordsOf(normals, vectors, attrs)) == vectors
    decreases |attrs|
  {
    if attrs != [] {
      var k := |attrs| - 1;
      var recs := RecordsOf(normals, vectors, attrs);
      NormalsOfWritten(normals[..3 * k], vectors[..9 * k], attrs[..k]);
      assert recs[..k] == RecordsOf(normals[..3 * k], vectors[..9 * k], attrs[..k]);
      assert normals[..3 * k] + normals[3 * k..] == normals;
      assert vectors[..9 * k] + vectors[9 * k..] == vectors;
    }
  }

  lemma {:induction false} ColoursOfWritten(normals: seq<Float32>, vectors: seq<Float32>, attrs: seq<uint16>,
                                            fifteenths: uint16 -> Float32)
    requires |normals| == 3 * |attrs| && |vectors| == 9 * |attrs|
    ensures Colours(RecordsOf(normals, vectors, attrs), fifteenths) == AttributeColours(attrs, fifteenths)
    decreases |attrs|
  {
    if attrs != [] {
      var k := |attrs| - 1;
      var recs := RecordsOf(normals, vectors, attrs);
      ColoursOfWritten(normals[..3 * k], vectors[..9 * k], attrs[..k], fifteenths);
      assert recs[..k] == RecordsOf(normals[..3 * k], vectors[..9 * k], attrs[..k]);
    }
  }

  /** A binary file written by create_stl_binary reads back with the same header, count,
      normals, vectors and attribute words, as long as its size fits the 32-bit size check;
      a mesh of 85899346 triangles or more (50 * count >= 2^32) is written but refused. */
  lemma {:induction false} BinaryRoundTrip(header: seq<byte>, count: nat, normals: seq<Float32>, vectors: seq<Float32>,
                                           rgb: seq<Float32>, scale128: Float32 -> uint16, pastEnd: Float32,
                                           fifteenths: uint16 -> Float32)
    requires |header| == STL_HEADER_SIZE && count < UINT32_LIMIT
    requires Consistent(count, |normals|, |vectors|)
    ensures var d := DecodeBinary(EncodeBinary(header, count, normals, vectors, rgb, scale128, pastEnd));
      (d.Some? <==> STL_TRIANGLE_SIZE * count < UINT32_LIMIT) &&
      (d.Some? ==>
        d.value.header == header && d.value.count == count &&
        Normals(d.value.records) == normals && Vectors(d.value.records) == vectors &&
        Colours(d.value.records, fifteenths) ==
          AttributeColours(Attributes(rgb, count, scale128, pastEnd), fifteenths))
  {
    var data := EncodeBinary(header, count, normals, vectors, rgb, scale128, pastEnd);
    var attrs := Attributes(rgb, count, scale128, pastEnd);
    assert CountField(data) == count;
    if STL_TRIANGLE_SIZE * count < UINT32_LIMIT {
      EncodedDecodes(header, count, normals, vectors, rgb, scale128, pastEnd);
      NormalsOfWritten(normals, vectors, attrs);
      ColoursOfWritten(normals, vectors, attrs, fifteenths);
    } else {
      assert (count * STL_TRIANGLE_SIZE) % UINT32_LIMIT < UINT32_LIMIT;
    }
  }

  /** Below the wrap-around of the size check, the encoded file decodes to the records written */
  lemma EncodedDecodes(header: seq<byte>, count: nat, normals: seq<Float32>, vectors: seq<Float32>,
                       rgb: seq<Float32>, scale128: Float32 -> uint16, pastEnd: Float32)
    requires |header| == STL_HEADER_SIZE && count < UINT32_LIMIT
    requires Consistent(count, |normals|, |vectors|)
    requires STL_TRIANGLE_SIZE * count < UINT32_LIMIT
    ensures DecodeBinary(EncodeBinary(header, count, normals, vectors, rgb, scale128, pastEnd)) ==
      Some(Binary(header, count, RecordsOf(normals, vectors, Attributes(rgb, count, scale128, pastEnd))))
  {
    var data := EncodeBinary(header, count, normals, vectors, rgb, scale128, pastEnd);
    var attrs := Attributes(rgb, count, scale128, pastEnd);
    assert CountField(data) == count;
    var size := STL_TRIANGLE_SIZE * count;
    assert count * STL_TRIANGLE_SIZE == size;
    ModSmall(size, UINT32_LIMIT);
    assert SizeCheckPasses(count, |data|);
    assert data[RECORDS_START..RECORDS_START + STL_TRIANGLE_SIZE * count] == Records(normals, vectors, attrs);
    ReadWrittenRecords(RecordStream(data), normals, vectors, attrs);
  }

  lemma ModSmall(x: nat, m: nat)
    requires x < m
    ensures x % m == x
  {
  }

  function Min(a: nat, b: nat): nat
  {
    if a < b then a else b
  }

  /** The writer's colour index moves three places per record while a whole colour is left:
      it stands at 3 * min(t, |rgb| / 3) after t records. */
  lemma {:induction false} RgbIndexAfter(rgb: seq<Float32>, t: nat)
    ensures RgbIndex(rgb, t) == 3 * Min(t, |rgb| / 3)
  {
    if t > 0 {
      RgbIndexAfter(rgb, t - 1);
    }
  }

  /** Record t carries a colour exactly when t < |rgb| / 3, and then its channels come from
      rgb[3t+1], rgb[3t+2] and rgb[3t+3], one place later than the colour of triangle t: the
      last colour's blue is read past the end of the vector whenever |rgb| is a multiple of 3. */
  lemma {:induction false} WrittenColourChannels(rgb: seq<Float32>, k: nat, t: nat, scale128: Float32 -> uint16,
                                                 pastEnd: Float32)
    requires t < k
    ensures var a := Attributes(rgb, k, scale128, pastEnd)[t];
      (t < |rgb| / 3 ==>
        a == PackAttribute(scale128(rgb[3 * t + 1]), scale128(rgb[3 * t + 2]),
                           scale128(RgbAt(rgb, 3 * t + 3, pastEnd)))) &&
      (t >= |rgb| / 3 ==> a == 0) &&
      (t < |rgb| / 3 && 3 * t + 3 >= |rgb| <==> |rgb| % 3 == 0 && t == |rgb| / 3 - 1)
    decreases k
  {
    if t < k - 1 {
      WrittenColourChannels(rgb, k - 1, t, scale128, pastEnd);
      assert Attributes(rgb, k, scale128, pastEnd)[t] == Attributes(rgb, k - 1, scale128, pastEnd)[t];
    } else {
      RgbIndexAfter(rgb, t);
    }
  }

  /** The record read where the file has ended: every variable keeps its initial zero */
  const BLANK_RECORD: Record := Record(ZERO_TRIPLE, ZERO_TRIPLE + ZERO_TRIPLE + ZERO_TRIPLE, 0)

  lemma {:induction false} ReadFloatsAtEnd(s: Stream, prev: seq<Float32>)
    requires s.Valid() && s.pos == |s.data|
    ensures ReadFloats(s, prev).value == prev
    ensures ReadFloats(s, prev).rest == if prev == [] then s else Stream(s.data, |s.data|, true)
    decreases |prev|
  {
    if prev != [] {
      var w := ReadInto(s, prev[0]);
      assert w.value == prev[0];
      ReadFloatsAtEnd(w.rest, prev[1..]);
      assert [prev[0]] + prev[1..] == prev;
    }
  }

  /** Past the end of the file every read leaves its target as it was: a record read there is
      all zero. */
  lemma ReadRecordAtEnd(s: Stream)
    requires s.Valid() && s.pos == |s.data|
    ensures ReadRecord(s) == Got(BLANK_RECORD, Stream(s.data, |s.data|, true))
  {
    var n := ReadFloats(s, ZERO_TRIPLE);
    ReadFloatsAtEnd(s, ZERO_TRIPLE);
    ReadFloatsAtEnd(n.rest, ZERO_TRIPLE);
    var v1 := ReadFloats(n.rest, n.value);
    ReadFloatsAtEnd(v1.rest, ZERO_TRIPLE);
    var v2 := ReadFloats(v1.rest, v1.value);
    ReadFloatsAtEnd(v2.rest, ZERO_TRIPLE);
  }

  /** k blank records */
  function Blanks(k: nat): (recs: seq<Record>)
    ensures |recs| == k && forall r <- recs :: r == BLANK_RECORD
  {
    if k == 0 then [] else Blanks(k - 1) + [BLANK_RECORD]
  }

  lemma {:induction false} RecordsAtEnd(s: Stream, k: nat)
    requires s.Valid() && s.pos == |s.data|
    ensures ReadRecords(s, k).value == Blanks(k)
    ensures ReadRecords(s, k).rest.pos == |s.data|
    decreases k
  {
    if k > 0 {
      RecordsAtEnd(s, k - 1);
      var g := ReadRecords(s, k - 1);
      var r := ReadRecord(g.rest);
      ReadRecordAtEnd(g.rest);
      assert ReadRecords(s, k) == Got(g.value + [r.value], r.rest);
    }
  }

  lemma {:induction false} BlankColours(k: nat, fifteenths: uint16 -> Float32)
    ensures Colours(Blanks(k), fifteenths) == []
    decreases k
  {
    if k > 0 {
      BlankColours(k - 1, fifteenths);
      assert Blanks(k)[..k - 1] == Blanks(k - 1);
      assert !UnpackAttribute(0).valid;
    }
  }

  /** A file cut short passes the size check (only files longer than the count says are
      refused): a file of just a header and a count of k reads as k all-zero triangles with
      no colour. */
  lemma {:induction false} HeaderOnlyFile(data: seq<byte>, fifteenths: uint16 -> Float32)
    requires |data| == RECORDS_START
    ensures var d := DecodeBinary(data);
      d.Some? && d.value.count == CountField(data) &&
      d.value.records == Blanks(CountField(data)) &&
      Colours(d.value.records, fifteenths) == []
  {
    var count := CountField(data);
    RecordsAtEnd(RecordStream(data), count);
    BlankColours(count, fifteenths);
  }

  /** The size check wraps: with a count of 85899346, 50 * count is 2^32 + 4, so the check
      compares against 88 bytes and refuses every longer file, the complete one included. */
  lemma WrappedCountRefused(data: seq<byte>)
    requires |data| > RECORDS_START + 4 && CountField(data) == 85899346
    ensures DecodeBinary(data).None?
  {
  }
}
