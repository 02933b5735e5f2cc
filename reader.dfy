/** read_stl (stl.cpp:27-95) as a function of the file: which reader the first tokens send the
    file to, and what the object holds when the call returns. */
module StlReader {
  import opened StlLayout
  import opened Tokenizer
  import opened AsciiParser
  import opened BinaryCodec
  import opened AsciiWriter
  import opened AsciiRoundTrip

  /** The reader read_stl hands the file to */
  datatype Format = AsciiFormat | BinaryFormat

  /** The tests of stl.cpp:43-69 on the freshly opened file: a first token other than "solid"
      means binary; otherwise the rest of that line is read, and the file is ASCII when that
      line starts with "facet" or when the token after it is exactly "facet". */
  function Detect(data: seq<byte>): Format
  {
    var first := NextToken(Start(data));
    if first.text != SOLID then BinaryFormat
    else
      var line := ReadLine(first.rest);
      if StartsWith(CStr(line.text), FACET) then AsciiFormat
      else if NextToken(line.rest).text == FACET then AsciiFormat
      else BinaryFormat
  }

  /** The ASCII branches of stl.cpp:58-70 rewind with seekg(0). When the probing get() calls
      have already run into the end of the file, the stream carries failbit as well as
      eofbit: seekg clears eofbit only and does not move, every later get() fails without
      setting eofbit again, and get_next_token's loop in read_ascii never ends. This holds when
      the ASCII test passes on a line whose read ended the file, or on a "facet" token that
      ended it. */
  predicate ProbeReachesEnd(data: seq<byte>)
  {
    var first := NextToken(Start(data));
    first.text == SOLID &&
    var line := ReadLine(first.rest);
    if StartsWith(CStr(line.text), FACET) then line.rest.eof
    else
      var next := NextToken(line.rest);
      next.text == FACET && next.rest.eof
  }

  /** The object's state that read_stl leaves: the public members, m_read_tok and
      m_cur_state (the token buffer and the closed streams are not part of it) */
  datatype Snapshot = Snapshot(numTriangles: nat, vectors: seq<Float32>, normals: seq<Float32>,
                               rgbColor: seq<Float32>, size: nat, header: seq<byte>,
                               readTok: bool, state: ParseState)

  function Zeros(n: nat): (z: seq<byte>)
    ensures |z| == n && forall k :: 0 <= k < n ==> z[k] == 0
  {
    seq(n, _ => 0)
  }

  /** The state cleanup leaves (stl.cpp:730-749) */
  const CLEARED: Snapshot := Snapshot(0, [], [], [], 0, Zeros(STL_HEADER_SIZE), true, InSolid)

  /** The state after read_binary on the whole file: what it decoded, or cleanup's state when
      it refused the file */
  function AfterBinary(data: seq<byte>, fifteenths: uint16 -> Float32): Snapshot
  {
    match DecodeBinary(data)
    case None => CLEARED
    case Some(b) =>
      Snapshot(b.count, Vectors(b.records), Normals(b.records), Colours(b.records, fifteenths),
               |data|, b.header, true, InSolid)
  }

  /** The state after read_ascii on the whole file: the parsed buffers with the triangle count
      cut to int16_t, in_endsolid with m_read_tok cleared; or cleanup's state after an error */
  function AfterAscii(data: seq<byte>, strtof: seq<byte> -> Float32): Snapshot
  {
    match ParseAscii(data, strtof)
    case Rejected(_) => CLEARED
    case Accepted(n, v, _) =>
      Snapshot(Int16ToUint32(|v| / 9), v, n, [], |data|, Zeros(STL_HEADER_SIZE), false, InEndsolid)
  }

  /** What read_stl returns and leaves behind, or that it never returns */
  datatype Outcome = Outcome(result: int, after: Snapshot) | Hangs

  /** read_stl on a file that cannot be opened (None) or on its bytes. It does not return on
      a file whose probing reaches the end before the rewind. Otherwise only a file that
      cannot be opened or is shorter than six bytes gives -1: whatever the readers make of
      the contents, read_stl returns 0. */
  function ReadStl(file: Option<seq<byte>>, ops: FloatOps): (o: Outcome)
    ensures o.Hangs? <==> file.Some? && |file.value| >= MIN_STL_LENGTH && ProbeReachesEnd(file.value)
    ensures o.Outcome? ==> (o.result == 0 <==> file.Some? && |file.value| >= MIN_STL_LENGTH)
    ensures o.Outcome? ==> o.result == 0 || o.result == -1
    ensures o.Outcome? && o.result == -1 ==> o.after == CLEARED
    ensures file.Some? && ProbeReachesEnd(file.value) && o.Outcome? ==> o.result == -1
  {
    if file.None? || |file.value| < MIN_STL_LENGTH then Outcome(-1, CLEARED)
    else
      var data := file.value;
      if ProbeReachesEnd(data) then Hangs
      else
        match Detect(data)
        case AsciiFormat => Outcome(0, AfterAscii(data, ops.strtof))
        case BinaryFormat => Outcome(0, AfterBinary(data, ops.fifteenths))
  }

  /** A file of at least six bytes sent to read_ascii without the probing reaching the end:
      read_stl returns 0 with what read_ascii leaves */
  lemma AsciiReadReturns(data: seq<byte>, ops: FloatOps)
    requires |data| >= MIN_STL_LENGTH && Detect(data) == AsciiFormat && !ProbeReachesEnd(data)
    ensures ReadStl(Some(data), ops) == Outcome(0, AfterAscii(data, ops.strtof))
  {
  }

  /** Probing that reaches the end only happens on the way to the ASCII reader */
  lemma ProbeEndIsAscii(data: seq<byte>)
    requires ProbeReachesEnd(data)
    ensures Detect(data) == AsciiFormat
  {
  }

  /** The file "solid a\nfacet" */
  const FACET_AT_END: seq<byte> := SOLID + [SPACE, 0x61, NEWLINE] + FACET

  /** On FACET_AT_END the token "facet" that sends the file to read_ascii ends the file, so
      read_stl never returns */
  lemma FacetAtEndHangs(ops: FloatOps)
    ensures Detect(FACET_AT_END) == AsciiFormat && ReadStl(Some(FACET_AT_END), ops) == Hangs
  {
    FacetAtEndProbe();
    ProbeEndIsAscii(FACET_AT_END);
  }

  /** The probing of FACET_AT_END token by token */
  lemma FacetAtEndProbe()
    ensures ProbeReachesEnd(FACET_AT_END)
  {
    var data := FACET_AT_END;
    KeywordsPlain();
    assert |data| == 13 && data[..5] == SOLID && data[5] == SPACE && data[8..] == FACET;
    assert NextToken(Start(data)) == Lexeme(SOLID, Stream(data, 6, false)) by {
      NextTokenOfWord(Start(data), 0, SOLID);
    }
    var line := ReadLine(Stream(data, 6, false));
    assert line == Lexeme([0x61], Stream(data, 8, false)) by {
      assert data[6..7] == [0x61] && data[7] == NEWLINE;
      ReadLineOfLine(Stream(data, 6, false), 0, [0x61]);
    }
    assert CStr(line.text) == [0x61];
    assert NextToken(line.rest) == Lexeme(FACET, Stream(data, 13, true)) by {
      NextTokenOfLastWord(line.rest, FACET);
    }
  }

  /** A name create_stl_ascii writes on the "solid" line and read_line reads back whole */
  predicate LineName(name: seq<byte>)
  {
    |name| < MAX_TEXT && (forall k :: 0 <= k < |name| ==> name[k] != 0 && name[k] != NEWLINE) &&
    (|name| > 0 ==> !IsLineLead(name[0]))
  }

  /** The bytes of the "solid" line */
  function SolidLineBytes(name: seq<byte>): seq<byte>
  {
    UnitsBytes([SOLID_UNIT, NameUnit(name)])
  }

  /** The first token of a written ASCII file is "solid" and read_line then returns the name,
      leaving the stream at the start of the next line. */
  lemma {:induction false} SolidLineRead(data: seq<byte>, name: seq<byte>)
    requires LineName(name) && At(Start(data), SolidLineBytes(name))
    ensures NextToken(Start(data)) == Lexeme(SOLID, After(Start(data), |UnitBytes(SOLID_UNIT)|))
    ensures ReadLine(After(Start(data), |UnitBytes(SOLID_UNIT)|)) ==
      Lexeme(name, After(Start(data), |SolidLineBytes(name)|))
    ensures CStr(name) == name
  {
    KeywordsPlain();
    var us := [SOLID_UNIT, NameUnit(name)];
    ReadUnit(Start(data), us);
    var s1 := After(Start(data), |UnitBytes(SOLID_UNIT)|);
    assert UnitsBytes(us[1..]) == UnitBytes(NameUnit(name)) + UnitsBytes([]);
    UnitLayout(s1, NameUnit(name));
    ReadLineOfLine(s1, 0, name);
    var c := CStr(name);
    assert |c| == |name|;
  }

  /** The units of the triangles begin with the word "facet" */
  lemma {:induction false} FacetsOpenWithFacet(normals: seq<Float32>, vectors: seq<Float32>, count: nat,
                                              fmt: Float32 -> seq<byte>)
    requires 0 < count && 3 * count <= |normals| && 9 * count <= |vectors|
    ensures var us := LinesUnits(FacetsBetween(normals, vectors, 0, count), fmt);
      us != [] && us[0] == Unit(0, FACET, SPACE)
  {
    var ls := FacetsBetween(normals, vectors, 0, count);
    assert ls[0] == FacetNormalLine(normals[0], normals[0], normals[2]);
    assert LinesUnits(ls, fmt) == LineUnits(ls[0], fmt) + LinesUnits(ls[1..], fmt);
  }

  /** The token after the "solid" line of a written file: "facet" when there is a triangle,
      "endsolid" otherwise */
  lemma {:induction false} TokenAfterSolidLine(name: seq<byte>, count: nat, normals: seq<Float32>,
                                               vectors: seq<Float32>, colours: nat, fmt: Float32 -> seq<byte>)
    requires Consistent(count, |normals|, |vectors|) && Printable(fmt) && LineName(name)
    ensures var data := Render(AsciiLines(name, count, normals, vectors, colours), fmt);
      At(Start(data), SolidLineBytes(name)) &&
      NextToken(After(Start(data), |SolidLineBytes(name)|)).text == (if count == 0 then ENDSOLID else FACET) &&
      !NextToken(After(Start(data), |SolidLineBytes(name)|)).rest.eof
  {
    var data := Render(AsciiLines(name, count, normals, vectors, colours), fmt);
    var head := SolidLineBytes(name);
    var bu := LinesUnits(FacetsBetween(normals, vectors, 0, count), fmt);
    var tu := [ENDSOLID_UNIT, NameUnit(name)];
    SolidBytes(name, count, normals, vectors, colours, fmt);
    AtSplit(Start(data), head, UnitsBytes(bu) + UnitsBytes(tu));
    var s := After(Start(data), |head|);
    KeywordsPlain();
    if count == 0 {
      assert bu == [];
      assert UnitsBytes(bu) + UnitsBytes(tu) == UnitsBytes(tu);
      ReadUnit(s, tu);
    } else {
      FacetsOpenWithFacet(normals, vectors, count, fmt);
      AtSplit(s, UnitsBytes(bu), UnitsBytes(tu));
      ReadUnit(s, bu);
    }
  }

  /** A file create_stl_ascii wrote for at least one triangle is taken for ASCII and read back:
      read_stl returns 0 with the values as printed and read by strtof (the x value of each
      triple standing in for y), the header zero, no colour, and the count of triangles passed
      through int16_t. */
  lemma {:induction false} AsciiFileRead(name: seq<byte>, count: nat, normals: seq<Float32>,
                                         vectors: seq<Float32>, colours: nat, fmt: Float32 -> seq<byte>,
                                         ops: FloatOps)
    requires Consistent(count, |normals|, |vectors|) && Printable(fmt) && NameRoundTrips(name)
    requires count > 0
    ensures var data := Render(AsciiLines(name, count, normals, vectors, colours), fmt);
      ReadStl(Some(data), ops) ==
        Outcome(0, Snapshot(Int16ToUint32(count), Echo(vectors, 0, 3 * count, fmt, ops.strtof),
                            Echo(normals, 0, count, fmt, ops.strtof), [], |data|,
                            Zeros(STL_HEADER_SIZE), false, InEndsolid))
  {
    var data := Render(AsciiLines(name, count, normals, vectors, colours), fmt);
    TokenAfterSolidLine(name, count, normals, vectors, colours, fmt);
    assert ReadStl(Some(data), ops) == Outcome(0, AfterAscii(data, ops.strtof)) by {
      SolidLineRead(data, name);
      assert |data| >= MIN_STL_LENGTH;
      assert Detect(data) == AsciiFormat && !ProbeReachesEnd(data);
      AsciiReadReturns(data, ops);
    }
    AsciiRoundTrip.AsciiRoundTrip(name, count, normals, vectors, colours, fmt, ops.strtof);
    assert |Echo(vectors, 0, 3 * count, fmt, ops.strtof)| / 9 == count;
  }

  /** A file create_stl_ascii wrote for an empty mesh is taken for binary (unless its name
      starts with "facet"): "endsolid" follows the "solid" line where "facet" is required. With a name of at most 33 bytes the file is
      shorter than a binary header and count, so read_binary refuses it; read_stl still
      returns 0, with the object empty. */
  lemma {:induction false} EmptySolidTakenForBinary(name: seq<byte>, colours: nat, fmt: Float32 -> seq<byte>,
                                                    ops: FloatOps)
    requires NameRoundTrips(name) && Printable(fmt)
    ensures var data := Render(AsciiLines(name, 0, [], [], colours), fmt);
      Detect(data) == BinaryFormat &&
      |data| == 17 + 2 * |name| &&
      (|name| <= 33 ==> ReadStl(Some(data), ops) == Outcome(0, CLEARED))
  {
    var data := Render(AsciiLines(name, 0, [], [], colours), fmt);
    TokenAfterSolidLine(name, 0, [], [], colours, fmt);
    SolidLineRead(data, name);
    assert ENDSOLID != FACET;
    assert Detect(data) == BinaryFormat;
    EmptySolidLength(name, colours, fmt);
    if |name| <= 33 {
      assert DecodeBinary(data).None?;
    }
  }

  lemma {:induction false} EmptySolidLength(name: seq<byte>, colours: nat, fmt: Float32 -> seq<byte>)
    ensures |Render(AsciiLines(name, 0, [], [], colours), fmt)| == 17 + 2 * |name|
  {
    SolidBytes(name, 0, [], [], colours, fmt);
    assert LinesUnits(FacetsBetween([], [], 0, 0), fmt) == [];
    assert [ENDSOLID_UNIT, NameUnit(name)][1..] == [NameUnit(name)];
    assert [SOLID_UNIT, NameUnit(name)][1..] == [NameUnit(name)];
    assert [NameUnit(name)][1..] == [];
    assert UnitsBytes([ENDSOLID_UNIT, NameUnit(name)]) ==
      UnitBytes(ENDSOLID_UNIT) + (UnitBytes(NameUnit(name)) + UnitsBytes([]));
    assert SolidLineBytes(name) == UnitBytes(SOLID_UNIT) + (UnitBytes(NameUnit(name)) + UnitsBytes([]));
  }

  /** A solid named "facet..." is rejected: read_ascii takes the name line for the first
      facet's keyword, and the name is neither "facet" followed by "normal" nor "endsolid".
      read_stl returns 0 with the object empty. */
  lemma {:induction false} FacetNamedSolidRejected(name: seq<byte>, count: nat, normals: seq<Float32>,
                                                   vectors: seq<Float32>, colours: nat,
                                                   fmt: Float32 -> seq<byte>, ops: FloatOps)
    requires Consistent(count, |normals|, |vectors|) && Printable(fmt)
    requires LineName(name) && StartsWith(name, FACET)
    ensures var data := Render(AsciiLines(name, count, normals, vectors, colours), fmt);
      Detect(data) == AsciiFormat && ReadStl(Some(data), ops) == Outcome(0, CLEARED)
  {
    var data := Render(AsciiLines(name, count, normals, vectors, colours), fmt);
    var strtof := ops.strtof;
    TokenAfterSolidLine(name, count, normals, vectors, colours, fmt);
    SolidLineRead(data, name);
    assert |data| >= MIN_STL_LENGTH;
    assert Detect(data) == AsciiFormat && !ProbeReachesEnd(data);
    AsciiReadReturns(data, ops);
    var s := After(Start(data), |SolidLineBytes(name)|);
    var c := Scan(InFacet, false, name, s, [], []);
    assert Iteration(Begin(data), strtof) == Next(c);
    RunStep(Begin(data), c, strtof);
    assert NextToken(s).text != NORMAL by {
      assert |NORMAL| == 6 && |ENDSOLID| == 8 && |FACET| == 5;
    }
    FacetNameRejected(name, s, strtof);
  }

  /** The name line taken for the first facet's keyword: a name that starts with "facet" is
      not "endsolid", and is rejected unless it is exactly "facet" and "normal" follows */
  lemma FacetNameRejected(name: seq<byte>, s: Stream, strtof: seq<byte> -> Float32)
    requires s.Valid() && StartsWith(name, FACET) && NextToken(s).text != NORMAL
    ensures RunAscii(Scan(InFacet, false, name, s, [], []), strtof).Rejected?
  {
    var c := Scan(InFacet, false, name, s, [], []);
    assert name != ENDSOLID by {
      assert name[0] == FACET[0];
    }
    if name == FACET {
      KeywordMatchAdvances(c, strtof);
      KeywordMismatchRejects(c.(readTok := true, state := InFacetNormal), strtof);
    } else {
      KeywordMismatchRejects(c, strtof);
    }
  }

  /** A binary file create_stl_binary wrote reads back through read_stl when its header opens
      with a byte that is neither a delimiter nor 's' (so the first token is not "solid") and
      its size fits the 32-bit size check: same header, count, normals and vectors, and the
      colours the reader finds in the writer's attribute words. */
  lemma {:induction false} BinaryFileRead(header: seq<byte>, count: nat, normals: seq<Float32>,
                                          vectors: seq<Float32>, rgb: seq<Float32>, ops: FloatOps,
                                          pastEnd: Float32)
    requires |header| == STL_HEADER_SIZE && Consistent(count, |normals|, |vectors|)
    requires STL_TRIANGLE_SIZE * count < UINT32_LIMIT
    requires !IsDelimiter(header[0]) && header[0] != SOLID[0]
    ensures var data := EncodeBinary(header, count, normals, vectors, rgb, ops.scale128, pastEnd);
      ReadStl(Some(data), ops) ==
        Outcome(0, Snapshot(count, vectors, normals,
                            AttributeColours(Attributes(rgb, count, ops.scale128, pastEnd), ops.fifteenths),
                            |data|, header, true, InSolid))
  {
    var data := EncodeBinary(header, count, normals, vectors, rgb, ops.scale128, pastEnd);
    assert data[0] == header[0];
    FirstTokenOpensWith(data);
    assert Detect(data) == BinaryFormat;
    BinaryRoundTrip(header, count, normals, vectors, rgb, ops.scale128, pastEnd, ops.fifteenths);
  }

  /** A file whose first byte is not a delimiter has a first token that begins with that byte */
  lemma FirstTokenOpensWith(data: seq<byte>)
    requires |data| > 0 && !IsDelimiter(data[0])
    ensures |NextToken(Start(data)).text| > 0 && NextToken(Start(data)).text[0] == data[0]
  {
    assert SkipDelimiters(data, 0) == 0;
  }
}
