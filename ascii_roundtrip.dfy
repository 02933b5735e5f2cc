/** What read_ascii makes of a file create_stl_ascii wrote: every word of the output is read
    back as one token, the parser walks through one facet per triangle, and the buffers it
    fills hold the printed values (the x component in place of y) as strtof reads them. */
module AsciiRoundTrip {
  import opened StlLayout
  import opened Tokenizer
  import opened AsciiParser
  import opened AsciiWriter

  /** A word the tokenizer returns whole: non-empty, without delimiters, and short enough for
      the token buffer */
  predicate Plain(w: seq<byte>)
  {
    0 < |w| < MAX_TEXT && forall k :: 0 <= k < |w| ==> !IsDelimiter(w[k])
  }

  /** A unit whose word the tokenizer returns whole */
  predicate Clean(u: Unit)
  {
    Plain(u.word) && IsDelimiter(u.end)
  }

  lemma KeywordsPlain()
    ensures Plain(SOLID) && Plain(FACET) && Plain(NORMAL) && Plain(OUTER) && Plain(LOOP)
    ensures Plain(VERTEX) && Plain(ENDLOOP) && Plain(ENDFACET) && Plain(ENDSOLID)
  {
  }

  /** The stream has not hit end of file and its next bytes are b */
  ghost predicate At(s: Stream, b: seq<byte>)
  {
    s.Valid() && !s.eof && s.pos + |b| <= |s.data| && s.data[s.pos..s.pos + |b|] == b
  }

  /** The stream n bytes further on */
  function After(s: Stream, n: nat): Stream
  {
    Stream(s.data, s.pos + n, false)
  }

  lemma AtSplit(s: Stream, a: seq<byte>, b: seq<byte>)
    requires At(s, a + b)
    ensures At(s, a) && At(After(s, |a|), b)
  {
    SliceParts(s.data, s.pos, a, b);
  }

  /** Where the indentation, the word and the end byte of a unit sit */
  lemma UnitLayout(s: Stream, u: Unit)
    requires At(s, UnitBytes(u))
    ensures forall k :: s.pos <= k < s.pos + u.indent ==> IsDelimiter(s.data[k])
    ensures s.data[s.pos + u.indent..s.pos + u.indent + |u.word|] == u.word
    ensures s.data[s.pos + u.indent + |u.word|] == u.end
  {
    var b := UnitBytes(u);
    var p := s.pos;
    forall k | p <= k < p + u.indent
      ensures IsDelimiter(s.data[k])
    {
      assert s.data[k] == b[k - p];
    }
    forall k | 0 <= k < |u.word|
      ensures s.data[p + u.indent + k] == u.word[k]
    {
      assert s.data[p + u.indent + k] == b[u.indent + k];
    }
    assert s.data[p + u.indent + |u.word|] == b[u.indent + |u.word|];
  }

  /** get_next_token on the bytes of a clean unit returns its word and stops right after it */
  lemma ReadUnit(s: Stream, us: seq<Unit>)
    requires us != [] && Clean(us[0]) && At(s, UnitsBytes(us))
    ensures UnitsBytes(us) == UnitBytes(us[0]) + UnitsBytes(us[1..])
    ensures NextToken(s) == Lexeme(us[0].word, After(s, |UnitBytes(us[0])|))
    ensures At(After(s, |UnitBytes(us[0])|), UnitsBytes(us[1..]))
  {
    var u := us[0];
    AtSplit(s, UnitBytes(u), UnitsBytes(us[1..]));
    UnitLayout(s, u);
    NextTokenOfWord(s, u.indent, u.word);
  }

  /** A keyword state finds its keyword in the next unit and moves on to its successor */
  lemma KeywordUnit(c: Scan, us: seq<Unit>, strtof: seq<byte> -> Float32)
    requires Coherent(c) && c.readTok && IsKeywordState(c.state) && !(c.state.InSolid? || c.state.InEndsolid?)
    requires us != [] && Clean(us[0]) && At(c.src, UnitsBytes(us)) && us[0].word == Keyword(c.state)
    ensures UnitsBytes(us) == UnitBytes(us[0]) + UnitsBytes(us[1..])
    ensures At(After(c.src, |UnitBytes(us[0])|), UnitsBytes(us[1..]))
    ensures Iteration(c, strtof) ==
      Next(c.(state := Successor(c.state), tok := us[0].word, src := After(c.src, |UnitBytes(us[0])|)))
  {
    ReadUnit(c.src, us);
    assert Fetch(c) == c.(tok := us[0].word, src := After(c.src, |UnitBytes(us[0])|));
    KeywordStep(c, strtof);
  }

  /** The state after a component of the normal or a coordinate of a vertex */
  function NextComponent(s: ParseState): ParseState
  {
    match s
    case InFacetVertexX => InFacetVertexY
    case InFacetVertexY => InFacetVertexZ
    case InFacetVertexZ => InOuter
    case InVertexX => InVertexY
    case _ => InVertexZ
  }

  /** A normal component is read from the next unit and appended to the normals */
  lemma NormalUnit(c: Scan, us: seq<Unit>, strtof: seq<byte> -> Float32)
    requires Coherent(c) && c.readTok
    requires c.state.InFacetVertexX? || c.state.InFacetVertexY? || c.state.InFacetVertexZ?
    requires us != [] && Clean(us[0]) && At(c.src, UnitsBytes(us))
    ensures UnitsBytes(us) == UnitBytes(us[0]) + UnitsBytes(us[1..])
    ensures At(After(c.src, |UnitBytes(us[0])|), UnitsBytes(us[1..]))
    ensures Iteration(c, strtof) ==
      Next(c.(state := NextComponent(c.state), tok := us[0].word, src := After(c.src, |UnitBytes(us[0])|),
              normals := c.normals + [strtof(us[0].word)]))
  {
    ReadUnit(c.src, us);
    assert Fetch(c) == c.(tok := us[0].word, src := After(c.src, |UnitBytes(us[0])|));
  }

  /** The x or y coordinate of a vertex is read from the next unit and appended */
  lemma CoordinateUnit(c: Scan, us: seq<Unit>, strtof: seq<byte> -> Float32)
    requires Coherent(c) && c.readTok && (c.state.InVertexX? || c.state.InVertexY?)
    requires us != [] && Clean(us[0]) && At(c.src, UnitsBytes(us))
    ensures UnitsBytes(us) == UnitBytes(us[0]) + UnitsBytes(us[1..])
    ensures At(After(c.src, |UnitBytes(us[0])|), UnitsBytes(us[1..]))
    ensures Iteration(c, strtof) ==
      Next(c.(state := NextComponent(c.state), tok := us[0].word, src := After(c.src, |UnitBytes(us[0])|),
              vectors := c.vectors + [strtof(us[0].word)]))
  {
    ReadUnit(c.src, us);
    assert Fetch(c) == c.(tok := us[0].word, src := After(c.src, |UnitBytes(us[0])|));
  }

  /** The z coordinate is read from the last unit of a vertex line, and the first unit of the
      next line ("vertex" or "endloop") is peeked and kept for the next pass */
  lemma LastCoordinateUnit(c: Scan, us: seq<Unit>, vs: seq<Unit>, strtof: seq<byte> -> Float32)
    requires Coherent(c) && c.readTok && c.state.InVertexZ?
    requires us != [] && Clean(us[0]) && At(c.src, UnitsBytes(us))
    requires vs != [] && Clean(vs[0]) && At(After(c.src, |UnitBytes(us[0])|), UnitsBytes(vs))
    requires vs[0].word == ENDLOOP || vs[0].word == VERTEX
    ensures UnitsBytes(vs) == UnitBytes(vs[0]) + UnitsBytes(vs[1..])
    ensures UnitsBytes(us) == UnitBytes(us[0]) + UnitsBytes(us[1..])
    ensures var next := After(After(c.src, |UnitBytes(us[0])|), |UnitBytes(vs[0])|);
      At(next, UnitsBytes(vs[1..])) &&
      Iteration(c, strtof) ==
        Next(Scan(if vs[0].word == ENDLOOP then InEndloop else InVertex, false, vs[0].word, next,
                  c.normals, c.vectors + [strtof(us[0].word)]))
  {
    ReadUnit(c.src, us);
    var s1 := After(c.src, |UnitBytes(us[0])|);
    var f := c.(tok := us[0].word, src := s1);
    assert Fetch(c) == f;
    ReadUnit(s1, vs);
    var next := After(s1, |UnitBytes(vs[0])|);
    assert NextToken(f.src) == Lexeme(vs[0].word, next);
    PeekStep(c, strtof);
  }

  /** The float printer writes every value as a non-empty word without delimiters that fits
      the token buffer (operator<< on a float with the default flags prints no blanks) */
  ghost predicate Printable(fmt: Float32 -> seq<byte>)
  {
    forall w: Float32 :: Plain(fmt(w))
  }

  /** The parser's progress over a run of units, followed word by word: keyword states must
      find their keyword, component and coordinate states take any clean word as a value, and
      the z coordinate of a vertex is followed by the peeked "vertex" or "endloop". None where
      the words leave that path. */
  ghost function Walk(c: Scan, us: seq<Unit>, strtof: seq<byte> -> Float32): Option<Scan>
    decreases |us|
  {
    if us == [] then Some(c)
    else if !Clean(us[0]) then None
    else
      var w := us[0].word;
      var s1 := After(c.src, |UnitBytes(us[0])|);
      match c.state
      case InFacetVertexX | InFacetVertexY | InFacetVertexZ =>
        Walk(Scan(NextComponent(c.state), true, w, s1, c.normals + [strtof(w)], c.vectors), us[1..], strtof)
      case InVertexX | InVertexY =>
        Walk(Scan(NextComponent(c.state), true, w, s1, c.normals, c.vectors + [strtof(w)]), us[1..], strtof)
      case InVertexZ =>
        if |us| < 2 || !Clean(us[1]) || !(us[1].word == ENDLOOP || us[1].word == VERTEX) then None
        else
          Walk(Scan(if us[1].word == ENDLOOP then InEndfacet else InVertexX, true, us[1].word,
                    After(s1, |UnitBytes(us[1])|), c.normals, c.vectors + [strtof(w)]), us[2..], strtof)
      case InFacet | InFacetNormal | InOuter | InOuterLoop | InVertex | InEndloop | InEndfacet =>
        if w != Keyword(c.state) then None
        else Walk(Scan(Successor(c.state), true, w, s1, c.normals, c.vectors), us[1..], strtof)
      case _ => None
  }

  /** A walk that completes over the units the input holds is what read_ascii does */
  lemma {:induction false} WalkRuns(c: Scan, us: seq<Unit>, strtof: seq<byte> -> Float32)
    requires Coherent(c) && c.readTok && At(c.src, UnitsBytes(us)) && Walk(c, us, strtof).Some?
    ensures var d := Walk(c, us, strtof).value;
      Coherent(d) && RunAscii(c, strtof) == RunAscii(d, strtof)
    decreases |us|, 1
  {
    if us != [] {
      match c.state {
        case InFacetVertexX | InFacetVertexY | InFacetVertexZ => WalkComponent(c, us, strtof);
        case InVertexX | InVertexY => WalkCoordinate(c, us, strtof);
        case InVertexZ => WalkPeek(c, us, strtof);
        case InFacet | InFacetNormal | InOuter | InOuterLoop | InVertex | InEndloop | InEndfacet =>
          WalkKeyword(c, us, strtof);
      }
    }
  }

  lemma {:induction false} WalkComponent(c: Scan, us: seq<Unit>, strtof: seq<byte> -> Float32)
    requires Coherent(c) && c.readTok && At(c.src, UnitsBytes(us)) && Walk(c, us, strtof).Some?
    requires us != [] && (c.state.InFacetVertexX? || c.state.InFacetVertexY? || c.state.InFacetVertexZ?)
    ensures var d := Walk(c, us, strtof).value;
      Coherent(d) && RunAscii(c, strtof) == RunAscii(d, strtof)
    decreases |us|, 0
  {
    var u := us[0];
    var d := Scan(NextComponent(c.state), true, u.word, After(c.src, |UnitBytes(u)|),
                  c.normals + [strtof(u.word)], c.vectors);
    assert Walk(c, us, strtof) == Walk(d, us[1..], strtof);
    NormalUnit(c, us, strtof);
    RunStep(c, d, strtof);
    WalkRuns(d, us[1..], strtof);
  }

  lemma {:induction false} WalkCoordinate(c: Scan, us: seq<Unit>, strtof: seq<byte> -> Float32)
    requires Coherent(c) && c.readTok && At(c.src, UnitsBytes(us)) && Walk(c, us, strtof).Some?
    requires us != [] && (c.state.InVertexX? || c.state.InVertexY?)
    ensures var d := Walk(c, us, strtof).value;
      Coherent(d) && RunAscii(c, strtof) == RunAscii(d, strtof)
    decreases |us|, 0
  {
    var u := us[0];
    var d := Scan(NextComponent(c.state), true, u.word, After(c.src, |UnitBytes(u)|),
                  c.normals, c.vectors + [strtof(u.word)]);
    assert Walk(c, us, strtof) == Walk(d, us[1..], strtof);
    CoordinateUnit(c, us, strtof);
    RunStep(c, d, strtof);
    WalkRuns(d, us[1..], strtof);
  }

  lemma {:induction false} WalkPeek(c: Scan, us: seq<Unit>, strtof: seq<byte> -> Float32)
    requires Coherent(c) && c.readTok && At(c.src, UnitsBytes(us)) && Walk(c, us, strtof).Some?
    requires us != [] && c.state.InVertexZ?
    ensures var d := Walk(c, us, strtof).value;
      Coherent(d) && RunAscii(c, strtof) == RunAscii(d, strtof)
    decreases |us|, 0
  {
    var u := us[0];
    var v := us[1];
    var next := After(After(c.src, |UnitBytes(u)|), |UnitBytes(v)|);
    var vectors := c.vectors + [strtof(u.word)];
    var n := Scan(if v.word == ENDLOOP then InEndloop else InVertex, false, v.word, next, c.normals, vectors);
    var d := Scan(if v.word == ENDLOOP then InEndfacet else InVertexX, true, v.word, next, c.normals, vectors);
    assert us[1..][1..] == us[2..];
    assert Walk(c, us, strtof) == Walk(d, us[2..], strtof);
    ReadUnit(c.src, us);
    LastCoordinateUnit(c, us, us[1..], strtof);
    RunStep(c, n, strtof);
    PeekedChecked(n, strtof);
    WalkRuns(d, us[2..], strtof);
  }

  lemma {:induction false} WalkKeyword(c: Scan, us: seq<Unit>, strtof: seq<byte> -> Float32)
    requires Coherent(c) && c.readTok && At(c.src, UnitsBytes(us)) && Walk(c, us, strtof).Some?
    requires us != [] && IsKeywordState(c.state) && !(c.state.InSolid? || c.state.InEndsolid?)
    ensures var d := Walk(c, us, strtof).value;
      Coherent(d) && RunAscii(c, strtof) == RunAscii(d, strtof)
    decreases |us|, 0
  {
    var u := us[0];
    var d := Scan(Successor(c.state), true, u.word, After(c.src, |UnitBytes(u)|), c.normals, c.vectors);
    assert Walk(c, us, strtof) == Walk(d, us[1..], strtof);
    KeywordUnit(c, us, strtof);
    RunStep(c, d, strtof);
    WalkRuns(d, us[1..], strtof);
  }

  lemma {:induction false} WalkAppend(c: Scan, a: seq<Unit>, b: seq<Unit>, strtof: seq<byte> -> Float32)
    requires Walk(c, a, strtof).Some?
    ensures Walk(c, a + b, strtof) == Walk(Walk(c, a, strtof).value, b, strtof)
    decreases |a|
  {
    if a == [] {
      assert a + b == b;
    } else {
      assert (a + b)[0] == a[0] && (a + b)[1..] == a[1..] + b;
      var w := a[0].word;
      var s1 := After(c.src, |UnitBytes(a[0])|);
      match c.state {
        case InFacetVertexX | InFacetVertexY | InFacetVertexZ =>
          WalkAppend(Scan(NextComponent(c.state), true, w, s1, c.normals + [strtof(w)], c.vectors), a[1..], b, strtof);
        case InVertexX | InVertexY =>
          WalkAppend(Scan(NextComponent(c.state), true, w, s1, c.normals, c.vectors + [strtof(w)]), a[1..], b, strtof);
        case InVertexZ =>
          assert (a + b)[1] == a[1] && (a + b)[2..] == a[2..] + b;
          WalkAppend(Scan(if a[1].word == ENDLOOP then InEndfacet else InVertexX, true, a[1].word,
                          After(s1, |UnitBytes(a[1])|), c.normals, c.vectors + [strtof(w)]), a[2..], b, strtof);
        case InFacet | InFacetNormal | InOuter | InOuterLoop | InVertex | InEndloop | InEndfacet =>
          WalkAppend(Scan(Successor(c.state), true, w, s1, c.normals, c.vectors), a[1..], b, strtof);
      }
    }
  }

  /** Where a walk leaves the stream: right after the bytes of the units it went over */
  lemma {:induction false} WalkSrc(c: Scan, us: seq<Unit>, strtof: seq<byte> -> Float32)
    requires !c.src.eof && Walk(c, us, strtof).Some?
    ensures Walk(c, us, strtof).value.src == After(c.src, |UnitsBytes(us)|)
    decreases |us|
  {
    if us != [] {
      var w := us[0].word;
      var s1 := After(c.src, |UnitBytes(us[0])|);
      match c.state {
        case InFacetVertexX | InFacetVertexY | InFacetVertexZ =>
          WalkSrc(Scan(NextComponent(c.state), true, w, s1, c.normals + [strtof(w)], c.vectors), us[1..], strtof);
        case InVertexX | InVertexY =>
          WalkSrc(Scan(NextComponent(c.state), true, w, s1, c.normals, c.vectors + [strtof(w)]), us[1..], strtof);
        case InVertexZ =>
          assert UnitsBytes(us[1..]) == UnitBytes(us[1]) + UnitsBytes(us[2..]);
          WalkSrc(Scan(if us[1].word == ENDLOOP then InEndfacet else InVertexX, true, us[1].word,
                       After(s1, |UnitBytes(us[1])|), c.normals, c.vectors + [strtof(w)]), us[2..], strtof);
        case InFacet | InFacetNormal | InOuter | InOuterLoop | InVertex | InEndloop | InEndfacet =>
          WalkSrc(Scan(Successor(c.state), true, w, s1, c.normals, c.vectors), us[1..], strtof);
      }
    }
  }

  lemma {:induction false} UnitsBytesAppend(a: seq<Unit>, b: seq<Unit>)
    ensures UnitsBytes(a + b) == UnitsBytes(a) + UnitsBytes(b)
    decreases |a|
  {
    if a == [] {
      assert a + b == b;
    } else {
      assert (a + b)[0] == a[0] && (a + b)[1..] == a[1..] + b;
      UnitsBytesAppend(a[1..], b);
    }
  }

  /** The units of a sequence of lines, in order */
  function LinesUnits(ls: seq<Line>, fmt: Float32 -> seq<byte>): seq<Unit>
  {
    if ls == [] then [] else LineUnits(ls[0], fmt) + LinesUnits(ls[1..], fmt)
  }

  lemma {:induction false} LinesUnitsAppend(a: seq<Line>, b: seq<Line>, fmt: Float32 -> seq<byte>)
    ensures LinesUnits(a + b, fmt) == LinesUnits(a, fmt) + LinesUnits(b, fmt)
    decreases |a|
  {
    if a == [] {
      assert a + b == b;
    } else {
      assert (a + b)[0] == a[0] && (a + b)[1..] == a[1..] + b;
      LinesUnitsAppend(a[1..], b, fmt);
    }
  }

  /** The rendered text of lines is the bytes of their units */
  lemma {:induction false} RenderUnits(ls: seq<Line>, fmt: Float32 -> seq<byte>)
    ensures Render(ls, fmt) == UnitsBytes(LinesUnits(ls, fmt))
    decreases |ls|
  {
    if ls != [] {
      RenderUnits(ls[1..], fmt);
      UnitsBytesAppend(LineUnits(ls[0], fmt), LinesUnits(ls[1..], fmt));
    }
  }

  const VERTEX_UNIT: Unit := Unit(2, VERTEX, SPACE)
  const ENDLOOP_UNIT: Unit := Unit(1, ENDLOOP, NEWLINE)
  const ENDFACET_UNIT: Unit := Unit(0, ENDFACET, NEWLINE)

  /** "facet normal x y z", "outer loop" and the "vertex" that opens the first vertex line */
  function HeadUnits(x: Float32, y: Float32, z: Float32, fmt: Float32 -> seq<byte>): seq<Unit>
  {
    [Unit(0, FACET, SPACE), Unit(0, NORMAL, SPACE),
     Unit(0, fmt(x), SPACE), Unit(0, fmt(y), SPACE), Unit(0, fmt(z), NEWLINE),
     Unit(1, OUTER, SPACE), Unit(0, LOOP, NEWLINE), VERTEX_UNIT]
  }

  /** The coordinates of a vertex line and the word that opens the line after it */
  function CoordinateUnits(x: Float32, y: Float32, z: Float32, next: Unit, fmt: Float32 -> seq<byte>): seq<Unit>
  {
    [Unit(0, fmt(x), SPACE), Unit(0, fmt(y), SPACE), Unit(0, fmt(z), NEWLINE), next]
  }

  /** The scan after the parser has consumed unit u and moved to state s */
  function Moved(c: Scan, s: ParseState, u: Unit, normals: seq<Float32>, vectors: seq<Float32>): Scan
  {
    Scan(s, true, u.word, After(c.src, |UnitBytes(u)|), normals, vectors)
  }

  /** The three values of a printed triple as strtof reads them back */
  function ReadBack(x: Float32, y: Float32, z: Float32, fmt: Float32 -> seq<byte>,
                    strtof: seq<byte> -> Float32): seq<Float32>
  {
    [strtof(fmt(x)), strtof(fmt(y)), strtof(fmt(z))]
  }

  lemma {:induction false} HeadWalk(c: Scan, x: Float32, y: Float32, z: Float32,
                                    fmt: Float32 -> seq<byte>, strtof: seq<byte> -> Float32)
    requires c.state.InFacet? && Printable(fmt)
    ensures var o := Walk(c, HeadUnits(x, y, z, fmt), strtof);
      o.Some? && o.value.state == InVertexX && o.value.readTok &&
      o.value.normals == c.normals + ReadBack(x, y, z, fmt, strtof) && o.value.vectors == c.vectors
  {
    KeywordsPlain();
    var us := HeadUnits(x, y, z, fmt);
    var n := c.normals;
    var v := c.vectors;
    var gx, gy, gz := strtof(fmt(x)), strtof(fmt(y)), strtof(fmt(z));
    assert Plain(fmt(x)) && Plain(fmt(y)) && Plain(fmt(z));
    var c1 := Moved(c, InFacetNormal, us[0], n, v);
    var c2 := Moved(c1, InFacetVertexX, us[1], n, v);
    var c3 := Moved(c2, InFacetVertexY, us[2], n + [gx], v);
    var c4 := Moved(c3, InFacetVertexZ, us[3], n + [gx] + [gy], v);
    var c5 := Moved(c4, InOuter, us[4], n + [gx] + [gy] + [gz], v);
    var c6 := Moved(c5, InOuterLoop, us[5], c5.normals, v);
    var c7 := Moved(c6, InVertex, us[6], c5.normals, v);
    var c8 := Moved(c7, InVertexX, us[7], c5.normals, v);
    assert Walk(c, us, strtof) == Walk(c1, us[1..], strtof);
    assert Walk(c1, us[1..], strtof) == Walk(c2, us[2..], strtof);
    assert Walk(c2, us[2..], strtof) == Walk(c3, us[3..], strtof);
    assert Walk(c3, us[3..], strtof) == Walk(c4, us[4..], strtof);
    assert Walk(c4, us[4..], strtof) == Walk(c5, us[5..], strtof);
    assert Walk(c5, us[5..], strtof) == Walk(c6, us[6..], strtof);
    assert Walk(c6, us[6..], strtof) == Walk(c7, us[7..], strtof);
    assert Walk(c7, us[7..], strtof) == Walk(c8, us[8..], strtof);
    assert us[8..] == [];
    assert n + [gx] + [gy] + [gz] == n + [gx, gy, gz];
  }

  lemma {:induction false} CoordinatesWalk(c: Scan, x: Float32, y: Float32, z: Float32, next: Unit,
                                           fmt: Float32 -> seq<byte>, strtof: seq<byte> -> Float32)
    requires c.state.InVertexX? && Printable(fmt) && (next == VERTEX_UNIT || next == ENDLOOP_UNIT)
    ensures var o := Walk(c, CoordinateUnits(x, y, z, next, fmt), strtof);
      o.Some? && o.value.state == (if next == ENDLOOP_UNIT then InEndfacet else InVertexX) && o.value.readTok &&
      o.value.normals == c.normals && o.value.vectors == c.vectors + ReadBack(x, y, z, fmt, strtof)
  {
    KeywordsPlain();
    var us := CoordinateUnits(x, y, z, next, fmt);
    var n := c.normals;
    var v := c.vectors;
    var gx, gy, gz := strtof(fmt(x)), strtof(fmt(y)), strtof(fmt(z));
    assert Plain(fmt(x)) && Plain(fmt(y)) && Plain(fmt(z));
    var c1 := Moved(c, InVertexY, us[0], n, v + [gx]);
    var c2 := Moved(c1, InVertexZ, us[1], n, v + [gx] + [gy]);
    var c3 := Moved(c2, InVertexZ, us[2], n, v + [gx] + [gy] + [gz]);
    var c4 := Moved(c3, if next == ENDLOOP_UNIT then InEndfacet else InVertexX, us[3], n, c3.vectors);
    assert Walk(c, us, strtof) == Walk(c1, us[1..], strtof);
    assert Walk(c1, us[1..], strtof) == Walk(c2, us[2..], strtof);
    assert us[2..][1] == next && us[2..][2..] == [];
    assert next.word == ENDLOOP <==> next == ENDLOOP_UNIT;
    assert Walk(c2, us[2..], strtof) == Walk(c4, [], strtof);
    assert v + [gx] + [gy] + [gz] == v + [gx, gy, gz];
  }

  lemma {:induction false} EndFacetWalk(c: Scan, strtof: seq<byte> -> Float32)
    requires c.state.InEndfacet?
    ensures var o := Walk(c, [ENDFACET_UNIT], strtof);
      o.Some? && o.value.state == InFacet && o.value.readTok &&
      o.value.normals == c.normals && o.value.vectors == c.vectors
  {
    KeywordsPlain();
    var us := [ENDFACET_UNIT];
    assert Walk(c, us, strtof) == Walk(Moved(c, InFacet, ENDFACET_UNIT, c.normals, c.vectors), us[1..], strtof);
  }

  /** The units of the seven lines of triangle t, grouped as the parser consumes them */
  function FacetUnits(normals: seq<Float32>, vectors: seq<Float32>, t: nat, fmt: Float32 -> seq<byte>): seq<Unit>
    requires 3 * t + 3 <= |normals| && 9 * t + 9 <= |vectors|
  {
    HeadUnits(normals[3 * t], normals[3 * t], normals[3 * t + 2], fmt)
      + CoordinateUnits(vectors[9 * t], vectors[9 * t], vectors[9 * t + 2], VERTEX_UNIT, fmt)
      + CoordinateUnits(vectors[9 * t + 3], vectors[9 * t + 3], vectors[9 * t + 5], VERTEX_UNIT, fmt)
      + CoordinateUnits(vectors[9 * t + 6], vectors[9 * t + 6], vectors[9 * t + 8], ENDLOOP_UNIT, fmt)
      + [ENDFACET_UNIT]
  }

  /** Seven lines' units regrouped at the words where the parser's segments begin */
  lemma Regroup(a0: seq<Unit>, a1: seq<Unit>, a2: seq<Unit>, a3: seq<Unit>, a4: seq<Unit>,
                a5: seq<Unit>, a6: seq<Unit>)
    requires |a2| >= 1 && |a3| >= 1 && |a4| >= 1
    ensures a0 + a1 + a2 + a3 + a4 + a5 + a6 ==
            (a0 + a1 + a2[..1]) + (a2[1..] + a3[..1]) + (a3[1..] + a4[..1]) + (a4[1..] + a5) + a6
  {
    assert a2 == a2[..1] + a2[1..];
    assert a3 == a3[..1] + a3[1..];
    assert a4 == a4[..1] + a4[1..];
  }

  /** One more line adds its units at the end */
  lemma {:induction false} LinesUnitsSnoc(ls: seq<Line>, i: nat, fmt: Float32 -> seq<byte>)
    requires i < |ls|
    ensures LinesUnits(ls[..i + 1], fmt) == LinesUnits(ls[..i], fmt) + LineUnits(ls[i], fmt)
  {
    assert ls[..i + 1] == ls[..i] + [ls[i]];
    LinesUnitsAppend(ls[..i], [ls[i]], fmt);
    assert LinesUnits([ls[i]], fmt) == LineUnits(ls[i], fmt) + LinesUnits([], fmt);
  }

  lemma {:induction false} SevenLinesUnits(ls: seq<Line>, fmt: Float32 -> seq<byte>)
    requires |ls| == 7
    ensures LinesUnits(ls, fmt) ==
      LineUnits(ls[0], fmt) + LineUnits(ls[1], fmt) + LineUnits(ls[2], fmt) + LineUnits(ls[3], fmt) +
      LineUnits(ls[4], fmt) + LineUnits(ls[5], fmt) + LineUnits(ls[6], fmt)
  {
    var u0, u1, u2, u3 := LineUnits(ls[0], fmt), LineUnits(ls[1], fmt), LineUnits(ls[2], fmt), LineUnits(ls[3], fmt);
    var u4, u5, u6 := LineUnits(ls[4], fmt), LineUnits(ls[5], fmt), LineUnits(ls[6], fmt);
    assert LinesUnits(ls[..3], fmt) == u0 + u1 + u2 by {
      assert ls[..0] == [];
      LinesUnitsSnoc(ls, 0, fmt);
      LinesUnitsSnoc(ls, 1, fmt);
      LinesUnitsSnoc(ls, 2, fmt);
    }
    assert LinesUnits(ls[..5], fmt) == LinesUnits(ls[..3], fmt) + u3 + u4 by {
      LinesUnitsSnoc(ls, 3, fmt);
      LinesUnitsSnoc(ls, 4, fmt);
    }
    assert LinesUnits(ls[..7], fmt) == LinesUnits(ls[..5], fmt) + u5 + u6 by {
      LinesUnitsSnoc(ls, 5, fmt);
      LinesUnitsSnoc(ls, 6, fmt);
    }
    assert ls[..7] == ls;
  }

  lemma {:induction false} FacetUnitsOfLines(normals: seq<Float32>, vectors: seq<Float32>, t: nat,
                                             fmt: Float32 -> seq<byte>)
    requires 3 * t + 3 <= |normals| && 9 * t + 9 <= |vectors|
    ensures LinesUnits(FacetLines(normals, vectors, t), fmt) == FacetUnits(normals, vectors, t, fmt)
  {
    var ls := FacetLines(normals, vectors, t);
    SevenLinesUnits(ls, fmt);
    var u0, u1, u2, u3 := LineUnits(ls[0], fmt), LineUnits(ls[1], fmt), LineUnits(ls[2], fmt), LineUnits(ls[3], fmt);
    var u4, u5, u6 := LineUnits(ls[4], fmt), LineUnits(ls[5], fmt), LineUnits(ls[6], fmt);
    Regroup(u0, u1, u2, u3, u4, u5, u6);
    var n := 3 * t;
    var v := 9 * t;
    assert u0 + u1 + u2[..1] == HeadUnits(normals[n], normals[n], normals[n + 2], fmt);
    assert u2[1..] + u3[..1] == CoordinateUnits(vectors[v], vectors[v], vectors[v + 2], VERTEX_UNIT, fmt);
    assert u3[1..] + u4[..1] == CoordinateUnits(vectors[v + 3], vectors[v + 3], vectors[v + 5], VERTEX_UNIT, fmt);
    assert u4[1..] + u5 == CoordinateUnits(vectors[v + 6], vectors[v + 6], vectors[v + 8], ENDLOOP_UNIT, fmt);
    assert u6 == [ENDFACET_UNIT];
  }

  /** The values ws[3j..3k], three per line, as the parser reads them back from the writer's
      output: each triple is printed as (x, x, z), so the second value of every triple is
      the first one read again, and every value goes through the printer and strtof. */
  function Echo(ws: seq<Float32>, j: nat, k: nat, fmt: Float32 -> seq<byte>,
                strtof: seq<byte> -> Float32): (r: seq<Float32>)
    requires j <= k && 3 * k <= |ws|
    ensures |r| == 3 * (k - j)
    decreases k - j
  {
    if j == k then []
    else ReadBack(ws[3 * j], ws[3 * j], ws[3 * j + 2], fmt, strtof) + Echo(ws, j + 1, k, fmt, strtof)
  }

  /** Value m of the echo is the first or the third value of triple j + m / 3 */
  lemma {:induction false} EchoValues(ws: seq<Float32>, j: nat, k: nat, fmt: Float32 -> seq<byte>,
                                      strtof: seq<byte> -> Float32)
    requires j <= k && 3 * k <= |ws|
    ensures forall m :: 0 <= m < 3 * (k - j) ==>
      Echo(ws, j, k, fmt, strtof)[m] == strtof(fmt(ws[3 * j + m - m % 3 + (if m % 3 == 2 then 2 else 0)]))
    decreases k - j
  {
    if j < k {
      EchoValues(ws, j + 1, k, fmt, strtof);
      var r := Echo(ws, j, k, fmt, strtof);
      var rest := Echo(ws, j + 1, k, fmt, strtof);
      forall m | 3 <= m < |r|
        ensures r[m] == strtof(fmt(ws[3 * j + m - m % 3 + (if m % 3 == 2 then 2 else 0)]))
      {
        var i := m - 3;
        assert r[m] == rest[i];
        assert i % 3 == m % 3;
        assert rest[i] == strtof(fmt(ws[3 * (j + 1) + i - i % 3 + (if i % 3 == 2 then 2 else 0)]));
      }
    }
  }

  lemma {:induction false} EchoAppend(ws: seq<Float32>, i: nat, j: nat, k: nat, fmt: Float32 -> seq<byte>,
                                      strtof: seq<byte> -> Float32)
    requires i <= j <= k && 3 * k <= |ws|
    ensures Echo(ws, i, j, fmt, strtof) + Echo(ws, j, k, fmt, strtof) == Echo(ws, i, k, fmt, strtof)
    decreases j - i
  {
    if i == j {
      assert Echo(ws, i, j, fmt, strtof) == [];
    } else {
      EchoAppend(ws, i + 1, j, k, fmt, strtof);
    }
  }

  /** The values one triangle contributes: one triple of normals and three of vertices */
  lemma {:induction false} EchoOfFacet(normals: seq<Float32>, vectors: seq<Float32>, t: nat,
                                       fmt: Float32 -> seq<byte>, strtof: seq<byte> -> Float32)
    requires 3 * t + 3 <= |normals| && 9 * t + 9 <= |vectors|
    ensures Echo(normals, t, t + 1, fmt, strtof) ==
      ReadBack(normals[3 * t], normals[3 * t], normals[3 * t + 2], fmt, strtof)
    ensures Echo(vectors, 3 * t, 3 * (t + 1), fmt, strtof) ==
      ReadBack(vectors[9 * t], vectors[9 * t], vectors[9 * t + 2], fmt, strtof) +
      ReadBack(vectors[9 * t + 3], vectors[9 * t + 3], vectors[9 * t + 5], fmt, strtof) +
      ReadBack(vectors[9 * t + 6], vectors[9 * t + 6], vectors[9 * t + 8], fmt, strtof)
  {
    var e := Echo(vectors, 3 * t + 3, 3 * (t + 1), fmt, strtof);
    assert e == [];
    assert Echo(normals, t + 1, t + 1, fmt, strtof) == [];
    var r2 := ReadBack(vectors[9 * t + 6], vectors[9 * t + 6], vectors[9 * t + 8], fmt, strtof);
    assert Echo(vectors, 3 * t + 2, 3 * (t + 1), fmt, strtof) == r2 + e;
    var r1 := ReadBack(vectors[9 * t + 3], vectors[9 * t + 3], vectors[9 * t + 5], fmt, strtof);
    assert Echo(vectors, 3 * t + 1, 3 * (t + 1), fmt, strtof) == r1 + (r2 + e);
  }

  /** The parser goes through the units of one triangle from in_facet back to in_facet,
      reading its normal and its three vertices, each printed as (x, x, z) */
  lemma {:induction false} TriangleWalk(c: Scan, nx: Float32, nz: Float32, ax: Float32, az: Float32,
                                        bx: Float32, bz: Float32, ex: Float32, ez: Float32,
                                        fmt: Float32 -> seq<byte>, strtof: seq<byte> -> Float32)
    requires c.state.InFacet? && Printable(fmt)
    ensures InFacetWith(
      Walk(c, HeadUnits(nx, nx, nz, fmt) + CoordinateUnits(ax, ax, az, VERTEX_UNIT, fmt)
              + CoordinateUnits(bx, bx, bz, VERTEX_UNIT, fmt) + CoordinateUnits(ex, ex, ez, ENDLOOP_UNIT, fmt)
              + [ENDFACET_UNIT], strtof),
      c.normals + ReadBack(nx, nx, nz, fmt, strtof),
      c.vectors + (ReadBack(ax, ax, az, fmt, strtof) + ReadBack(bx, bx, bz, fmt, strtof) +
                   ReadBack(ex, ex, ez, fmt, strtof)))
  {
    var h := HeadUnits(nx, nx, nz, fmt);
    var a := CoordinateUnits(ax, ax, az, VERTEX_UNIT, fmt);
    var b := CoordinateUnits(bx, bx, bz, VERTEX_UNIT, fmt);
    var e := CoordinateUnits(ex, ex, ez, ENDLOOP_UNIT, fmt);
    var r0 := ReadBack(ax, ax, az, fmt, strtof);
    var r1 := ReadBack(bx, bx, bz, fmt, strtof);
    var r2 := ReadBack(ex, ex, ez, fmt, strtof);
    HeadWalk(c, nx, nx, nz, fmt, strtof);
    var d1 := Walk(c, h, strtof).value;
    CoordinatesWalk(d1, ax, ax, az, VERTEX_UNIT, fmt, strtof);
    var d2 := Walk(d1, a, strtof).value;
    ComposeWalks(c, h, a, d1, d2, strtof);
    CoordinatesWalk(d2, bx, bx, bz, VERTEX_UNIT, fmt, strtof);
    var d3 := Walk(d2, b, strtof).value;
    ComposeWalks(c, h + a, b, d2, d3, strtof);
    CoordinatesWalk(d3, ex, ex, ez, ENDLOOP_UNIT, fmt, strtof);
    var d4 := Walk(d3, e, strtof).value;
    ComposeWalks(c, h + a + b, e, d3, d4, strtof);
    EndFacetWalk(d4, strtof);
    var d5 := Walk(d4, [ENDFACET_UNIT], strtof).value;
    ComposeWalks(c, h + a + b + e, [ENDFACET_UNIT], d4, d5, strtof);
    AppendAssoc(c.vectors, r0, r1);
    AppendAssoc(c.vectors, r0 + r1, r2);
  }

  /** Triangle t of the writer's arrays, walked by the parser */
  lemma {:induction false} FacetWalk(c: Scan, normals: seq<Float32>, vectors: seq<Float32>, t: nat,
                                     fmt: Float32 -> seq<byte>, strtof: seq<byte> -> Float32)
    requires c.state.InFacet? && Printable(fmt)
    requires 3 * t + 3 <= |normals| && 9 * t + 9 <= |vectors|
    ensures InFacetWith(Walk(c, FacetUnits(normals, vectors, t, fmt), strtof),
                        c.normals + Echo(normals, t, t + 1, fmt, strtof),
                        c.vectors + Echo(vectors, 3 * t, 3 * (t + 1), fmt, strtof))
  {
    TriangleWalk(c, normals[3 * t], normals[3 * t + 2], vectors[9 * t], vectors[9 * t + 2],
                 vectors[9 * t + 3], vectors[9 * t + 5], vectors[9 * t + 6], vectors[9 * t + 8], fmt, strtof);
    EchoOfFacet(normals, vectors, t, fmt, strtof);
  }

  /** Values echoed for rows i to j - 1 and then j to k - 1, appended to what was read before */
  lemma EchoJoin(base: seq<Float32>, ws: seq<Float32>, i: nat, j: nat, k: nat, fmt: Float32 -> seq<byte>,
                 strtof: seq<byte> -> Float32)
    requires i <= j <= k && 3 * k <= |ws|
    ensures base + Echo(ws, i, j, fmt, strtof) + Echo(ws, j, k, fmt, strtof) == base + Echo(ws, i, k, fmt, strtof)
  {
    AppendAssoc(base, Echo(ws, i, j, fmt, strtof), Echo(ws, j, k, fmt, strtof));
    EchoAppend(ws, i, j, k, fmt, strtof);
  }

  lemma AppendAssoc(a: seq<Float32>, b: seq<Float32>, c: seq<Float32>)
    ensures a + b + c == a + (b + c)
  {
  }

  /** Two walks from in_facet back to in_facet, one after the other */
  lemma ComposeWalks(c: Scan, a: seq<Unit>, b: seq<Unit>, d: Scan, e: Scan, strtof: seq<byte> -> Float32)
    requires Walk(c, a, strtof) == Some(d) && Walk(d, b, strtof) == Some(e)
    ensures Walk(c, a + b, strtof) == Some(e)
  {
    WalkAppend(c, a, b, strtof);
  }

  /** The units of triangles j to k - 1 are those of triangle j, then those of the rest */
  lemma {:induction false} FacetsUnitsSplit(normals: seq<Float32>, vectors: seq<Float32>, j: nat, k: nat,
                                            fmt: Float32 -> seq<byte>)
    requires j < k && 3 * k <= |normals| && 9 * k <= |vectors|
    ensures LinesUnits(FacetsBetween(normals, vectors, j, k), fmt) ==
      FacetUnits(normals, vectors, j, fmt) + LinesUnits(FacetsBetween(normals, vectors, j + 1, k), fmt)
  {
    LinesUnitsAppend(FacetLines(normals, vectors, j), FacetsBetween(normals, vectors, j + 1, k), fmt);
    FacetUnitsOfLines(normals, vectors, j, fmt);
  }

  /** The walk over triangles j to k - 1 is the walk over triangle j followed by the walk
      over the rest */
  lemma {:induction false} FacetStep(c: Scan, normals: seq<Float32>, vectors: seq<Float32>, j: nat, k: nat,
                                     fmt: Float32 -> seq<byte>, strtof: seq<byte> -> Float32)
    requires c.state.InFacet? && Printable(fmt)
    requires j < k && 3 * k <= |normals| && 9 * k <= |vectors|
    ensures exists d: Scan ::
      (d.state.InFacet? && d.readTok &&
       d.normals == c.normals + Echo(normals, j, j + 1, fmt, strtof) &&
       d.vectors == c.vectors + Echo(vectors, 3 * j, 3 * (j + 1), fmt, strtof) &&
       Walk(c, LinesUnits(FacetsBetween(normals, vectors, j, k), fmt), strtof) ==
         Walk(d, LinesUnits(FacetsBetween(normals, vectors, j + 1, k), fmt), strtof))
  {
    var here := FacetUnits(normals, vectors, j, fmt);
    var later := LinesUnits(FacetsBetween(normals, vectors, j + 1, k), fmt);
    FacetsUnitsSplit(normals, vectors, j, k, fmt);
    FacetWalk(c, normals, vectors, j, fmt, strtof);
    WalkAppend(c, here, later, strtof);
    var d := Walk(c, here, strtof).value;
    assert Walk(c, LinesUnits(FacetsBetween(normals, vectors, j, k), fmt), strtof) == Walk(d, later, strtof);
  }

  /** The walk ends in in_facet, ready for the next keyword, with these values read */
  ghost predicate InFacetWith(o: Option<Scan>, normals: seq<Float32>, vectors: seq<Float32>)
  {
    o.Some? && o.value.state == InFacet && o.value.readTok &&
    o.value.normals == normals && o.value.vectors == vectors
  }

  /** The parser goes through the units of triangles j to k - 1, ending in in_facet with the
      values of those triangles appended */
  lemma {:induction false} FacetsWalk(c: Scan, normals: seq<Float32>, vectors: seq<Float32>, j: nat, k: nat,
                                      fmt: Float32 -> seq<byte>, strtof: seq<byte> -> Float32)
    requires c.state.InFacet? && c.readTok && Printable(fmt)
    requires j <= k && 3 * k <= |normals| && 9 * k <= |vectors|
    ensures InFacetWith(Walk(c, LinesUnits(FacetsBetween(normals, vectors, j, k), fmt), strtof),
                        c.normals + Echo(normals, j, k, fmt, strtof),
                        c.vectors + Echo(vectors, 3 * j, 3 * k, fmt, strtof))
    decreases k - j, 1
  {
    if j == k {
      assert LinesUnits(FacetsBetween(normals, vectors, j, k), fmt) == [];
      assert Walk(c, [], strtof) == Some(c);
      assert Echo(normals, j, k, fmt, strtof) == [] && Echo(vectors, 3 * j, 3 * k, fmt, strtof) == [];
    } else {
      FacetsWalkStep(c, normals, vectors, j, k, fmt, strtof);
    }
  }

  lemma {:induction false} FacetsWalkStep(c: Scan, normals: seq<Float32>, vectors: seq<Float32>, j: nat, k: nat,
                                          fmt: Float32 -> seq<byte>, strtof: seq<byte> -> Float32)
    requires c.state.InFacet? && c.readTok && Printable(fmt)
    requires j < k && 3 * k <= |normals| && 9 * k <= |vectors|
    ensures InFacetWith(Walk(c, LinesUnits(FacetsBetween(normals, vectors, j, k), fmt), strtof),
                        c.normals + Echo(normals, j, k, fmt, strtof),
                        c.vectors + Echo(vectors, 3 * j, 3 * k, fmt, strtof))
    decreases k - j, 0
  {
    FacetStep(c, normals, vectors, j, k, fmt, strtof);
    var d: Scan :| d.state.InFacet? && d.readTok &&
      d.normals == c.normals + Echo(normals, j, j + 1, fmt, strtof) &&
      d.vectors == c.vectors + Echo(vectors, 3 * j, 3 * (j + 1), fmt, strtof) &&
      Walk(c, LinesUnits(FacetsBetween(normals, vectors, j, k), fmt), strtof) ==
        Walk(d, LinesUnits(FacetsBetween(normals, vectors, j + 1, k), fmt), strtof);
    FacetsWalk(d, normals, vectors, j + 1, k, fmt, strtof);
    FacetsChain(c, d, normals, vectors, j, k, fmt, strtof);
  }

  /** Triangle j read, then triangles j + 1 to k - 1: the values of triangles j to k - 1 */
  lemma FacetsChain(c: Scan, d: Scan, normals: seq<Float32>, vectors: seq<Float32>, j: nat, k: nat,
                    fmt: Float32 -> seq<byte>, strtof: seq<byte> -> Float32)
    requires j < k && 3 * k <= |normals| && 9 * k <= |vectors|
    requires d.normals == c.normals + Echo(normals, j, j + 1, fmt, strtof)
    requires d.vectors == c.vectors + Echo(vectors, 3 * j, 3 * (j + 1), fmt, strtof)
    requires Walk(c, LinesUnits(FacetsBetween(normals, vectors, j, k), fmt), strtof) ==
      Walk(d, LinesUnits(FacetsBetween(normals, vectors, j + 1, k), fmt), strtof)
    requires InFacetWith(Walk(d, LinesUnits(FacetsBetween(normals, vectors, j + 1, k), fmt), strtof),
                         d.normals + Echo(normals, j + 1, k, fmt, strtof),
                         d.vectors + Echo(vectors, 3 * (j + 1), 3 * k, fmt, strtof))
    ensures InFacetWith(Walk(c, LinesUnits(FacetsBetween(normals, vectors, j, k), fmt), strtof),
                        c.normals + Echo(normals, j, k, fmt, strtof),
                        c.vectors + Echo(vectors, 3 * j, 3 * k, fmt, strtof))
  {
    ChainWalks(c, d, LinesUnits(FacetsBetween(normals, vectors, j, k), fmt),
               LinesUnits(FacetsBetween(normals, vectors, j + 1, k), fmt),
               Echo(normals, j, j + 1, fmt, strtof), Echo(normals, j + 1, k, fmt, strtof),
               Echo(vectors, 3 * j, 3 * (j + 1), fmt, strtof), Echo(vectors, 3 * (j + 1), 3 * k, fmt, strtof), strtof);
    EchoJoin(c.normals, normals, j, j + 1, k, fmt, strtof);
    EchoJoin(c.vectors, vectors, 3 * j, 3 * (j + 1), 3 * k, fmt, strtof);
  }

  /** A walk that continues where another one left off ends with both walks' values */
  lemma ChainWalks(c: Scan, d: Scan, all: seq<Unit>, later: seq<Unit>, n1: seq<Float32>, n2: seq<Float32>,
                   v1: seq<Float32>, v2: seq<Float32>, strtof: seq<byte> -> Float32)
    requires Walk(c, all, strtof) == Walk(d, later, strtof)
    requires d.normals == c.normals + n1 && d.vectors == c.vectors + v1
    requires InFacetWith(Walk(d, later, strtof), d.normals + n2, d.vectors + v2)
    ensures InFacetWith(Walk(c, all, strtof), c.normals + n1 + n2, c.vectors + v1 + v2)
  {
  }

  /** A solid name read_line gives back whole on the "solid" line: shorter than the token
      buffer, without NUL or newline bytes, not starting with a byte read_line skips, and not
      starting with "facet" (which read_ascii would take for the first facet's keyword) */
  predicate NameRoundTrips(name: seq<byte>)
  {
    |name| < MAX_TEXT && (forall k :: 0 <= k < |name| ==> name[k] != 0 && name[k] != NEWLINE) &&
    (|name| > 0 ==> !IsLineLead(name[0])) && !StartsWith(name, FACET)
  }

  const SOLID_UNIT: Unit := Unit(0, SOLID, SPACE)
  const ENDSOLID_UNIT: Unit := Unit(0, ENDSOLID, SPACE)

  function NameUnit(name: seq<byte>): Unit
  {
    Unit(0, name, NEWLINE)
  }

  /** The bytes of a consistent solid: the "solid" line, the triangles, the "endsolid" line */
  lemma {:induction false} SolidBytes(name: seq<byte>, count: nat, normals: seq<Float32>, vectors: seq<Float32>,
                                      colours: nat, fmt: Float32 -> seq<byte>)
    requires Consistent(count, |normals|, |vectors|)
    ensures Render(AsciiLines(name, count, normals, vectors, colours), fmt) ==
      UnitsBytes([SOLID_UNIT, NameUnit(name)]) +
      (UnitsBytes(LinesUnits(FacetsBetween(normals, vectors, 0, count), fmt)) +
       UnitsBytes([ENDSOLID_UNIT, NameUnit(name)]))
  {
    var head := [SolidLine(name)];
    var body := FacetsBetween(normals, vectors, 0, count);
    var tail := [EndSolidLine(name)];
    var hu := [SOLID_UNIT, NameUnit(name)];
    var bu := LinesUnits(body, fmt);
    var tu := [ENDSOLID_UNIT, NameUnit(name)];
    assert AsciiLines(name, count, normals, vectors, colours) == head + (body + tail);
    assert LinesUnits(head + (body + tail), fmt) == hu + (bu + tu) by {
      LinesUnitsAppend(head, body + tail, fmt);
      LinesUnitsAppend(body, tail, fmt);
      assert LinesUnits(head, fmt) == hu + LinesUnits([], fmt);
      assert LinesUnits(tail, fmt) == tu + LinesUnits([], fmt);
    }
    assert UnitsBytes(hu + (bu + tu)) == UnitsBytes(hu) + (UnitsBytes(bu) + UnitsBytes(tu)) by {
      UnitsBytesAppend(hu, bu + tu);
      UnitsBytesAppend(bu, tu);
    }
    RenderUnits(head + (body + tail), fmt);
  }

  /** The first pass reads "solid" and the name line, and leaves the parser in in_facet asking
      for a new token */
  lemma {:induction false} SolidHeader(data: seq<byte>, name: seq<byte>, strtof: seq<byte> -> Float32)
    requires NameRoundTrips(name) && At(Start(data), UnitsBytes([SOLID_UNIT, NameUnit(name)]))
    ensures Iteration(Begin(data), strtof) ==
      Next(Scan(InFacet, true, name, After(Start(data), |UnitsBytes([SOLID_UNIT, NameUnit(name)])|), [], []))
  {
    KeywordsPlain();
    var us := [SOLID_UNIT, NameUnit(name)];
    ReadUnit(Start(data), us);
    var s1 := After(Start(data), |UnitBytes(SOLID_UNIT)|);
    assert UnitsBytes(us[1..]) == UnitBytes(NameUnit(name)) + UnitsBytes([]);
    UnitLayout(s1, NameUnit(name));
    ReadLineOfLine(s1, 0, name);
    var c := CStr(name);
    assert |c| == |name|;
    assert c == name;
  }

  /** "endsolid" where the next facet would begin ends the loop with the buffers unchanged */
  lemma {:induction false} SolidTail(d: Scan, name: seq<byte>, strtof: seq<byte> -> Float32)
    requires Coherent(d) && d.state.InFacet? && d.readTok
    requires At(d.src, UnitsBytes([ENDSOLID_UNIT, NameUnit(name)]))
    ensures RunAscii(d, strtof).Accepted?
    ensures RunAscii(d, strtof).normals == d.normals && RunAscii(d, strtof).vectors == d.vectors
  {
    KeywordsPlain();
    ReadUnit(d.src, [ENDSOLID_UNIT, NameUnit(name)]);
    EndsolidLookahead(d, strtof);
  }

  /** read_ascii reads back what create_stl_ascii wrote for a consistent object: the file is
      accepted, and the buffers hold, in order, the values of every triangle as printed and
      read back by strtof, the x value of each triple standing in for its y value. */
  lemma {:induction false} AsciiRoundTrip(name: seq<byte>, count: nat, normals: seq<Float32>, vectors: seq<Float32>,
                                          colours: nat, fmt: Float32 -> seq<byte>, strtof: seq<byte> -> Float32)
    requires Consistent(count, |normals|, |vectors|) && Printable(fmt) && NameRoundTrips(name)
    ensures var r := ParseAscii(Render(AsciiLines(name, count, normals, vectors, colours), fmt), strtof);
      r.Accepted? && r.normals == Echo(normals, 0, count, fmt, strtof) &&
      r.vectors == Echo(vectors, 0, 3 * count, fmt, strtof)
  {
    var data := Render(AsciiLines(name, count, normals, vectors, colours), fmt);
    var head := UnitsBytes([SOLID_UNIT, NameUnit(name)]);
    var us := LinesUnits(FacetsBetween(normals, vectors, 0, count), fmt);
    var tail := UnitsBytes([ENDSOLID_UNIT, NameUnit(name)]);
    SolidBytes(name, count, normals, vectors, colours, fmt);
    assert At(Start(data), head + (UnitsBytes(us) + tail));
    AtSplit(Start(data), head, UnitsBytes(us) + tail);
    SolidHeader(data, name, strtof);
    var c := Scan(InFacet, true, name, After(Start(data), |head|), [], []);
    RunStep(Begin(data), c, strtof);
    SolidBody(c, name, count, normals, vectors, fmt, strtof);
  }

  /** From in_facet after the name line, the triangles and the "endsolid" line */
  lemma {:induction false} SolidBody(c: Scan, name: seq<byte>, count: nat, normals: seq<Float32>,
                                     vectors: seq<Float32>, fmt: Float32 -> seq<byte>, strtof: seq<byte> -> Float32)
    requires Coherent(c) && c.state.InFacet? && c.readTok && c.normals == [] && c.vectors == []
    requires 3 * count <= |normals| && 9 * count <= |vectors| && Printable(fmt)
    requires At(c.src, UnitsBytes(LinesUnits(FacetsBetween(normals, vectors, 0, count), fmt)) +
                       UnitsBytes([ENDSOLID_UNIT, NameUnit(name)]))
    ensures var r := RunAscii(c, strtof);
      r.Accepted? && r.normals == Echo(normals, 0, count, fmt, strtof) &&
      r.vectors == Echo(vectors, 0, 3 * count, fmt, strtof)
  {
    var us := LinesUnits(FacetsBetween(normals, vectors, 0, count), fmt);
    AtSplit(c.src, UnitsBytes(us), UnitsBytes([ENDSOLID_UNIT, NameUnit(name)]));
    FacetsWalk(c, normals, vectors, 0, count, fmt, strtof);
    WalkRuns(c, us, strtof);
    WalkSrc(c, us, strtof);
    var d := Walk(c, us, strtof).value;
    SolidTail(d, name, strtof);
  }

  /** When the sizes disagree the writer's one line begins with "Invalid", which read_ascii
      rejects where it expects "solid" */
  lemma {:induction false} InvalidDataRejected(name: seq<byte>, count: nat, normals: seq<Float32>,
                                               vectors: seq<Float32>, colours: nat,
                                               fmt: Float32 -> seq<byte>, strtof: seq<byte> -> Float32)
    requires !Consistent(count, |normals|, |vectors|)
    ensures ParseAscii(Render(AsciiLines(name, count, normals, vectors, colours), fmt), strtof).Rejected?
  {
    var l := InvalidDataLine(count, |vectors|, |normals|, colours);
    var data := Render(AsciiLines(name, count, normals, vectors, colours), fmt);
    assert AsciiLines(name, count, normals, vectors, colours) == [l];
    assert [l][1..] == [];
    assert data == Text(l, fmt) + Render([], fmt);
    var us := LineUnits(l, fmt);
    assert Plain(INVALID_WORD);
    AtSplit(Start(data), UnitsBytes(us), []);
    ReadUnit(Start(data), us);
    assert INVALID_WORD[0] != SOLID[0];
    KeywordMismatchRejects(Begin(data), strtof);
  }

  /** With a printer that strtof reads back exactly, the echo of k triples has the triples'
      length and equals them exactly when every triple has y == x */
  lemma {:induction false} EchoExact(ws: seq<Float32>, k: nat, fmt: Float32 -> seq<byte>,
                                     strtof: seq<byte> -> Float32)
    requires |ws| == 3 * k
    requires forall w: Float32 :: strtof(fmt(w)) == w
    ensures |Echo(ws, 0, k, fmt, strtof)| == |ws|
    ensures Echo(ws, 0, k, fmt, strtof) == ws <==> forall i :: 0 <= i < k ==> ws[3 * i + 1] == ws[3 * i]
  {
    EchoValues(ws, 0, k, fmt, strtof);
    if Echo(ws, 0, k, fmt, strtof) == ws {
      EchoExactOnlyIf(ws, k, fmt, strtof);
    }
    if forall i :: 0 <= i < k ==> ws[3 * i + 1] == ws[3 * i] {
      EchoExactIf(ws, k, fmt, strtof);
    }
  }

  lemma {:induction false} EchoExactOnlyIf(ws: seq<Float32>, k: nat, fmt: Float32 -> seq<byte>,
                                           strtof: seq<byte> -> Float32)
    requires |ws| == 3 * k && Echo(ws, 0, k, fmt, strtof) == ws
    requires forall w: Float32 :: strtof(fmt(w)) == w
    ensures forall i :: 0 <= i < k ==> ws[3 * i + 1] == ws[3 * i]
  {
    EchoValues(ws, 0, k, fmt, strtof);
    forall i | 0 <= i < k ensures ws[3 * i + 1] == ws[3 * i] {
      SecondOfTriple(i);
      assert ws[3 * i + 1] == strtof(fmt(ws[3 * i]));
    }
  }

  lemma {:induction false} EchoExactIf(ws: seq<Float32>, k: nat, fmt: Float32 -> seq<byte>,
                                       strtof: seq<byte> -> Float32)
    requires |ws| == 3 * k && forall i :: 0 <= i < k ==> ws[3 * i + 1] == ws[3 * i]
    requires forall w: Float32 :: strtof(fmt(w)) == w
    ensures Echo(ws, 0, k, fmt, strtof) == ws
  {
    var r := Echo(ws, 0, k, fmt, strtof);
    EchoValues(ws, 0, k, fmt, strtof);
    forall m | 0 <= m < |ws| ensures r[m] == ws[m] {
      var i := m / 3;
      TripleOf(m);
      if m % 3 == 1 {
        assert ws[3 * i + 1] == ws[3 * i];
      }
    }
  }

  lemma SecondOfTriple(i: nat)
    ensures (3 * i + 1) % 3 == 1 && 3 * i + 1 - (3 * i + 1) % 3 == 3 * i
  {
  }

  lemma TripleOf(m: nat)
    ensures m - m % 3 == 3 * (m / 3) && m % 3 < 3
    ensures m % 3 == 1 ==> m == 3 * (m / 3) + 1
  {
  }
}
