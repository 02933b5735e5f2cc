/** The ASCII STL parser of stl.cpp:350-560 as a transition function. One application of
    Iteration is one pass of read_ascii's do-while loop: fetch a token when m_read_tok is set,
    then run the case of the switch for the current sti_parse_state. RunAscii repeats it until
    the loop leaves through the in_endsolid case or returns -1 through the error case. */
module AsciiParser {
  import opened StlLayout
  import opened Tokenizer

  /** sti_parse_state (stl.h:40-58). The in_facet_vertex_* states read the three components
      of the facet normal; the in_vertex_* states read the coordinates of a vertex. */
  datatype ParseState =
    | Error | InSolid | InFacet | InFacetNormal
    | InFacetVertexX | InFacetVertexY | InFacetVertexZ
    | InOuter | InOuterLoop | InVertex
    | InVertexX | InVertexY | InVertexZ
    | InEndloop | InEndfacet | InEndsolid

  /** The keywords of the ASCII format, as the bytes of their text */
  const SOLID: seq<byte> := [115, 111, 108, 105, 100]  // "solid"
  const FACET: seq<byte> := [102, 97, 99, 101, 116]  // "facet"
  const NORMAL: seq<byte> := [110, 111, 114, 109, 97, 108]  // "normal"
  const OUTER: seq<byte> := [111, 117, 116, 101, 114]  // "outer"
  const LOOP: seq<byte> := [108, 111, 111, 112]  // "loop"
  const VERTEX: seq<byte> := [118, 101, 114, 116, 101, 120]  // "vertex"
  const ENDLOOP: seq<byte> := [101, 110, 100, 108, 111, 111, 112]  // "endloop"
  const ENDFACET: seq<byte> := [101, 110, 100, 102, 97, 99, 101, 116]  // "endfacet"
  const ENDSOLID: seq<byte> := [101, 110, 100, 115, 111, 108, 105, 100]  // "endsolid"

  /** The parser's variables at the top of one pass of the loop: m_cur_state, m_read_tok,
      the C string in m_token, the input stream, m_normals and m_vectors. */
  datatype Scan = Scan(state: ParseState, readTok: bool, tok: seq<byte>, src: Stream,
                       normals: seq<Float32>, vectors: seq<Float32>)

  /** read_ascii's first pass: the state cleanup leaves (in_solid, m_read_tok set), empty
      buffers, and the input rewound to its first byte */
  function Begin(data: seq<byte>): Scan
  {
    Scan(InSolid, true, [], Start(data), [], [])
  }

  /** The states in which a pass can begin with m_read_tok cleared: the token left in the
      buffer is examined again instead of a new one being read. */
  predicate Lookahead(s: ParseState)
  {
    s.InFacet? || s.InEndsolid? || s.InEndloop? || s.InVertex? || s.Error?
  }

  ghost predicate Coherent(c: Scan)
  {
    c.src.Valid() && (!c.readTok ==> Lookahead(c.state))
  }

  /** `if (m_read_tok) tok = get_next_token();` */
  function Fetch(c: Scan): (f: Scan)
    requires c.src.Valid()
    ensures f.src.Valid() && f.state == c.state && f.readTok == c.readTok
    ensures f.normals == c.normals && f.vectors == c.vectors
  {
    if c.readTok then
      var t := NextToken(c.src);
      c.(tok := t.text, src := t.rest)
    else c
  }

  /** A keyword state: validate_state(lit), then the next state, or error on a mismatch */
  function Expect(c: Scan, lit: seq<byte>, next: ParseState): Scan
  {
    c.(readTok := true, state := if c.tok == lit then next else Error)
  }

  /** read_facet_vertex (stl.cpp:501-527): append strtof of the token to m_normals and move
      to the next component */
  function FacetVertex(c: Scan, strtof: seq<byte> -> Float32): Scan
  {
    var c := c.(normals := c.normals + [strtof(c.tok)]);
    match c.state
    case InFacetVertexX => c.(state := InFacetVertexY)
    case InFacetVertexY => c.(state := InFacetVertexZ)
    case InFacetVertexZ => c.(state := InOuter)
    case _ => c.(state := Error, readTok := false)
  }

  /** read_vertex (stl.cpp:530-560): append strtof of the token to m_vectors; after the z
      coordinate read the next token and keep it for the next pass, which is in_endloop if
      that token is "endloop" and in_vertex otherwise */
  function Vertex(c: Scan, strtof: seq<byte> -> Float32): Scan
    requires c.src.Valid()
  {
    var c := c.(vectors := c.vectors + [strtof(c.tok)], readTok := true);
    match c.state
    case InVertexX => c.(state := InVertexY)
    case InVertexY => c.(state := InVertexZ)
    case InVertexZ =>
      var t := NextToken(c.src);
      c.(tok := t.text, src := t.rest, readTok := false,
         state := if t.text == ENDLOOP then InEndloop else InVertex)
    case _ => c.(state := Error, readTok := false)
  }

  /** The end of one pass: go round again, return -1 from the error case (after cleanup), or
      leave the loop from in_endsolid (tok = nullptr) */
  datatype Turn = Next(scan: Scan) | Abort(rest: Stream) | Finish(scan: Scan)

  /** The switch of read_ascii (stl.cpp:366-493) on a scan whose token has been fetched */
  function Dispatch(c: Scan, strtof: seq<byte> -> Float32): Turn
    requires c.src.Valid()
  {
    match c.state
    case Error => Abort(c.src)
    case InSolid =>
      if c.tok != SOLID then Next(c.(readTok := true, state := Error))
      else
        var line := ReadLine(c.src);
        var name := CStr(line.text);
        Next(c.(state := InFacet, tok := name, src := line.rest, readTok := !StartsWith(name, FACET)))
    case InFacet =>
      if c.tok == ENDSOLID then Next(c.(readTok := false, state := InEndsolid))
      else Next(Expect(c, FACET, InFacetNormal))
    case InFacetNormal => Next(Expect(c, NORMAL, InFacetVertexX))
    case InFacetVertexX | InFacetVertexY | InFacetVertexZ => Next(FacetVertex(c.(readTok := true), strtof))
    case InOuter => Next(Expect(c, OUTER, InOuterLoop))
    case InOuterLoop => Next(Expect(c, LOOP, InVertex))
    case InVertex => Next(Expect(c, VERTEX, InVertexX))
    case InVertexX | InVertexY | InVertexZ => Next(Vertex(c.(readTok := true), strtof))
    case InEndloop => Next(Expect(c, ENDLOOP, InEndfacet))
    case InEndfacet => Next(Expect(c, ENDFACET, InFacet))
    case InEndsolid =>
      if c.tok != ENDSOLID then Next(c.(readTok := true, state := Error))
      else
        var t := NextToken(c.src);
        Finish(c.(readTok := false, tok := t.text, src := t.rest))
  }

  /** One pass of the loop */
  function Iteration(c: Scan, strtof: seq<byte> -> Float32): Turn
    requires c.src.Valid()
  {
    Dispatch(Fetch(c), strtof)
  }

  /** 1 while a kept token waits to be examined again */
  function Pending(c: Scan): nat
  {
    if !c.readTok && c.tok != [] then 1 else 0
  }

  /** How many passes a state can still make at the end of the input before reaching error */
  function Rank(c: Scan): nat
  {
    if c.state.Error? then 0
    else if !c.readTok then (if c.state.InFacet? then 2 else 1)
    else if c.state.InFacetVertexX? || c.state.InVertexX? then 4
    else if c.state.InFacetVertexY? || c.state.InVertexY? then 3
    else if c.state.InFacetVertexZ? || c.state.InVertexZ? then 2
    else 1
  }

  /** Every pass that goes round again makes progress: it consumes input, or examines a kept
      token, or moves closer to error once the input is exhausted. So the loop of read_ascii
      terminates on every input, leaving only through in_endsolid or error. */
  lemma IterationProgress(c: Scan, strtof: seq<byte> -> Float32)
    requires Coherent(c) && Iteration(c, strtof).Next?
    ensures var n := Iteration(c, strtof).scan;
      Coherent(n) && Ticks(n.src) <= Ticks(c.src) &&
      (Ticks(n.src) < Ticks(c.src) ||
       (Pending(n) < Pending(c)) ||
       (Pending(n) == Pending(c) && Rank(n) < Rank(c)))
  {
    var f := Fetch(c);
    NextTokenProgress(c.src);
    assert Ticks(f.src) <= Ticks(c.src);
    if c.readTok && !c.src.eof {
      assert Ticks(f.src) < Ticks(c.src);
      DispatchKeepsTicks(f, strtof);
    } else if c.readTok {
      assert f == c.(tok := []);
      DispatchAtEnd(f, strtof);
    } else {
      assert f == c;
      DispatchKept(f, strtof);
    }
  }

  /** No case of the switch gives input back */
  lemma DispatchKeepsTicks(f: Scan, strtof: seq<byte> -> Float32)
    requires f.src.Valid() && Dispatch(f, strtof).Next?
    ensures var n := Dispatch(f, strtof).scan;
      n.src.Valid() && Ticks(n.src) <= Ticks(f.src) && (!n.readTok ==> Lookahead(n.state))
  {
    NextTokenProgress(f.src);
    ReadLineProgress(f.src);
    match f.state {
      case InVertexX | InVertexY | InVertexZ =>
        NextTokenProgress(Vertex(f.(readTok := true), strtof).src);
      case _ =>
    }
  }

  /** At the end of the input the token is "", every keyword test fails, and the vertex
      states run down towards error without reading */
  lemma DispatchAtEnd(f: Scan, strtof: seq<byte> -> Float32)
    requires f.src.Valid() && f.src.eof && f.readTok && f.tok == []
    requires Dispatch(f, strtof).Next?
    ensures var n := Dispatch(f, strtof).scan;
      n.src == f.src && (!n.readTok ==> Lookahead(n.state)) &&
      Pending(n) == 0 && Rank(n) < Rank(f)
  {
    NextTokenProgress(f.src);
    ReadLineProgress(f.src);
    assert |SOLID| == 5 && |ENDSOLID| == 8;
  }

  /** A pass over a kept token either consumes it or moves to a state of lower rank */
  lemma DispatchKept(f: Scan, strtof: seq<byte> -> Float32)
    requires f.src.Valid() && !f.readTok && Lookahead(f.state)
    requires Dispatch(f, strtof).Next?
    ensures var n := Dispatch(f, strtof).scan;
      n.src == f.src && (!n.readTok ==> Lookahead(n.state)) &&
      (Pending(n) < Pending(f) || (Pending(n) == Pending(f) && Rank(n) < Rank(f)))
  {
    assert |FACET| == 5 && |ENDSOLID| == 8 && |ENDLOOP| == 7 && |VERTEX| == 6;
  }

  /** What read_ascii leaves behind: the buffers after in_endsolid, or a rejection (cleanup
      and -1), with the input stream as the loop left it */
  datatype AsciiEnd =
    | Accepted(normals: seq<Float32>, vectors: seq<Float32>, rest: Stream)
    | Rejected(rest: Stream)

  function RunAscii(c: Scan, strtof: seq<byte> -> Float32): AsciiEnd
    requires Coherent(c)
    decreases Ticks(c.src), Pending(c), Rank(c)
  {
    match Iteration(c, strtof)
    case Abort(rest) => Rejected(rest)
    case Finish(f) => Accepted(f.normals, f.vectors, f.src)
    case Next(n) => IterationProgress(c, strtof); RunAscii(n, strtof)
  }

  /** read_ascii on a whole file */
  function ParseAscii(data: seq<byte>, strtof: seq<byte> -> Float32): AsciiEnd
  {
    RunAscii(Begin(data), strtof)
  }

  /** One pass that goes round again does not change where the loop ends */
  lemma RunPass(c: Scan, strtof: seq<byte> -> Float32)
    requires Coherent(c) && Iteration(c, strtof).Next?
    ensures Coherent(Iteration(c, strtof).scan)
    ensures RunAscii(c, strtof) == RunAscii(Iteration(c, strtof).scan, strtof)
  {
    IterationProgress(c, strtof);
  }

  /** A pass that goes round again to a known scan */
  lemma RunStep(c: Scan, n: Scan, strtof: seq<byte> -> Float32)
    requires Coherent(c) && Iteration(c, strtof) == Next(n)
    ensures Coherent(n) && RunAscii(c, strtof) == RunAscii(n, strtof)
  {
    RunPass(c, strtof);
  }

  /** The error case reads one more token (when m_read_tok is set) and returns -1 */
  lemma ErrorRejects(c: Scan, strtof: seq<byte> -> Float32)
    requires Coherent(c) && c.state.Error?
    ensures RunAscii(c, strtof) == Rejected(Fetch(c).src)
  {
    assert Iteration(c, strtof) == Abort(Fetch(c).src);
  }

  /** The states whose case of the switch is a validate_state on one literal */
  predicate IsKeywordState(s: ParseState)
  {
    s.InSolid? || s.InFacet? || s.InFacetNormal? || s.InOuter? || s.InOuterLoop? ||
    s.InVertex? || s.InEndloop? || s.InEndfacet? || s.InEndsolid?
  }

  /** The literal a keyword state validates */
  function Keyword(s: ParseState): seq<byte>
    requires IsKeywordState(s)
  {
    match s
    case InSolid => SOLID
    case InFacet => FACET
    case InFacetNormal => NORMAL
    case InOuter => OUTER
    case InOuterLoop => LOOP
    case InVertex => VERTEX
    case InEndloop => ENDLOOP
    case InEndfacet => ENDFACET
    case InEndsolid => ENDSOLID
  }

  /** Every keyword state accepts only its exact literal: any other token (in in_facet, any
      token but "facet" and "endsolid") sends the parser to error, whose next pass reads one
      more token and returns -1. */
  lemma {:induction false} KeywordMismatchRejects(c: Scan, strtof: seq<byte> -> Float32)
    requires Coherent(c) && IsKeywordState(c.state)
    requires Fetch(c).tok != Keyword(c.state)
    requires c.state.InFacet? ==> Fetch(c).tok != ENDSOLID
    ensures RunAscii(c, strtof) == Rejected(NextToken(Fetch(c).src).rest)
  {
    var f := Fetch(c);
    var n := f.(readTok := true, state := Error);
    assert Iteration(c, strtof) == Next(n);
    RunStep(c, n, strtof);
    ErrorRejects(n, strtof);
  }

  /** The state a keyword state moves to when its literal matches (in_solid also reads the
      rest of the line; in_endsolid leaves the loop) */
  function Successor(s: ParseState): ParseState
    requires IsKeywordState(s)
  {
    match s
    case InSolid => InFacet
    case InFacet => InFacetNormal
    case InFacetNormal => InFacetVertexX
    case InOuter => InOuterLoop
    case InOuterLoop => InVertex
    case InVertex => InVertexX
    case InEndloop => InEndfacet
    case InEndfacet => InFacet
    case InEndsolid => InEndsolid
  }

  /** A keyword state whose literal matches moves to its successor and asks for a new token */
  lemma KeywordMatchAdvances(c: Scan, strtof: seq<byte> -> Float32)
    requires Coherent(c) && IsKeywordState(c.state)
    requires !(c.state.InSolid? || c.state.InEndsolid?)
    requires Fetch(c).tok == Keyword(c.state)
    ensures RunAscii(c, strtof) ==
      RunAscii(Fetch(c).(readTok := true, state := Successor(c.state)), strtof)
  {
    KeywordStep(c, strtof);
    RunStep(c, Fetch(c).(readTok := true, state := Successor(c.state)), strtof);
  }

  lemma KeywordStep(c: Scan, strtof: seq<byte> -> Float32)
    requires Coherent(c) && IsKeywordState(c.state)
    requires !(c.state.InSolid? || c.state.InEndsolid?)
    requires Fetch(c).tok == Keyword(c.state)
    ensures Iteration(c, strtof) == Next(Fetch(c).(readTok := true, state := Successor(c.state)))
  {
    var f := Fetch(c);
    assert f.tok != ENDSOLID by {
      assert c.state.InFacet? ==> |f.tok| == 5;
      assert c.state.InEndloop? ==> f.tok[3] != ENDSOLID[3];
      assert c.state.InEndfacet? ==> f.tok[3] != ENDSOLID[3];
    }
  }

  /** A component of the facet normal is appended and the parser moves to the next one */
  lemma ComponentAdvances(c: Scan, strtof: seq<byte> -> Float32)
    requires Coherent(c) && c.readTok
    requires c.state.InFacetVertexX? || c.state.InFacetVertexY? || c.state.InFacetVertexZ?
    ensures var f := Fetch(c);
      RunAscii(c, strtof) ==
        RunAscii(f.(state := if c.state.InFacetVertexX? then InFacetVertexY
                             else if c.state.InFacetVertexY? then InFacetVertexZ else InOuter,
                    normals := c.normals + [strtof(f.tok)]), strtof)
  {
    var f := Fetch(c);
    var n := f.(state := if c.state.InFacetVertexX? then InFacetVertexY
                         else if c.state.InFacetVertexY? then InFacetVertexZ else InOuter,
                normals := c.normals + [strtof(f.tok)]);
    assert f.(readTok := true) == f;
    assert FacetVertex(f, strtof) == n;
    assert Dispatch(f, strtof) == Next(FacetVertex(f.(readTok := true), strtof));
    RunStep(c, n, strtof);
  }

  /** The x or y coordinate of a vertex is appended and the parser moves to the next one */
  lemma CoordinateAdvances(c: Scan, strtof: seq<byte> -> Float32)
    requires Coherent(c) && c.readTok && (c.state.InVertexX? || c.state.InVertexY?)
    ensures var f := Fetch(c);
      RunAscii(c, strtof) ==
        RunAscii(f.(state := if c.state.InVertexX? then InVertexY else InVertexZ,
                    vectors := c.vectors + [strtof(f.tok)]), strtof)
  {
    var f := Fetch(c);
    var n := f.(state := if c.state.InVertexX? then InVertexY else InVertexZ, vectors := c.vectors + [strtof(f.tok)]);
    assert f.(readTok := true) == f;
    assert Vertex(f, strtof) == n;
    assert Dispatch(f, strtof) == Next(Vertex(f.(readTok := true), strtof));
    RunStep(c, n, strtof);
  }

  /** "endsolid" where a facet may begin is kept, validated again by in_endsolid, and followed
      by one consumed name token; then the loop ends with the buffers as they were. */
  lemma {:induction false} EndsolidLookahead(c: Scan, strtof: seq<byte> -> Float32)
    requires Coherent(c) && c.state.InFacet? && Fetch(c).tok == ENDSOLID
    ensures RunAscii(c, strtof) == Accepted(c.normals, c.vectors, NextToken(Fetch(c).src).rest)
  {
    var f := Fetch(c);
    var n := f.(readTok := false, state := InEndsolid);
    assert Iteration(c, strtof) == Next(n);
    RunStep(c, n, strtof);
    EndsolidFinishes(n, strtof);
  }

  /** in_endsolid on "endsolid" reads one more token and leaves the loop */
  lemma EndsolidFinishes(n: Scan, strtof: seq<byte> -> Float32)
    requires Coherent(n) && n.state.InEndsolid? && !n.readTok && n.tok == ENDSOLID
    ensures RunAscii(n, strtof) == Accepted(n.normals, n.vectors, NextToken(n.src).rest)
  {
    assert Iteration(n, strtof) == Finish(n.(tok := NextToken(n.src).text, src := NextToken(n.src).rest));
  }

  /** After the z coordinate of a vertex the next token is peeked and kept: "endloop" goes on
      to in_endfacet, "vertex" starts another vertex, anything else is rejected. In each case
      the coordinate has been appended to the vertex buffer. */
  lemma {:induction false} VertexPeek(c: Scan, strtof: seq<byte> -> Float32)
    requires Coherent(c) && c.state.InVertexZ? && c.readTok
    ensures var f := Fetch(c);
      var t := NextToken(f.src);
      var v := c.vectors + [strtof(f.tok)];
      RunAscii(c, strtof) ==
        if t.text == ENDLOOP then RunAscii(Scan(InEndfacet, true, t.text, t.rest, c.normals, v), strtof)
        else if t.text == VERTEX then RunAscii(Scan(InVertexX, true, t.text, t.rest, c.normals, v), strtof)
        else Rejected(NextToken(t.rest).rest)
  {
    var f := Fetch(c);
    var t := NextToken(f.src);
    var v := c.vectors + [strtof(f.tok)];
    var peeked := if t.text == ENDLOOP then InEndloop else InVertex;
    var n := Scan(peeked, false, t.text, t.rest, c.normals, v);
    PeekStep(c, strtof);
    RunStep(c, n, strtof);
    PeekedChecked(n, strtof);
  }

  /** The pass over the z coordinate: append it, read the next token and keep it */
  lemma PeekStep(c: Scan, strtof: seq<byte> -> Float32)
    requires Coherent(c) && c.state.InVertexZ? && c.readTok
    ensures var f := Fetch(c);
      var t := NextToken(f.src);
      Iteration(c, strtof) ==
        Next(Scan(if t.text == ENDLOOP then InEndloop else InVertex, false, t.text, t.rest,
                  c.normals, c.vectors + [strtof(f.tok)]))
  {
  }

  /** The token kept after a vertex is validated by in_endloop or in_vertex */
  lemma {:induction false} PeekedChecked(n: Scan, strtof: seq<byte> -> Float32)
    requires Coherent(n) && !n.readTok && (n.state == if n.tok == ENDLOOP then InEndloop else InVertex)
    ensures RunAscii(n, strtof) ==
      if n.tok == ENDLOOP then RunAscii(n.(state := InEndfacet, readTok := true), strtof)
      else if n.tok == VERTEX then RunAscii(n.(state := InVertexX, readTok := true), strtof)
      else Rejected(NextToken(n.src).rest)
  {
    if n.tok == ENDLOOP {
      assert Iteration(n, strtof) == Next(n.(state := InEndfacet, readTok := true));
      RunStep(n, n.(state := InEndfacet, readTok := true), strtof);
    } else if n.tok == VERTEX {
      assert Iteration(n, strtof) == Next(n.(state := InVertexX, readTok := true));
      RunStep(n, n.(state := InVertexX, readTok := true), strtof);
    } else {
      assert |ENDLOOP| == 7 && |VERTEX| == 6;
      var m := n.(state := Error, readTok := true);
      assert Iteration(n, strtof) == Next(m);
      RunStep(n, m, strtof);
      ErrorRejects(m, strtof);
    }
  }

  /** The buffers in each state: m_normals holds three components per facet begun plus the
      components of the normal being read, and every finished facet has at least one vertex of
      three coordinates in m_vectors. */
  ghost predicate Shape(c: Scan)
  {
    var n := |c.normals|;
    var v := |c.vectors|;
    match c.state
    case Error => true
    case InSolid => n == 0 && v == 0
    case InFacet | InFacetNormal | InFacetVertexX | InEndsolid | InEndloop | InEndfacet =>
      n % 3 == 0 && v % 3 == 0 && v >= n
    case InFacetVertexY => n % 3 == 1 && v % 3 == 0 && v >= n - 1
    case InFacetVertexZ => n % 3 == 2 && v % 3 == 0 && v >= n - 2
    case InOuter | InOuterLoop | InVertexX =>
      n % 3 == 0 && n >= 3 && v % 3 == 0 && v >= n - 3
    case InVertex =>
      n % 3 == 0 && n >= 3 && v % 3 == 0 && v >= (if c.readTok then n - 3 else n)
    case InVertexY => n % 3 == 0 && n >= 3 && v % 3 == 1 && v >= n - 2
    case InVertexZ => n % 3 == 0 && n >= 3 && v % 3 == 2 && v >= n - 1
  }

  lemma ShapePreserved(c: Scan, strtof: seq<byte> -> Float32)
    requires Coherent(c) && Shape(c)
    ensures Iteration(c, strtof).Next? ==> Shape(Iteration(c, strtof).scan)
    ensures Iteration(c, strtof).Finish? ==> Shape(Iteration(c, strtof).scan)
  {
    var f := Fetch(c);
    assert Shape(f);
    if f.state.InFacetVertexX? || f.state.InFacetVertexY? || f.state.InFacetVertexZ? {
      assert Iteration(c, strtof) == Next(FacetVertex(f.(readTok := true), strtof));
      FacetVertexShape(f.(readTok := true), strtof);
    } else if f.state.InVertexX? || f.state.InVertexY? || f.state.InVertexZ? {
      assert Iteration(c, strtof) == Next(Vertex(f.(readTok := true), strtof));
      VertexShape(f.(readTok := true), strtof);
    } else {
      KeywordShape(f, strtof);
    }
  }

  /** The keyword cases change only the state, the token and the stream */
  lemma KeywordShape(f: Scan, strtof: seq<byte> -> Float32)
    requires f.src.Valid() && Shape(f)
    requires !(f.state.InFacetVertexX? || f.state.InFacetVertexY? || f.state.InFacetVertexZ?)
    requires !(f.state.InVertexX? || f.state.InVertexY? || f.state.InVertexZ?)
    ensures Dispatch(f, strtof).Next? ==> Shape(Dispatch(f, strtof).scan)
    ensures Dispatch(f, strtof).Finish? ==> Shape(Dispatch(f, strtof).scan)
  {
  }

  lemma FacetVertexShape(f: Scan, strtof: seq<byte> -> Float32)
    requires Shape(f) && (f.state.InFacetVertexX? || f.state.InFacetVertexY? || f.state.InFacetVertexZ?)
    ensures Shape(FacetVertex(f, strtof))
  {
    var n := FacetVertex(f, strtof);
    assert |n.normals| == |f.normals| + 1 && n.vectors == f.vectors;
  }

  lemma VertexShape(f: Scan, strtof: seq<byte> -> Float32)
    requires f.src.Valid() && Shape(f) && (f.state.InVertexX? || f.state.InVertexY? || f.state.InVertexZ?)
    ensures Shape(Vertex(f, strtof))
  {
    var n := Vertex(f, strtof);
    assert |n.vectors| == |f.vectors| + 1 && n.normals == f.normals;
  }

  /** Whatever the input, an accepted ASCII file yields whole normals (three components per
      facet) and whole vertices (three coordinates each), and at least one vertex per facet.
      Nothing holds the number of vertices of a facet at three. */
  lemma {:induction false} AcceptedShape(c: Scan, strtof: seq<byte> -> Float32)
    requires Coherent(c) && Shape(c) && RunAscii(c, strtof).Accepted?
    ensures var r := RunAscii(c, strtof);
      |r.normals| % 3 == 0 && |r.vectors| % 3 == 0 && |r.vectors| >= |r.normals|
    decreases Ticks(c.src), Pending(c), Rank(c)
  {
    ShapePreserved(c, strtof);
    match Iteration(c, strtof) {
      case Finish(f) =>
      case Next(n) =>
        IterationProgress(c, strtof);
        AcceptedShape(n, strtof);
    }
  }

  /** The same for read_ascii on a whole file */
  lemma ParseAsciiShape(data: seq<byte>, strtof: seq<byte> -> Float32)
    requires ParseAscii(data, strtof).Accepted?
    ensures var r := ParseAscii(data, strtof);
      |r.normals| % 3 == 0 && |r.vectors| % 3 == 0 && |r.vectors| >= |r.normals|
  {
    AcceptedShape(Begin(data), strtof);
  }
}
