/** The stl class (stl.h:20-80, stl.cpp): the object that read_stl fills and the writers read.
    Its methods change the members step by step as the source does, and each is proved
    against the functional model of the tokenizer, the parser, the binary codec and the ASCII
    writer. Files are byte sequences given to the methods; the output file is a member that
    the writers fill. */
module StlFile {
  import opened StlLayout
  import opened Tokenizer
  import opened AsciiParser
  import opened BinaryCodec
  import opened AsciiWriter
  import opened StlReader

  /** istream::get(): the next byte, or nothing with end of file set once no byte is left */
  function Get(s: Stream): (g: Got<Option<byte>>)
    requires s.Valid()
    ensures g.rest.Valid() && g.rest.data == s.data
    ensures g.value.None? <==> s.pos == |s.data|
    ensures g.value.Some? ==> g.value.value == s.data[s.pos] && g.rest == Stream(s.data, s.pos + 1, false)
    ensures g.value.None? ==> g.rest == Stream(s.data, |s.data|, true)
  {
    if s.pos < |s.data| then Got(Some(s.data[s.pos]), Stream(s.data, s.pos + 1, false))
    else Got(None, Stream(s.data, |s.data|, true))
  }

  /** get_next_token's loop, once it holds pos bytes of the word: the buffer is full, or the
      next get() finds a delimiter or the end, and the token is what it holds */
  lemma WordCut(s0: Stream, j: nat, pos: nat, s: Stream)
    requires s0.Valid() && !s0.eof && s.Valid() && !s.eof && s.data == s0.data && 0 < pos <= MAX_TEXT
    requires j == SkipDelimiters(s0.data, s0.pos) && s.pos == j + pos <= WordEnd(s0.data, j)
    ensures pos == MAX_TEXT ==> NextToken(s0) == Lexeme(s0.data[j..j + pos], s)
    ensures pos < MAX_TEXT && (Get(s).value.None? || IsDelimiter(Get(s).value.value)) ==>
      NextToken(s0) == Lexeme(s0.data[j..j + pos], Get(s).rest)
  {
  }

  /** A buffer that holds d[j..j + pos] byte by byte holds that slice */
  lemma SliceAt(buf: seq<byte>, d: seq<byte>, j: nat, pos: nat, text: seq<byte>)
    requires j + pos <= |d| && pos <= |buf| && text == d[j..j + pos]
    requires forall k :: 0 <= k < pos ==> buf[k] == d[j + k]
    ensures forall k :: 0 <= k < pos ==> buf[k] == text[k]
  {
    forall k | 0 <= k < pos
      ensures buf[k] == text[k]
    {
      assert text[k] == d[j + k];
    }
  }

  /** A buffer holding a text without NUL and then a NUL: its C string is the text */
  lemma TerminatedText(buf: seq<byte>, pos: nat, text: seq<byte>)
    requires pos < |buf| && buf[pos] == 0 && |text| == pos
    requires forall k :: 0 <= k < pos ==> buf[k] == text[k] && text[k] != 0
    ensures CStr(buf) == text
  {
    CStrOfTerminated(buf, pos);
    assert buf[..pos] == text;
  }

  /** read_line's loop, once it holds pos bytes of the line (or, with pos = 0, while it is
      still dropping leading bytes): the buffer is full, or the next get() finds a newline or
      the end, and the line is what it holds */
  lemma LineCut(s0: Stream, j: nat, pos: nat, s: Stream)
    requires s0.Valid() && !s0.eof && s.Valid() && !s.eof && s.data == s0.data && pos <= MAX_TEXT
    requires j == SkipLineLead(s0.data, s0.pos) && j + pos <= LineEnd(s0.data, j)
    requires if pos == 0 then s0.pos <= s.pos <= j else s.pos == j + pos
    ensures pos == MAX_TEXT ==> Tokenizer.ReadLine(s0) == Lexeme(s0.data[j..j + pos], s)
    ensures pos < MAX_TEXT && (Get(s).value.None? || Get(s).value.value == NEWLINE) ==>
      Tokenizer.ReadLine(s0) == Lexeme(s0.data[j..j + pos], Get(s).rest)
  {
  }

  /** read_line's loop, when the input ends before a line starts: the line is empty */
  lemma NoLine(s0: Stream, s: Stream)
    requires s0.Valid() && s.Valid() && s.eof && s.data == s0.data
    requires s0.eof ==> s == s0
    requires !s0.eof ==> SkipLineLead(s0.data, s0.pos) == |s0.data|
    ensures Tokenizer.ReadLine(s0) == Lexeme([], s)
  {
  }

  /** A buffer holding a line and then a NUL: its C string is the line's, up to the line's
      own first NUL if it has one */
  lemma TerminatedLine(buf: seq<byte>, pos: nat, text: seq<byte>)
    requires pos < |buf| && buf[pos] == 0 && |text| == pos
    requires forall k :: 0 <= k < pos ==> buf[k] == text[k]
    ensures CStr(buf) == CStr(text)
  {
    assert buf == text + [0] + buf[pos + 1..];
    CStrStops(text, buf[pos + 1..]);
  }

  /** get_next_token's loop, when the input ends before a word starts: the token is empty */
  lemma NoWord(s0: Stream, s: Stream)
    requires s0.Valid() && s.Valid() && s.eof && s.data == s0.data
    requires s0.eof ==> s == s0
    requires !s0.eof ==> SkipDelimiters(s0.data, s0.pos) == |s0.data|
    ensures NextToken(s0) == Lexeme([], s)
  {
  }

  /** How a pass of read_ascii's loop ends: round again, return -1 from the error case, or
      leave the loop from in_endsolid */
  datatype PassEnd = Again | Failed | Done

  class Stl {
    /** The public members (stl.h:23-28) */
    var numTriangles: nat
    var vectors: seq<Float32>
    var normals: seq<Float32>
    var rgbColor: seq<Float32>
    var size: nat
    const header: array<byte>

    /** The private members (stl.h:60-65): the file name, the input stream (None when
        closed), the output file's contents and whether it is open, the parser's flag and
        state, and the token buffer */
    var name: seq<byte>
    var input: Option<Stream>
    var output: seq<byte>
    var outputOpen: bool
    var readTok: bool
    var curState: ParseState
    const token: array<byte>

    ghost predicate Valid()
      reads this
    {
      header.Length == STL_HEADER_SIZE && token.Length == MAX_TOKEN_LEN && header != token &&
      numTriangles < UINT32_LIMIT && (input.Some? ==> input.value.Valid())
    }

    /** The state read_stl leaves behind */
    ghost function Snap(): Snapshot
      reads this`numTriangles, this`vectors, this`normals, this`rgbColor, this`size, this`readTok,
        this`curState, header
    {
      Snapshot(numTriangles, vectors, normals, rgbColor, size, header[..], readTok, curState)
    }

    /** The parser's variables at the top of a pass of read_ascii's loop */
    ghost function ScanOf(): Scan
      reads this, token
      requires input.Some?
    {
      Scan(curState, readTok, CStr(token[..]), input.value, normals, vectors)
    }

    /** stl() (stl.cpp:16-22, stl.h:28, 63-65): header and token buffer zero, then cleanup */
    constructor()
      ensures Valid() && fresh(header) && fresh(token)
      ensures Snap() == CLEARED && input.None? && !outputOpen && CStr(token[..]) == []
    {
      header := new byte[STL_HEADER_SIZE](_ => 0);
      token := new byte[MAX_TOKEN_LEN](_ => 0);
      numTriangles := 0;
      vectors := [];
      normals := [];
      rgbColor := [];
      size := 0;
      name := [];
      input := None;
      output := [];
      outputOpen := false;
      readTok := true;
      curState := InSolid;
      new;
      Cleanup();
    }

    /** cleanup (stl.cpp:730-749): close both files, empty the buffers, zero the header and
        reset the count, the size, the flag and the state */
    method Cleanup()
      requires Valid()
      modifies this`input, this`outputOpen, this`vectors, this`normals, this`rgbColor, this`numTriangles,
        this`size, this`readTok, this`curState, header
      ensures Valid() && Snap() == CLEARED && input.None? && !outputOpen
    {
      if input.Some? {
        input := None;
      }
      if outputOpen {
        outputOpen := false;
      }
      vectors := [];
      normals := [];
      rgbColor := [];
      for i := 0 to STL_HEADER_SIZE
        modifies header
        invariant forall k :: 0 <= k < i ==> header[k] == 0
      {
        header[i] := 0;
      }
      assert header[..] == Zeros(STL_HEADER_SIZE);
      numTriangles := 0;
      size := 0;
      readTok := true;
      curState := InSolid;
    }

    /** get_next_token (stl.cpp:298-321): the token the functional tokenizer returns is left
        in the buffer as a C string, and the stream is where the tokenizer leaves it */
    method GetNextToken()
      requires Valid() && input.Some?
      modifies this`input, token
      ensures Valid() && input == Some(NextToken(old(input.value)).rest)
      ensures CStr(token[..]) == NextToken(old(input.value)).text
    {
      var s, pos := ScanWord();
      token[pos] := 0;
      TerminatedText(token[..], pos, NextToken(input.value).text);
      input := Some(s);
    }

    /** get_next_token's loop: it stores the token's bytes at the front of the buffer and
        leaves the stream where the tokenizer does */
    method ScanWord() returns (s: Stream, pos: nat)
      requires Valid() && input.Some?
      modifies token
      ensures s == NextToken(input.value).rest && pos == |NextToken(input.value).text| < token.Length
      ensures forall k :: 0 <= k < pos ==> token[k] == NextToken(input.value).text[k]
    {
      s := input.value;
      ghost var s0 := s;
      ghost var d := s.data;
      ghost var j := SkipDelimiters(d, s.pos);
      ghost var e := WordEnd(d, j);
      ghost var stopped := false;
      pos := 0;
      token[pos] := 0;
      while !s.eof && pos + 1 < token.Length
        invariant s.Valid() && s.data == d && pos < token.Length && !stopped
        invariant pos == 0 ==> s0.pos <= s.pos <= j && (s.eof ==> j == |d|) && (s0.eof ==> s == s0)
        invariant pos > 0 ==> !s0.eof && !s.eof && s.pos == j + pos && j + pos <= e
        invariant forall k :: 0 <= k < pos ==> token[k] == d[j + k]
        decreases Ticks(s)
      {
        var g := Get(s);
        if g.value.None? || IsDelimiter(g.value.value) {
          if pos != 0 {
            WordCut(s0, j, pos, s);
            s := g.rest;
            stopped := true;
            break;
          } else {
            s := g.rest;
            continue;
          }
        }
        s := g.rest;
        token[pos] := g.value.value;
        pos := pos + 1;
      }
      if !stopped {
        if pos == 0 {
          NoWord(s0, s);
        } else {
          WordCut(s0, j, pos, s);
        }
      }
      SliceAt(token[..], d, j, pos, NextToken(s0).text);
    }

    /** read_line (stl.cpp:274-294): the line the functional reader returns is left in the
        buffer, and the buffer's C string is that line's up to its first NUL */
    method ReadLine()
      requires Valid() && input.Some?
      modifies this`input, token
      ensures Valid() && input == Some(Tokenizer.ReadLine(old(input.value)).rest)
      ensures CStr(token[..]) == CStr(Tokenizer.ReadLine(old(input.value)).text)
    {
      var s, pos := ScanLine();
      token[pos] := 0;
      TerminatedLine(token[..], pos, Tokenizer.ReadLine(input.value).text);
      input := Some(s);
    }

    /** read_line's loop: it stores the line's bytes at the front of the buffer and leaves the
        stream where the functional reader does */
    method ScanLine() returns (s: Stream, pos: nat)
      requires Valid() && input.Some?
      modifies token
      ensures s == Tokenizer.ReadLine(input.value).rest && pos == |Tokenizer.ReadLine(input.value).text| < token.Length
      ensures forall k :: 0 <= k < pos ==> token[k] == Tokenizer.ReadLine(input.value).text[k]
    {
      s := input.value;
      ghost var s0 := s;
      ghost var d := s.data;
      ghost var j := SkipLineLead(d, s.pos);
      ghost var e := LineEnd(d, j);
      ghost var stopped := false;
      pos := 0;
      token[pos] := 0;
      while !s.eof && pos + 1 < token.Length
        invariant s.Valid() && s.data == d && pos < token.Length && !stopped
        invariant pos == 0 ==> s0.pos <= s.pos <= j && (s.eof ==> j == |d|) && (s0.eof ==> s == s0)
        invariant pos > 0 ==> !s0.eof && !s.eof && s.pos == j + pos && j + pos <= e
        invariant forall k :: 0 <= k < pos ==> token[k] == d[j + k]
        decreases Ticks(s)
      {
        var g := Get(s);
        if g.value.None? || g.value.value == NEWLINE {
          LineCut(s0, j, pos, s);
          s := g.rest;
          stopped := true;
          break;
        }
        s := g.rest;
        if pos == 0 && (AsChar(g.value.value) < 0 || IsSpace(g.value.value)) {
          continue;
        }
        token[pos] := g.value.value;
        pos := pos + 1;
      }
      if !stopped {
        if pos == 0 {
          NoLine(s0, s);
        } else {
          LineCut(s0, j, pos, s);
        }
      }
      SliceAt(token[..], d, j, pos, Tokenizer.ReadLine(s0).text);
    }

    /** validate_state (stl.cpp:326-335): the token must be exactly the literal; otherwise the
        state becomes error */
    method ValidateState(lit: seq<byte>) returns (ok: bool)
      modifies this`curState
      ensures ok <==> CStr(token[..]) == lit
      ensures curState == if ok then old(curState) else Error
    {
      ok := CStr(token[..]) == lit;
      if !ok {
        curState := Error;
      }
    }

    /** The keyword cases of read_ascii's switch: ask for a new token, validate the current one
        and move to the next state */
    method ExpectKeyword(lit: seq<byte>, next: ParseState) returns (ok: bool)
      requires input.Some?
      modifies this`readTok, this`curState
      ensures input.Some? && ScanOf() == Expect(old(ScanOf()), lit, next)
      ensures ok <==> old(ScanOf()).tok == lit
    {
      readTok := true;
      ok := ValidateState(lit);
      if ok {
        curState := next;
      }
    }

    /** read_facet_vertex (stl.cpp:501-527) */
    method ReadFacetVertex(strtof: seq<byte> -> Float32)
      requires input.Some?
      modifies this`normals, this`curState, this`readTok
      ensures input.Some? && ScanOf() == FacetVertex(old(ScanOf()), strtof)
    {
      var vertex := strtof(CStr(token[..]));
      normals := normals + [vertex];
      match curState {
        case InFacetVertexX => curState := InFacetVertexY;
        case InFacetVertexY => curState := InFacetVertexZ;
        case InFacetVertexZ => curState := InOuter;
        case _ =>
          curState := Error;
          readTok := false;
      }
    }

    /** read_vertex (stl.cpp:530-560) */
    method ReadVertex(strtof: seq<byte> -> Float32)
      requires Valid() && input.Some?
      modifies this`vectors, this`curState, this`readTok, this`input, token
      ensures Valid() && input.Some? && ScanOf() == Vertex(old(ScanOf()), strtof)
    {
      var v := strtof(CStr(token[..]));
      vectors := vectors + [v];
      readTok := true;
      match curState {
        case InVertexX => curState := InVertexY;
        case InVertexY => curState := InVertexZ;
        case InVertexZ =>
          readTok := true;
          GetNextToken();
          readTok := false;
          curState := if CStr(token[..]) == ENDLOOP then InEndloop else InVertex;
        case _ =>
          curState := Error;
          readTok := false;
      }
    }

    /** One pass of read_ascii's do-while loop (stl.cpp:355-493): fetch a token when
        m_read_tok is set, then run the case of the switch for the current state. `valid` is
        false when the case's validate_state failed. */
    method Pass(strtof: seq<byte> -> Float32) returns (turn: PassEnd, valid: bool)
      requires Valid() && input.Some? && Coherent(ScanOf())
      modifies this, header, token
      ensures Valid() && name == old(name) && output == old(output)
      ensures var it := Iteration(old(ScanOf()), strtof);
        match turn
        case Failed => it.Abort? && Snap() == CLEARED && input.None? && !outputOpen
        case Again => it.Next? && input.Some? && ScanOf() == it.scan
        case Done => it.Finish? && input.Some? && ScanOf() == it.scan && curState == InEndsolid && !readTok
      ensures turn != Failed ==> Kept()
      ensures !valid ==> turn == Again && curState == Error
      ensures turn == Done ==> old(curState) != Error
    {
      ghost var c := ScanOf();
      if readTok {
        GetNextToken();
      }
      assert ScanOf() == Fetch(c);
      turn, valid := Switch(strtof);
    }

    /** The parts of the object a pass that goes on leaves alone */
    twostate predicate Kept()
      reads this, header
    {
      numTriangles == old(numTriangles) && rgbColor == old(rgbColor) && size == old(size) &&
      unchanged(header) && outputOpen == old(outputOpen)
    }

    /** The switch of read_ascii (stl.cpp:366-493) on the fetched token */
    method Switch(strtof: seq<byte> -> Float32) returns (turn: PassEnd, valid: bool)
      requires Valid() && input.Some? && input.value.Valid()
      modifies this, header, token
      ensures Valid() && name == old(name) && output == old(output)
      ensures var it := Dispatch(old(ScanOf()), strtof);
        match turn
        case Failed => it.Abort? && Snap() == CLEARED && input.None? && !outputOpen
        case Again => it.Next? && input.Some? && ScanOf() == it.scan
        case Done => it.Finish? && input.Some? && ScanOf() == it.scan && curState == InEndsolid && !readTok
      ensures turn != Failed ==> Kept()
      ensures !valid ==> turn == Again && curState == Error
      ensures turn == Done ==> old(curState) != Error
    {
      valid := true;
      turn := Again;
      match curState {
        case Error =>
          Cleanup();
          turn := Failed;
        case InSolid =>
          valid := SolidCase();
        case InFacet =>
          valid := FacetCase();
        case InEndsolid =>
          turn, valid := EndsolidCase();
        case _ =>
          valid := Step(strtof);
      }
    }

    /** The cases that read a number (read_facet_vertex, read_vertex) and the cases that only
        validate a keyword and move on */
    method Step(strtof: seq<byte> -> Float32) returns (valid: bool)
      requires Valid() && input.Some?
      requires !curState.Error? && !curState.InSolid? && !curState.InFacet? && !curState.InEndsolid?
      modifies this`normals, this`vectors, this`curState, this`readTok, this`input, token
      ensures Valid() && input.Some? && Dispatch(old(ScanOf()), strtof) == Next(ScanOf())
      ensures !valid ==> curState == Error
    {
      valid := true;
      if curState.InFacetVertexX? || curState.InFacetVertexY? || curState.InFacetVertexZ? {
        readTok := true;
        ReadFacetVertex(strtof);
      } else if curState.InVertexX? || curState.InVertexY? || curState.InVertexZ? {
        readTok := true;
        ReadVertex(strtof);
      } else {
        valid := ExpectKeyword(Keyword(curState), Successor(curState));
      }
    }

    /** case in_solid: "solid", then the rest of the line is read into the buffer and kept for
        the next pass when it starts with "facet" */
    method SolidCase() returns (valid: bool)
      requires Valid() && input.Some? && curState == InSolid
      modifies this`readTok, this`curState, this`input, token
      ensures Valid() && input.Some?
      ensures forall strtof :: Dispatch(old(ScanOf()), strtof) == Next(ScanOf())
      ensures !valid <==> curState == Error
    {
      readTok := true;
      valid := ValidateState(SOLID);
      if valid {
        curState := InFacet;
        ReadLine();
        if StartsWith(CStr(token[..]), FACET) {
          readTok := false;
        }
      }
    }
    /** case in_facet: "endsolid" is kept for in_endsolid; anything else must be "facet" */
    method FacetCase() returns (valid: bool)
      requires Valid() && input.Some? && curState == InFacet
      modifies this`readTok, this`curState
      ensures Valid() && input.Some?
      ensures forall strtof :: Dispatch(old(ScanOf()), strtof) == Next(ScanOf())
      ensures !valid <==> curState == Error
    {
      readTok := true;
      valid := true;
      if CStr(token[..]) == ENDSOLID {
        readTok := false;
        curState := InEndsolid;
      } else {
        valid := ExpectKeyword(FACET, InFacetNormal);
      }
    }

    /** case in_endsolid: "endsolid", then one more token (the name) is read and the loop ends */
    method EndsolidCase() returns (turn: PassEnd, valid: bool)
      requires Valid() && input.Some? && curState == InEndsolid
      modifies this`readTok, this`curState, this`input, token
      ensures Valid() && input.Some? && turn != Failed
      ensures turn == Again ==> forall strtof :: Dispatch(old(ScanOf()), strtof) == Next(ScanOf())
      ensures turn == Done ==> forall strtof :: Dispatch(old(ScanOf()), strtof) == Finish(ScanOf())
      ensures turn == Done ==> curState == InEndsolid && !readTok && valid
      ensures !valid <==> curState == Error
    {
      readTok := true;
      turn := Again;
      valid := ValidateState(ENDSOLID);
      if valid {
        GetNextToken();
        readTok := false;
        turn := Done;
      }
    }

    /** read_ascii (stl.cpp:350-497): passes until the error case returns -1 or the
        in_endsolid case ends the loop, then the triangle count is set from the vertex buffer
        through an int16_t cast. The state it ends in is what the functional parser computes
        from the scan it starts on. */
    method ReadAscii(strtof: seq<byte> -> Float32) returns (result: int)
      requires Valid() && input.Some? && Coherent(ScanOf())
      modifies this, header, token
      ensures Valid() && name == old(name) && output == old(output)
      ensures match RunAscii(old(ScanOf()), strtof)
        case Rejected(_) => result == -1 && Snap() == CLEARED && input.None? && !outputOpen
        case Accepted(n, v, rest) =>
          result == 0 && normals == n && vectors == v && input == Some(rest) &&
          numTriangles == Int16ToUint32(|v| / 9) && !readTok && curState == InEndsolid &&
          rgbColor == old(rgbColor) && size == old(size) && header[..] == old(header[..]) &&
          outputOpen == old(outputOpen)
    {
      ghost var start := ScanOf();
      result := 0;
      while true
        invariant Valid() && input.Some? && Coherent(ScanOf()) && name == old(name) && output == old(output)
        invariant RunAscii(ScanOf(), strtof) == RunAscii(start, strtof)
        invariant rgbColor == old(rgbColor) && size == old(size) && unchanged(header)
        invariant outputOpen == old(outputOpen) && numTriangles == old(numTriangles)
        invariant result == 0 || (result == -1 && curState == Error)
        decreases Ticks(input.value), Pending(ScanOf()), Rank(ScanOf())
      {
        ghost var c := ScanOf();
        var turn, valid := Pass(strtof);
        if !valid {
          result := -1;
        }
        if turn == Failed {
          return -1;
        }
        if turn == Done {
          break;
        }
        RunStep(c, ScanOf(), strtof);
        IterationProgress(c, strtof);
      }
      numTriangles := Int16ToUint32(|vectors| / 9);
    }

    /** The three reads of one float each into x, y and z (stl.cpp:604-606, 615-617) */
    method ReadXyz(x: Float32, y: Float32, z: Float32) returns (x': Float32, y': Float32, z': Float32)
      requires input.Some? && input.value.Valid()
      modifies this`input
      ensures var g := ReadFloats(old(input.value), [x, y, z]);
        input == Some(g.rest) && [x', y', z'] == g.value
    {
      ghost var s0 := input.value;
      var gx := ReadInto(input.value, x);
      x' := gx.value;
      var gy := ReadInto(gx.rest, y);
      y' := gy.value;
      var gz := ReadInto(gy.rest, z);
      z' := gz.value;
      input := Some(gz.rest);
      assert [x, y, z][1..] == [y, z] && [y, z][1..] == [z] && [z][1..] == [];
      ReadFloatsStep(gz.rest, []);
      ReadFloatsStep(gy.rest, [z]);
      ReadFloatsStep(gx.rest, [y, z]);
      ReadFloatsStep(s0, [x, y, z]);
    }

    /** The vertex loop of read_binary (stl.cpp:612-623): three vertices read into the
        variables that hold the normal, each appended to m_vectors */
    method ReadVertexLoop(x: Float32, y: Float32, z: Float32)
      requires input.Some? && input.value.Valid()
      modifies this`input, this`vectors
      ensures var all := ReadVertices(old(input.value), [x, y, z], VERTEX_PER_TRIANGLE);
        input == Some(all.rest) && vectors == old(vectors) + all.value
    {
      ghost var all := ReadVertices(input.value, [x, y, z], VERTEX_PER_TRIANGLE);
      var vx, vy, vz := x, y, z;
      for vert := 0 to VERTEX_PER_TRIANGLE
        invariant input.Some? && input.value.Valid()
        invariant var left := ReadVertices(input.value, [vx, vy, vz], VERTEX_PER_TRIANGLE - vert);
          old(vectors) + all.value == vectors + left.value && left.rest == all.rest
      {
        ghost var before, s := vectors, input.value;
        ReadVerticesStep(s, [vx, vy, vz], VERTEX_PER_TRIANGLE - vert);
        vx, vy, vz := ReadXyz(vx, vy, vz);
        vectors := vectors + [vx, vy, vz];
        ghost var next := ReadVertices(input.value, [vx, vy, vz], VERTEX_PER_TRIANGLE - vert - 1);
        assert vectors + next.value == before + ([vx, vy, vz] + next.value);
      }
    }

    /** One pass of read_binary's triangle loop (stl.cpp:600-648): the normal, three vertices
        read into the same x, y and z, and the attribute word, whose colour is appended when its
        valid bit is set */
    method ReadTriangle(fifteenths: uint16 -> Float32)
      requires input.Some? && input.value.Valid()
      modifies this`input, this`normals, this`vectors, this`rgbColor
      ensures var r := ReadRecord(old(input.value));
        input == Some(r.rest) && normals == old(normals) + r.value.normal &&
        vectors == old(vectors) + r.value.vertices &&
        rgbColor == old(rgbColor) + Colour(r.value.attribute, fifteenths)
    {
      ghost var s0 := input.value;
      var x, y, z := ZERO_FLOAT, ZERO_FLOAT, ZERO_FLOAT;
      x, y, z := ReadXyz(x, y, z);
      normals := normals + [x, y, z];
      ReadVertexLoop(x, y, z);
      // attribute & 0xF and attribute >>= 4 on a uint16_t are % 16 and / 16
      var attribute: uint16 := 0;
      var a := ReadInto(input.value, Le16(attribute));
      input := Some(a.rest);
      attribute := Le16Value(a.value);
      var b: uint16 := attribute % 16;
      attribute := attribute / 16;
      var g: uint16 := attribute % 16;
      attribute := attribute / 16;
      var r: uint16 := attribute % 16;
      attribute := attribute / 16;
      var valid := attribute % 2;
      if valid == 1 {
        rgbColor := rgbColor + [fifteenths(r), fifteenths(g), fifteenths(b)];
      }
      RecordByLoops(s0);
    }

    /** The triangle loop of read_binary (stl.cpp:600-648): m_num_triangles records read in
        turn, their parts appended to the buffers */
    method ReadTriangles(fifteenths: uint16 -> Float32)
      requires input.Some? && input.value.Valid()
      modifies this`input, this`normals, this`vectors, this`rgbColor
      ensures Loaded(old(input.value), numTriangles, old(normals), old(vectors), old(rgbColor), fifteenths)
    {
      ghost var start := input.value;
      var triangle := 0;
      while triangle < numTriangles
        invariant triangle <= numTriangles
        invariant Loaded(start, triangle, old(normals), old(vectors), old(rgbColor), fifteenths)
      {
        NextTriangle(start, triangle, old(normals), old(vectors), old(rgbColor), fifteenths);
        triangle := triangle + 1;
      }
    }

    /** The input and the buffers after k records of `start` have been read onto n0, v0, c0 */
    ghost predicate Loaded(start: Stream, k: nat, n0: seq<Float32>, v0: seq<Float32>, c0: seq<Float32>,
                           fifteenths: uint16 -> Float32)
      reads this
    {
      start.Valid() &&
      var g := ReadRecords(start, k);
      input == Some(g.rest) && normals == n0 + Normals(g.value) &&
      vectors == v0 + Vectors(g.value) && rgbColor == c0 + Colours(g.value, fifteenths)
    }

    /** One more pass of the triangle loop */
    method NextTriangle(ghost start: Stream, ghost k: nat, ghost n0: seq<Float32>, ghost v0: seq<Float32>,
                        ghost c0: seq<Float32>, fifteenths: uint16 -> Float32)
      requires Loaded(start, k, n0, v0, c0, fifteenths)
      modifies this`input, this`normals, this`vectors, this`rgbColor
      ensures Loaded(start, k + 1, n0, v0, c0, fifteenths)
    {
      ghost var g := ReadRecords(start, k);
      ghost var r := ReadRecord(g.rest).value;
      RecordsExtend(start, k, fifteenths);
      ReadTriangle(fifteenths);
      Assoc(n0, Normals(g.value), r.normal);
      Assoc(v0, Vectors(g.value), r.vertices);
      Assoc(c0, Colours(g.value, fifteenths), Colour(r.attribute, fifteenths));
    }

    /** The header and the triangle count (stl.cpp:586-590), read in full from a file of at
        least 84 bytes */
    method ReadHeader()
      requires Valid() && input.Some? && input.value == Start(input.value.data)
      requires |input.value.data| >= RECORDS_START
      modifies this`input, this`numTriangles, header
      ensures Valid() && input == Some(RecordStream(old(input.value.data)))
      ensures header[..] == old(input.value.data)[..STL_HEADER_SIZE]
      ensures numTriangles == CountField(old(input.value.data))
    {
      ghost var data := input.value.data;
      var h := ReadInto(input.value, header[..]);
      forall i | 0 <= i < STL_HEADER_SIZE {
        header[i] := h.value[i];
      }
      var c := ReadInto(h.rest, Le32(numTriangles));
      input := Some(c.rest);
      numTriangles := Le32Value(c.value);
    }

    /** read_binary (stl.cpp:576-658) on the file the input was opened on, with m_size its
        length: what it stores is what the functional decoder reads from the file, appended to
        the buffers; a file it refuses leaves cleanup's state and -1. The input is closed. */
    method ReadBinary(fifteenths: uint16 -> Float32) returns (result: int)
      requires Valid() && input.Some? && input.value == Start(input.value.data)
      requires size == |input.value.data|
      modifies this`input, this`outputOpen, this`vectors, this`normals, this`rgbColor, this`numTriangles,
        this`size, this`readTok, this`curState, header
      ensures Valid() && input.None?
      ensures Snap() == BinaryInto(old(Snap()), old(input.value.data), fifteenths)
      ensures result == if DecodeBinary(old(input.value.data)).None? then -1 else 0
      ensures outputOpen == (old(outputOpen) && DecodeBinary(old(input.value.data)).Some?)
    {
      ghost var data := input.value.data;
      if size < RECORDS_START {
        Cleanup();
        return -1;
      }
      ghost var before := Snap();
      ReadHeader();
      result := CheckAndLoad(before, data, fifteenths);
    }

    /** The rest of read_binary once the header and the count are read: the size check, then
        the records */
    method CheckAndLoad(ghost before: Snapshot, ghost data: seq<byte>, fifteenths: uint16 -> Float32)
      returns (result: int)
      requires Valid() && |data| >= RECORDS_START && size == |data| && input == Some(RecordStream(data))
      requires Snap() == before.(numTriangles := CountField(data), header := data[..STL_HEADER_SIZE])
      modifies this`input, this`outputOpen, this`vectors, this`normals, this`rgbColor, this`numTriangles,
        this`size, this`readTok, this`curState, header
      ensures Valid() && input.None?
      ensures Snap() == BinaryInto(before, data, fifteenths)
      ensures result == if DecodeBinary(data).None? then -1 else 0
      ensures outputOpen == (old(outputOpen) && DecodeBinary(data).Some?)
    {
      if RECORDS_START + (numTriangles * STL_TRIANGLE_SIZE) % UINT32_LIMIT < size {
        Cleanup();
        return -1;
      }
      ghost var h := header[..];
      LoadRecords(data, fifteenths);
      assert header[..] == h;
      result := 0;
    }

    /** The record loop of read_binary on a file that passed the size check: the records the
        codec reads are appended to the buffers, and the input is closed */
    method LoadRecords(ghost data: seq<byte>, fifteenths: uint16 -> Float32)
      requires Valid() && DecodeBinary(data).Some? && input == Some(RecordStream(data))
      requires numTriangles == CountField(data)
      modifies this`input, this`vectors, this`normals, this`rgbColor
      ensures Valid() && input.None?
      ensures var recs := DecodeBinary(data).value.records;
        normals == old(normals) + Normals(recs) && vectors == old(vectors) + Vectors(recs) &&
        rgbColor == old(rgbColor) + Colours(recs, fifteenths)
    {
      assert DecodeBinary(data).value.records == ReadRecords(RecordStream(data), numTriangles).value;
      ReadTriangles(fifteenths);
      input := None;
    }

    /** open_read_common (stl.cpp:673-695) on a file that cannot be opened (None) or on its
        bytes: any open input is closed first; a file that opens sets m_size to its length,
        and the stream is rewound to its first byte only when it holds at least six bytes (a
        shorter file is left open at its end). */
    method OpenRead(file: Option<seq<byte>>) returns (ok: bool)
      modifies this`input, this`size
      ensures ok <==> file.Some? && |file.value| >= MIN_STL_LENGTH
      ensures file.None? ==> input.None? && size == old(size)
      ensures file.Some? ==> size == |file.value|
      ensures file.Some? ==> input == Some(if ok then Start(file.value) else Stream(file.value, |file.value|, false))
    {
      if input.Some? {
        input := None;
      }
      if file.None? {
        return false;
      }
      var data := file.value;
      input := Some(Stream(data, |data|, false));
      size := |data|;
      if size < MIN_STL_LENGTH {
        return false;
      }
      input := Some(Start(data));
      ok := true;
    }

    /** seekg(0, beg) on the open input (stl.cpp:60, 69). It moves a stream that has not run
        into the end of the file back to the first byte. A stream that has, carries failbit,
        which seekg leaves set, and the stream does not move; that state is not part of the
        model, and read_stl reaches it only on files where it never returns. */
    method SeekStart()
      requires input.Some? && !input.value.eof
      modifies this`input
      ensures input == Some(Start(old(input.value.data)))
    {
      input := Some(Start(input.value.data));
    }

    /** open_binary on the file read_stl has already opened (stl.cpp:45, 74): the stream is
        closed and opened again, so it starts at the first byte whatever state it was in */
    method Reopen()
      requires input.Some?
      modifies this`input
      ensures input == Some(Start(old(input.value.data)))
    {
      var data := input.value.data;
      input := None;
      input := Some(Start(data));
    }

    /** read_stl (stl.cpp:27-95) with `file` the contents of the file at `path`, or None when
        it cannot be opened, on a file for which the call returns: the result and the state it
        leaves are what the functional read_stl computes from the file, and the input is
        closed. */
    method ReadStl(path: seq<byte>, file: Option<seq<byte>>, ops: FloatOps) returns (result: int)
      requires Valid()
      requires StlReader.ReadStl(file, ops).Outcome?
      modifies this, header, token
      ensures Valid() && input.None? && !outputOpen && name == path && output == old(output)
      ensures Outcome(result, Snap()) == StlReader.ReadStl(file, ops)
    {
      Cleanup();
      name := path;
      var ok := OpenRead(file);
      if !ok {
        Cleanup();
        return -1;
      }
      ReadOpened(file.value, ops);
      result := 0;
    }

    /** read_stl (stl.cpp:41-87) once the file is open and long enough: the tests pick a
        reader, the reader runs on the whole file, and the input is closed. The object ends
        as the functional read_stl says, with the output file still closed. */
    method ReadOpened(ghost data: seq<byte>, ops: FloatOps)
      requires Valid() && input == Some(Start(data)) && Snap() == CLEARED.(size := |data|) && !outputOpen
      requires |data| >= MIN_STL_LENGTH && !ProbeReachesEnd(data)
      modifies this, header, token
      ensures Valid() && input.None? && !outputOpen && name == old(name) && output == old(output)
      ensures Outcome(0, Snap()) == StlReader.ReadStl(Some(data), ops)
    {
      var ascii := Probe(data);
      if ascii {
        var _ := ReadAsciiFile(data, ops.strtof);
      } else {
        var _ := ReadBinaryFile(data, ops.fifteenths);
      }
      if input.Some? {
        input := None;
      }
    }

    /** The tests of read_stl (stl.cpp:41-67) on the freshly opened file: a first token other
        than "solid" picks read_binary; otherwise the rest of the line, then the next token,
        are tested for "facet". The stream is left where the tests leave it, which is short of
        the end of the file whenever the ASCII reader is picked on a file where read_stl
        returns. */
    method Probe(ghost data: seq<byte>) returns (ascii: bool)
      requires Valid() && input == Some(Start(data))
      modifies this`input, token
      ensures Valid() && input.Some? && input.value.data == data
      ensures ascii <==> Detect(data) == AsciiFormat
      ensures ascii && !ProbeReachesEnd(data) ==> !input.value.eof
    {
      GetNextToken();
      if CStr(token[..]) != SOLID {
        return false;
      }
      ReadLine();
      if StartsWith(CStr(token[..]), FACET) {
        return true;
      }
      GetNextToken();
      ascii := CStr(token[..]) == FACET;
    }

    /** The ASCII branches of read_stl: the input, not yet at the end of the file, rewound
        with seekg, then read_ascii on the state cleanup left with m_size set */
    method ReadAsciiFile(ghost data: seq<byte>, strtof: seq<byte> -> Float32) returns (result: int)
      requires Valid() && input.Some? && input.value.data == data && !input.value.eof
      requires Snap() == CLEARED.(size := |data|)
      modifies this, header, token
      ensures Valid() && Snap() == AfterAscii(data, strtof) && name == old(name) && output == old(output)
      ensures outputOpen == (old(outputOpen) && ParseAscii(data, strtof).Accepted?)
    {
      SeekStart();
      StaleTokenIgnored(ScanOf(), strtof);
      result := ReadAscii(strtof);
    }

    /** The binary branches of read_stl: open_binary, then read_binary */
    method ReadBinaryFile(ghost data: seq<byte>, fifteenths: uint16 -> Float32) returns (result: int)
      requires Valid() && input.Some? && input.value.data == data
      requires Snap() == CLEARED.(size := |data|)
      modifies this, header, token
      ensures Valid() && Snap() == AfterBinary(data, fifteenths) && name == old(name) && output == old(output)
      ensures outputOpen == (old(outputOpen) && DecodeBinary(data).Some?)
    {
      Reopen();
      result := ReadBinary(fifteenths);
      BinaryIntoCleared(data, fifteenths);
    }

    /** open_write_common (stl.cpp:710-727): any open output is closed, then the file is
        opened and truncated when `canOpen` says the system allows it */
    method OpenWrite(canOpen: bool) returns (ok: bool)
      modifies this`output, this`outputOpen
      ensures ok == canOpen && outputOpen == canOpen
      ensures output == if canOpen then [] else old(output)
    {
      if outputOpen {
        outputOpen := false;
      }
      if !canOpen {
        return false;
      }
      output := [];
      outputOpen := true;
      ok := true;
    }

    /** create_stl_binary (stl.cpp:113-210) to `path`, which the system lets be opened for
        writing when `canOpen` holds. The file holds exactly the encoding of the object's
        header, count, normals, vectors and colours, the object is unchanged and the file is
        closed; a file that cannot be opened, or an object whose sizes disagree, gives
        cleanup's state and -1. */
    method CreateStlBinary(path: seq<byte>, canOpen: bool, scale128: Float32 -> uint16, pastEnd: Float32)
      returns (result: int)
      requires Valid()
      modifies this, header
      ensures Valid() && name == path && !outputOpen
      ensures result == -1 <==> !canOpen || !Consistent(old(numTriangles), |old(normals)|, |old(vectors)|)
      ensures result == -1 ==>
        Snap() == CLEARED && input.None? && output == if canOpen then [] else old(output)
      ensures result != -1 ==>
        result == 0 && Snap() == old(Snap()) && input == old(input) &&
        output == EncodeBinary(old(header[..]), old(numTriangles), old(normals), old(vectors),
                               old(rgbColor), scale128, pastEnd)
    {
      name := path;
      var ok := OpenWrite(canOpen);
      if !ok {
        Cleanup();
        return -1;
      }
      if !(numTriangles * 3 == |normals| && |vectors| == |normals| * 3) {
        Cleanup();
        return -1;
      }
      WriteBinary(scale128, pastEnd);
      if outputOpen {
        outputOpen := false;
      }
      result := 0;
    }

    /** The writes of create_stl_binary (stl.cpp:134-203): the header, the count and the
        records */
    method WriteBinary(scale128: Float32 -> uint16, pastEnd: Float32)
      requires Valid() && Consistent(numTriangles, |normals|, |vectors|)
      modifies this`output
      ensures output == old(output) + EncodeBinary(header[..], numTriangles, normals, vectors, rgbColor,
                                                   scale128, pastEnd)
    {
      output := output + header[..];
      output := output + Le32(numTriangles);
      WriteRecords(scale128, pastEnd);
      Assoc(old(output), header[..], Le32(numTriangles));
      Assoc(old(output), header[..] + Le32(numTriangles),
            Records(normals, vectors, Attributes(rgbColor, numTriangles, scale128, pastEnd)));
    }

    /** The triangle loop of create_stl_binary (stl.cpp:144-203), rgb_index stepping over the
        colours */
    method WriteRecords(scale128: Float32 -> uint16, pastEnd: Float32)
      requires Consistent(numTriangles, |normals|, |vectors|)
      modifies this`output
      ensures output == old(output) + Records(normals, vectors, Attributes(rgbColor, numTriangles, scale128, pastEnd))
    {
      var rgbIndex := 0;
      for triangle := 0 to numTriangles
        invariant output == old(output) +
          Records(normals[..3 * triangle], vectors[..9 * triangle], Attributes(rgbColor, triangle, scale128, pastEnd))
        invariant rgbIndex == RgbIndex(rgbColor, triangle)
      {
        ghost var before := output;
        rgbIndex := WriteTriangle(triangle, rgbIndex, scale128, pastEnd);
        RecordsStep(normals, vectors, rgbColor, triangle, scale128, pastEnd);
        Assoc(old(output),
              Records(normals[..3 * triangle], vectors[..9 * triangle], Attributes(rgbColor, triangle, scale128, pastEnd)),
              RecordBytes(normals[3 * triangle..3 * triangle + 3], vectors[9 * triangle..9 * triangle + 9],
                          AttributeAt(rgbColor, RgbIndex(rgbColor, triangle), scale128, pastEnd)));
      }
      assert normals[..3 * numTriangles] == normals && vectors[..9 * numTriangles] == vectors;
    }

    /** One pass of create_stl_binary's triangle loop: the normal, the three vertices and the
        attribute word, which carries a colour only while rgb_index + 2 is inside m_rgb_color */
    method WriteTriangle(t: nat, rgbIndex: nat, scale128: Float32 -> uint16, pastEnd: Float32)
      returns (next: nat)
      requires 3 * t + 3 <= |normals| && 9 * t + 9 <= |vectors|
      modifies this`output
      ensures output == old(output) +
        RecordBytes(normals[3 * t..3 * t + 3], vectors[9 * t..9 * t + 9],
                    AttributeAt(rgbColor, rgbIndex, scale128, pastEnd))
      ensures next == NextRgbIndex(rgbColor, rgbIndex)
    {
      var n := normals[3 * t..3 * t + 3];
      WriteTriple(n);
      ghost var afterNormal := output;
      for vert := 0 to VERTEX_PER_TRIANGLE
        invariant output == afterNormal + FloatBytes(vectors[9 * t..9 * t + 3 * vert])
      {
        var start := 9 * t + 3 * vert;
        var v := vectors[start..start + 3];
        WriteTriple(v);
        FloatBytesAppend(vectors[9 * t..start], v);
        SliceJoin(vectors, 9 * t, start, start + 3);
        assert start + 3 == 9 * t + 3 * (vert + 1);
        Assoc(afterNormal, FloatBytes(vectors[9 * t..start]), FloatBytes(v));
      }
      var attribute: uint16 := 0;
      next := rgbIndex;
      if next + 2 < |rgbColor| {
        next := next + 1;
        var r := scale128(RgbAt(rgbColor, next, pastEnd));
        next := next + 1;
        var g := scale128(RgbAt(rgbColor, next, pastEnd));
        next := next + 1;
        var b := scale128(RgbAt(rgbColor, next, pastEnd));
        attribute := PackAttribute(r, g, b);
      }
      output := output + Le16(attribute);
      Assoc(old(output), FloatBytes(n), FloatBytes(vectors[9 * t..9 * t + 9]));
      Assoc(old(output) + FloatBytes(n), FloatBytes(vectors[9 * t..9 * t + 9]), Le16(attribute));
      Assoc(old(output), FloatBytes(n) + FloatBytes(vectors[9 * t..9 * t + 9]), Le16(attribute));
    }

    /** x, y and z written as four bytes each */
    method WriteTriple(ws: seq<Float32>)
      requires |ws| == 3
      modifies this`output
      ensures output == old(output) + FloatBytes(ws)
    {
      var x, y, z := ws[0], ws[1], ws[2];
      output := output + x;
      output := output + y;
      output := output + z;
      FloatBytesTriple(ws);
      ghost var first: seq<byte> := x;
      Assoc(old(output), first, y);
      Assoc(old(output), first + y, z);
    }

    /** create_stl_ascii (stl.cpp:213-271) to `path`, a C string, which the system lets be
        opened for writing when `canOpen` holds. The file holds the lines of the solid (or the
        invalid-data line when the sizes disagree, after which cleanup closes it); the object
        is unchanged and the file left open on success. */
    method CreateStlAscii(path: seq<byte>, canOpen: bool, fmt: Float32 -> seq<byte>) returns (result: int)
      requires Valid() && forall k :: 0 <= k < |path| ==> path[k] != 0
      modifies this, header
      ensures Valid() && name == path
      ensures result == -1 <==> !canOpen || !Consistent(old(numTriangles), |old(normals)|, |old(vectors)|)
      ensures result == -1 ==> Snap() == CLEARED && input.None? && !outputOpen
      ensures !canOpen ==> output == old(output)
      ensures canOpen ==>
        output == Render(AsciiLines(path, old(numTriangles), old(normals), old(vectors), |old(rgbColor)|), fmt)
      ensures result != -1 ==> result == 0 && Snap() == old(Snap()) && input == old(input) && outputOpen
    {
      name := path;
      var ok := OpenWrite(canOpen);
      if !ok {
        Cleanup();
        return -1;
      }
      if !(numTriangles * 3 == |normals| && |vectors| == |normals| * 3) {
        WriteLine(InvalidDataLine(numTriangles, |vectors|, |normals|, |rgbColor|), fmt);
        RenderOne(InvalidDataLine(numTriangles, |vectors|, |normals|, |rgbColor|), fmt);
        Cleanup();
        return -1;
      }
      WriteAscii(fmt);
      result := 0;
    }

    /** The solid line, the facets and the endsolid line, the last with the name as a C string */
    method WriteAscii(fmt: Float32 -> seq<byte>)
      requires Consistent(numTriangles, |normals|, |vectors|) && forall k :: 0 <= k < |name| ==> name[k] != 0
      modifies this`output
      ensures output == old(output) + Render(AsciiLines(name, numTriangles, normals, vectors, |rgbColor|), fmt)
    {
      WriteLine(SolidLine(name), fmt);
      WriteFacets(fmt);
      assert CStr(name) == name;
      WriteLine(EndSolidLine(CStr(name)), fmt);
      ghost var facets := FacetsBetween(normals, vectors, 0, numTriangles);
      RenderOne(SolidLine(name), fmt);
      RenderOne(EndSolidLine(name), fmt);
      RenderAppend([SolidLine(name)], facets, fmt);
      RenderAppend([SolidLine(name)] + facets, [EndSolidLine(name)], fmt);
      Assoc(old(output), Text(SolidLine(name), fmt), Render(facets, fmt));
      Assoc(old(output), Text(SolidLine(name), fmt) + Render(facets, fmt), Text(EndSolidLine(name), fmt));
    }

    /** The triangle loop of create_stl_ascii (stl.cpp:236-266) */
    method WriteFacets(fmt: Float32 -> seq<byte>)
      requires Consistent(numTriangles, |normals|, |vectors|)
      modifies this`output
      ensures output == old(output) + Render(FacetsBetween(normals, vectors, 0, numTriangles), fmt)
    {
      for triangle := 0 to numTriangles
        invariant output == old(output) + Render(FacetsBetween(normals, vectors, 0, triangle), fmt)
      {
        WriteFacet(triangle, fmt);
        FacetsExtend(normals, vectors, 0, triangle);
        RenderAppend(FacetsBetween(normals, vectors, 0, triangle), FacetLines(normals, vectors, triangle), fmt);
        Assoc(old(output), Render(FacetsBetween(normals, vectors, 0, triangle), fmt),
              Render(FacetLines(normals, vectors, triangle), fmt));
      }
    }

    /** One pass of the loop: the seven lines of triangle t, each coordinate triple printed as
        x, x, z */
    method WriteFacet(t: nat, fmt: Float32 -> seq<byte>)
      requires 3 * t + 3 <= |normals| && 9 * t + 9 <= |vectors|
      modifies this`output
      ensures output == old(output) + Render(FacetLines(normals, vectors, t), fmt)
    {
      var normalIndex := 3 * t;
      var x, y, z := normals[normalIndex], normals[normalIndex + 1], normals[normalIndex + 2];
      WriteLine(FacetNormalLine(x, x, z), fmt);
      WriteLine(OuterLoopLine, fmt);
      var vertexIndex := 9 * t;
      ghost var v0 := vertexIndex;
      vertexIndex := WriteVertexLine(vertexIndex, fmt);
      ghost var v1 := vertexIndex;
      vertexIndex := WriteVertexLine(vertexIndex, fmt);
      ghost var v2 := vertexIndex;
      vertexIndex := WriteVertexLine(vertexIndex, fmt);
      WriteLine(EndLoopLine, fmt);
      WriteLine(EndFacetLine, fmt);
      FacetText(old(output), normals, vectors, t, normalIndex, v0, v1, v2, fmt);
    }

    /** The three coordinates at vertex_index printed as x, x, z on a vertex line, and the
        index moved past them */
    method WriteVertexLine(vertexIndex: nat, fmt: Float32 -> seq<byte>) returns (next: nat)
      requires vertexIndex + 3 <= |vectors|
      modifies this`output
      ensures output == old(output) +
        Text(VertexLine(vectors[vertexIndex], vectors[vertexIndex], vectors[vertexIndex + 2]), fmt)
      ensures next == vertexIndex + 3
    {
      var x, y, z := vectors[vertexIndex], vectors[vertexIndex + 1], vectors[vertexIndex + 2];
      WriteLine(VertexLine(x, x, z), fmt);
      next := vertexIndex + 3;
    }

    /** One line written to the output file */
    method WriteLine(l: Line, fmt: Float32 -> seq<byte>)
      modifies this`output
      ensures output == old(output) + Text(l, fmt)
    {
      output := output + Text(l, fmt);
    }
  }

  /** The state read_binary leaves on top of the state it starts in: what the decoder reads
      is appended to the buffers, or cleanup's state when the file is refused */
  function BinaryInto(before: Snapshot, data: seq<byte>, fifteenths: uint16 -> Float32): Snapshot
  {
    match DecodeBinary(data)
    case None => CLEARED
    case Some(b) =>
      before.(numTriangles := b.count, header := b.header,
              normals := before.normals + Normals(b.records), vectors := before.vectors + Vectors(b.records),
              rgbColor := before.rgbColor + Colours(b.records, fifteenths))
  }

  /** The vertices of one record: k triples read in turn, each into the variables that hold
      the previous one */
  function ReadVertices(s: Stream, prev: seq<Float32>, k: nat): (g: Got<seq<Float32>>)
    requires s.Valid()
    ensures g.rest.Valid() && g.rest.data == s.data && |g.value| == k * |prev|
    decreases k
  {
    if k == 0 then Got([], s)
    else
      var t := ReadFloats(s, prev);
      var more := ReadVertices(t.rest, t.value, k - 1);
      Got(t.value + more.value, more.rest)
  }

  /** A record read as read_binary's loops read it: the normal, the vertex loop, the word */
  lemma RecordByLoops(s: Stream)
    requires s.Valid()
    ensures var n := ReadFloats(s, ZERO_TRIPLE);
      var v := ReadVertices(n.rest, n.value, VERTEX_PER_TRIANGLE);
      var a := ReadInto(v.rest, [0, 0]);
      ReadRecord(s) == Got(Record(n.value, v.value, Le16Value(a.value)), a.rest)
  {
    var n := ReadFloats(s, ZERO_TRIPLE);
    var v1 := ReadFloats(n.rest, n.value);
    var v2 := ReadFloats(v1.rest, v1.value);
    var v3 := ReadFloats(v2.rest, v2.value);
    var w3 := ReadVertices(v3.rest, v3.value, 0);
    assert w3 == Got([], v3.rest);
    var w2 := ReadVertices(v2.rest, v2.value, 1);
    assert w2 == Got(v3.value + w3.value, w3.rest);
    AppendEmpty(v3.value);
    var w1 := ReadVertices(v1.rest, v1.value, 2);
    assert w1 == Got(v2.value + w2.value, w2.rest);
    assert ReadVertices(n.rest, n.value, VERTEX_PER_TRIANGLE) == Got(v1.value + w1.value, w1.rest);
    Assoc(v1.value, v2.value, v3.value);
  }

  /** One more record read: the stream moves past it and its parts are appended */
  lemma RecordsExtend(s: Stream, k: nat, fifteenths: uint16 -> Float32)
    requires s.Valid()
    ensures var g := ReadRecords(s, k);
      var r := ReadRecord(g.rest);
      var h := ReadRecords(s, k + 1);
      h.rest == r.rest && Normals(h.value) == Normals(g.value) + r.value.normal &&
      Vectors(h.value) == Vectors(g.value) + r.value.vertices &&
      Colours(h.value, fifteenths) == Colours(g.value, fifteenths) + Colour(r.value.attribute, fifteenths)
  {
    var g := ReadRecords(s, k);
    var r := ReadRecord(g.rest);
    var h := ReadRecords(s, k + 1);
    assert h.value == g.value + [r.value];
    assert h.value[..|h.value| - 1] == g.value;
  }

  /** The first float read, then the rest */
  lemma ReadFloatsStep(s: Stream, prev: seq<Float32>)
    requires s.Valid()
    ensures prev == [] ==> ReadFloats(s, prev) == Got([], s)
    ensures prev != [] ==>
      var w := ReadInto(s, prev[0]);
      var more := ReadFloats(w.rest, prev[1..]);
      ReadFloats(s, prev) == Got([w.value] + more.value, more.rest)
  {
  }

  /** The first triple read, then the rest */
  lemma ReadVerticesStep(s: Stream, prev: seq<Float32>, k: nat)
    requires s.Valid() && k > 0
    ensures var t := ReadFloats(s, prev);
      var more := ReadVertices(t.rest, t.value, k - 1);
      ReadVertices(s, prev, k) == Got(t.value + more.value, more.rest)
  {
  }

  /** A pass that fetches a new token does not look at the one left in the buffer */
  lemma StaleTokenIgnored(c: Scan, strtof: seq<byte> -> Float32)
    requires Coherent(c) && c.readTok
    ensures Coherent(c.(tok := [])) && RunAscii(c, strtof) == RunAscii(c.(tok := []), strtof)
  {
    assert Fetch(c) == Fetch(c.(tok := []));
  }

  /** read_binary on the state read_stl leaves before it: what it stores is the decoded file */
  lemma BinaryIntoCleared(data: seq<byte>, fifteenths: uint16 -> Float32)
    ensures BinaryInto(CLEARED.(size := |data|), data, fifteenths) == AfterBinary(data, fifteenths)
  {
  }
}
