/** create_stl_ascii (stl.cpp:213-271): the lines it writes for an object, and their bytes.
    The floats are printed through a formatting function that the model takes as given. */
module AsciiWriter {
  import opened StlLayout
  import opened Tokenizer
  import opened AsciiParser

  /** One word of the output: the spaces that indent it, its bytes, and the byte written
      after it (a space between words, a newline at the end of a line) */
  datatype Unit = Unit(indent: nat, word: seq<byte>, end: byte)

  function Spaces(n: nat): (s: seq<byte>)
    ensures |s| == n && forall k :: 0 <= k < n ==> s[k] == SPACE
  {
    if n == 0 then [] else [SPACE] + Spaces(n - 1)
  }

  function UnitBytes(u: Unit): (b: seq<byte>)
    ensures |b| == u.indent + |u.word| + 1
  {
    Spaces(u.indent) + u.word + [u.end]
  }

  function UnitsBytes(us: seq<Unit>): seq<byte>
  {
    if us == [] then [] else UnitBytes(us[0]) + UnitsBytes(us[1..])
  }

  /** A line of the output file. The facet normal and vertex lines hold the three values as
      printed (the writer prints x, x, z); the invalid-data line holds the four sizes it
      reports. */
  datatype Line =
    | SolidLine(name: seq<byte>)
    | FacetNormalLine(nx: Float32, ny: Float32, nz: Float32)
    | OuterLoopLine
    | VertexLine(x: Float32, y: Float32, z: Float32)
    | EndLoopLine
    | EndFacetLine
    | EndSolidLine(endName: seq<byte>)
    | InvalidDataLine(triangles: nat, vectors: nat, normals: nat, colours: nat)

  /** The decimal digits operator<< prints for an unsigned integer */
  function Decimal(n: nat): (d: seq<byte>)
    ensures |d| > 0 && forall k :: 0 <= k < |d| ==> 48 <= d[k] < 58
    decreases n
  {
    if n < 10 then [48 + n] else Decimal(n / 10) + [48 + n % 10]
  }

  /** The number a string of decimal digits denotes */
  function DecimalValue(d: seq<byte>): nat
    requires forall k :: 0 <= k < |d| ==> 48 <= d[k] < 58
  {
    if d == [] then 0 else 10 * DecimalValue(d[..|d| - 1]) + (d[|d| - 1] - 48)
  }

  /** Printed numbers read back as the number printed */
  lemma {:induction false} DecimalRoundTrip(n: nat)
    ensures DecimalValue(Decimal(n)) == n
    decreases n
  {
    if n >= 10 {
      DecimalRoundTrip(n / 10);
      var d := Decimal(n);
      assert d[..|d| - 1] == Decimal(n / 10);
    }
  }

  /** The words of the invalid-data line */
  const INVALID_WORD: seq<byte> := [73, 110, 118, 97, 108, 105, 100]  // "Invalid"
  const STL_WORD: seq<byte> := [115, 116, 108]  // "stl"
  const DATA_WORD: seq<byte> := [100, 97, 116, 97, 46]  // "data."
  const TRIANGLES_WORD: seq<byte> := [116, 114, 105, 97, 110, 103, 108, 101, 115]  // "triangles"
  const VECTORS_WORD: seq<byte> := [118, 101, 99, 116, 111, 114, 115]  // "vectors"
  const NORMALS_WORD: seq<byte> := [110, 111, 114, 109, 97, 108, 115]  // "normals"
  const RGB_COLORS_WORD: seq<byte> := [114, 103, 98, 95, 99, 111, 108, 111, 114, 115]  // "rgb_colors"

  /** "[n]" */
  function Bracketed(n: nat): seq<byte>
  {
    [91] + Decimal(n) + [93]
  }

  /** The words of each line with their indentation and separators */
  function LineUnits(l: Line, fmt: Float32 -> seq<byte>): (us: seq<Unit>)
    ensures us != []
  {
    match l
    case SolidLine(name) => [Unit(0, SOLID, SPACE), Unit(0, name, NEWLINE)]
    case FacetNormalLine(x, y, z) =>
      [Unit(0, FACET, SPACE), Unit(0, NORMAL, SPACE),
       Unit(0, fmt(x), SPACE), Unit(0, fmt(y), SPACE), Unit(0, fmt(z), NEWLINE)]
    case OuterLoopLine => [Unit(1, OUTER, SPACE), Unit(0, LOOP, NEWLINE)]
    case VertexLine(x, y, z) =>
      [Unit(2, VERTEX, SPACE), Unit(0, fmt(x), SPACE), Unit(0, fmt(y), SPACE), Unit(0, fmt(z), NEWLINE)]
    case EndLoopLine => [Unit(1, ENDLOOP, NEWLINE)]
    case EndFacetLine => [Unit(0, ENDFACET, NEWLINE)]
    case EndSolidLine(name) => [Unit(0, ENDSOLID, SPACE), Unit(0, name, NEWLINE)]
    case InvalidDataLine(t, v, n, c) =>
      [Unit(0, INVALID_WORD, SPACE), Unit(0, STL_WORD, SPACE), Unit(0, DATA_WORD, SPACE),
       Unit(1, TRIANGLES_WORD, SPACE), Unit(0, Bracketed(t), SPACE),
       Unit(0, VECTORS_WORD, SPACE), Unit(0, Bracketed(v), SPACE),
       Unit(0, NORMALS_WORD, SPACE), Unit(0, Bracketed(n), SPACE),
       Unit(0, RGB_COLORS_WORD, SPACE), Unit(0, Bracketed(c), NEWLINE)]
  }

  function Text(l: Line, fmt: Float32 -> seq<byte>): seq<byte>
  {
    UnitsBytes(LineUnits(l, fmt))
  }

  /** The bytes of a sequence of lines */
  function Render(lines: seq<Line>, fmt: Float32 -> seq<byte>): seq<byte>
  {
    if lines == [] then [] else Text(lines[0], fmt) + Render(lines[1..], fmt)
  }

  lemma {:induction false} RenderAppend(a: seq<Line>, b: seq<Line>, fmt: Float32 -> seq<byte>)
    ensures Render(a + b, fmt) == Render(a, fmt) + Render(b, fmt)
    decreases |a|
  {
    if a == [] {
      assert a + b == b;
    } else {
      assert (a + b)[0] == a[0] && (a + b)[1..] == a[1..] + b;
      RenderAppend(a[1..], b, fmt);
    }
  }

  lemma RenderOne(l: Line, fmt: Float32 -> seq<byte>)
    ensures Render([l], fmt) == Text(l, fmt)
  {
    assert [l][1..] == [];
  }

  /** The bytes of lines are those of all but the last, then the last */
  lemma RenderSnoc(ls: seq<Line>, fmt: Float32 -> seq<byte>)
    requires ls != []
    ensures Render(ls, fmt) == Render(ls[..|ls| - 1], fmt) + Text(ls[|ls| - 1], fmt)
  {
    FrontLast(ls);
    RenderAppend(ls[..|ls| - 1], [ls[|ls| - 1]], fmt);
    RenderOne(ls[|ls| - 1], fmt);
  }

  /** Seven lines written after `prefix`, one line after the other */
  lemma RenderSeven(prefix: seq<byte>, ls: seq<Line>, fmt: Float32 -> seq<byte>)
    requires |ls| == 7
    ensures prefix + Render(ls, fmt) == prefix + Text(ls[0], fmt) + Text(ls[1], fmt) + Text(ls[2], fmt) +
      Text(ls[3], fmt) + Text(ls[4], fmt) + Text(ls[5], fmt) + Text(ls[6], fmt)
  {
    TakeAll(ls);
    RenderSnoc(ls[..7], fmt);
    TakeTake(ls, 6, 7);
    Assoc(prefix, Render(ls[..6], fmt), Text(ls[6], fmt));
    RenderSnoc(ls[..6], fmt);
    TakeTake(ls, 5, 6);
    Assoc(prefix, Render(ls[..5], fmt), Text(ls[5], fmt));
    RenderSnoc(ls[..5], fmt);
    TakeTake(ls, 4, 5);
    Assoc(prefix, Render(ls[..4], fmt), Text(ls[4], fmt));
    RenderSnoc(ls[..4], fmt);
    TakeTake(ls, 3, 4);
    Assoc(prefix, Render(ls[..3], fmt), Text(ls[3], fmt));
    RenderSnoc(ls[..3], fmt);
    TakeTake(ls, 2, 3);
    Assoc(prefix, Render(ls[..2], fmt), Text(ls[2], fmt));
    RenderSnoc(ls[..2], fmt);
    TakeTake(ls, 1, 2);
    Assoc(prefix, Render(ls[..1], fmt), Text(ls[1], fmt));
    RenderSnoc(ls[..1], fmt);
    TakeTake(ls, 0, 1);
    Assoc(prefix, Render(ls[..0], fmt), Text(ls[0], fmt));
    AppendEmpty(prefix);
  }

  /** The seven lines of triangle t: its normal printed as (x, x, z), "outer loop", its three
      vertices printed the same way, "endloop" and "endfacet" */
  function FacetLines(normals: seq<Float32>, vectors: seq<Float32>, t: nat): (ls: seq<Line>)
    requires 3 * t + 3 <= |normals| && 9 * t + 9 <= |vectors|
    ensures |ls| == 7
  {
    var n := 3 * t;
    var v := 9 * t;
    [FacetNormalLine(normals[n], normals[n], normals[n + 2]),
     OuterLoopLine,
     VertexLine(vectors[v], vectors[v], vectors[v + 2]),
     VertexLine(vectors[v + 3], vectors[v + 3], vectors[v + 5]),
     VertexLine(vectors[v + 6], vectors[v + 6], vectors[v + 8]),
     EndLoopLine,
     EndFacetLine]
  }

  /** The bytes of triangle t's lines written after `prefix`, line by line, with the normal
      at n and the vertices at v0, v1 and v2 */
  lemma FacetText(prefix: seq<byte>, normals: seq<Float32>, vectors: seq<Float32>, t: nat,
                  n: nat, v0: nat, v1: nat, v2: nat, fmt: Float32 -> seq<byte>)
    requires 3 * t + 3 <= |normals| && 9 * t + 9 <= |vectors|
    requires n == 3 * t && v0 == 9 * t && v1 == v0 + 3 && v2 == v1 + 3
    ensures prefix + Render(FacetLines(normals, vectors, t), fmt) ==
      prefix + Text(FacetNormalLine(normals[n], normals[n], normals[n + 2]), fmt) + Text(OuterLoopLine, fmt) +
      Text(VertexLine(vectors[v0], vectors[v0], vectors[v0 + 2]), fmt) +
      Text(VertexLine(vectors[v1], vectors[v1], vectors[v1 + 2]), fmt) +
      Text(VertexLine(vectors[v2], vectors[v2], vectors[v2 + 2]), fmt) +
      Text(EndLoopLine, fmt) + Text(EndFacetLine, fmt)
  {
    RenderSeven(prefix, FacetLines(normals, vectors, t), fmt);
  }

  /** The lines of triangles j to k - 1 */
  function FacetsBetween(normals: seq<Float32>, vectors: seq<Float32>, j: nat, k: nat): (ls: seq<Line>)
    requires j <= k && 3 * k <= |normals| && 9 * k <= |vectors|
    ensures |ls| == 7 * (k - j)
    decreases k - j
  {
    if j == k then [] else FacetLines(normals, vectors, j) + FacetsBetween(normals, vectors, j + 1, k)
  }

  /** The loop writes one more triangle after those before it */
  lemma {:induction false} FacetsExtend(normals: seq<Float32>, vectors: seq<Float32>, j: nat, k: nat)
    requires j <= k && 3 * k + 3 <= |normals| && 9 * k + 9 <= |vectors|
    ensures FacetsBetween(normals, vectors, j, k + 1) ==
            FacetsBetween(normals, vectors, j, k) + FacetLines(normals, vectors, k)
    decreases k - j
  {
    if j < k {
      FacetsExtend(normals, vectors, j + 1, k);
    }
  }

  /** Everything create_stl_ascii writes once the output file is open: the invalid-data line
      when the sizes disagree, the whole solid otherwise */
  function AsciiLines(name: seq<byte>, count: nat, normals: seq<Float32>, vectors: seq<Float32>,
                      colours: nat): seq<Line>
  {
    if !Consistent(count, |normals|, |vectors|) then
      [InvalidDataLine(count, |vectors|, |normals|, colours)]
    else
      [SolidLine(name)] + FacetsBetween(normals, vectors, 0, count) + [EndSolidLine(name)]
  }
}
