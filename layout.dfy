/** Constants of the STL layout (stl.h), the byte and 32-bit word types the reader and the
    writers exchange, and the fixed-width integer logic of the binary format: the little-endian
    triangle count, the int16_t truncation of the ASCII triangle count, and the 16-bit
    attribute word with its 4-bit colour channels. */
module StlLayout {

  const STL_HEADER_SIZE: nat := 80
  const STL_TRIANGLE_SIZE: nat := 50
  const MAX_TOKEN_LEN: nat := 1024
  const MIN_STL_LENGTH: nat := 6
  const FACET_NAME_LEN: nat := 5
  const VERTEX_PER_TRIANGLE: nat := 3
  const AXIS_PER_VERTEX: nat := 3

  /** sizeof(m_num_triangles): the count field that follows the header */
  const COUNT_SIZE: nat := 4
  /** sizeof(float) and sizeof(uint16_t) in a binary triangle record */
  const FLOAT_SIZE: nat := 4
  const ATTRIBUTE_SIZE: nat := 2
  /** Offset of the first triangle record */
  const RECORDS_START: nat := STL_HEADER_SIZE + COUNT_SIZE

  const UINT32_LIMIT: nat := 0x1_0000_0000
  const UINT16_LIMIT: nat := 0x1_0000
  const INT16_LIMIT: nat := 0x8000

  datatype Option<T> = None | Some(value: T)

  type byte = b: int | 0 <= b < 256

  /** A float as the four bytes of its IEEE-754 single-precision bit pattern. The model never
      does floating-point arithmetic: it only moves these words between files and buffers. */
  type Float32 = w: seq<byte> | |w| == FLOAT_SIZE witness [0, 0, 0, 0]

  /** The bit pattern of 0.0f, the initial value of the reader's x, y and z */
  const ZERO_FLOAT: Float32 := [0, 0, 0, 0]

  /** The floating-point conversions the source performs, which the model takes as given:
      strtof on a token, static_cast<float>(n) / 15 for a decoded colour nibble, and
      static_cast<uint16_t>(round(c * 128.0f)) for a colour channel to be encoded. */
  datatype FloatOps = FloatOps(
    strtof: seq<byte> -> Float32,
    fifteenths: uint16 -> Float32,
    scale128: Float32 -> uint16)

  /** The ASCII text of a literal, one byte per character */
  function Ascii(s: string): (r: seq<byte>)
    requires forall i :: 0 <= i < |s| ==> s[i] as int < 128
    ensures |r| == |s| && forall i :: 0 <= i < |s| ==> r[i] == s[i] as int
  {
    if s == [] then [] else [s[0] as int] + Ascii(s[1..])
  }

  /** The length check of both writers (stl.cpp:122, 226): three normal components per
      triangle and three vertex coordinates per normal component. The products are computed
      in 64 bits and cannot overflow for a 32-bit count. */
  predicate Consistent(count: nat, normals: nat, vectors: nat)
  {
    count * 3 == normals && vectors == normals * 3
  }

  /** The four bytes of a uint32_t as it sits in memory on a little-endian machine */
  function Le32(n: nat): (w: seq<byte>)
    requires n < UINT32_LIMIT
    ensures |w| == COUNT_SIZE
  {
    [n % 256, (n / 256) % 256, (n / 0x1_0000) % 256, n / 0x100_0000]
  }

  /** The uint32_t that four little-endian bytes hold */
  function Le32Value(w: seq<byte>): (n: nat)
    requires |w| == COUNT_SIZE
    ensures n < UINT32_LIMIT
  {
    w[0] as int + 256 * w[1] as int + 0x1_0000 * w[2] as int + 0x100_0000 * w[3] as int
  }

  lemma {:induction false} Le32RoundTrip(n: nat)
    requires n < UINT32_LIMIT
    ensures Le32Value(Le32(n)) == n
  {
    var w := Le32(n);
    assert n == n % 256 + 256 * (n / 256);
    assert n / 256 == (n / 256) % 256 + 256 * (n / 0x1_0000);
    assert n / 0x1_0000 == (n / 0x1_0000) % 256 + 256 * (n / 0x100_0000);
  }

  lemma {:induction false} Le32Injective(w: seq<byte>)
    requires |w| == COUNT_SIZE
    ensures Le32(Le32Value(w)) == w
  {
    var b0, b1, b2, b3 := w[0] as int, w[1] as int, w[2] as int, w[3] as int;
    DigitSplit(b0, b1 + 256 * b2 + 0x1_0000 * b3, 256);
    DigitSplit(b1, b2 + 256 * b3, 256);
    DigitSplit(b0 + 256 * b1, b2 + 256 * b3, 0x1_0000);
    DigitSplit(b2, b3, 256);
    DigitSplit(b0 + 256 * b1 + 0x1_0000 * b2, b3, 0x100_0000);
  }

  /** The low digit and the rest of a number written in base d */
  lemma DigitSplit(a: int, b: int, d: int)
    requires 0 <= a < d && 0 <= b
    ensures (a + d * b) % d == a && (a + d * b) / d == b
  {
    var q, r := (a + d * b) / d, (a + d * b) % d;
    assert d * q + r == a + d * b;
    assert d * (b - q) == d * b - d * q;
    MulSign(d, b - q);
  }

  /** A nonzero multiple of d is at least d away from zero */
  lemma MulSign(d: int, k: int)
    requires 0 < d
    ensures k >= 1 ==> d * k >= d
    ensures k <= -1 ==> d * k <= -d
  {
  }

  /** m_num_triangles after `static_cast<int16_t>(m_vectors.size() / 9)` (stl.cpp:496): the
      quotient is cut to 16 bits, read as a signed value and sign-extended into a uint32_t. */
  function Int16ToUint32(q: nat): (r: nat)
    ensures r < UINT32_LIMIT
    ensures q < INT16_LIMIT ==> r == q
    ensures q % UINT16_LIMIT >= INT16_LIMIT ==> r >= UINT32_LIMIT - INT16_LIMIT
    ensures (r - q) % UINT16_LIMIT == 0
  {
    var low := q % UINT16_LIMIT;
    var signed := if low < INT16_LIMIT then low else low - UINT16_LIMIT;
    signed % UINT32_LIMIT
  }

  /** A uint16_t. The attribute word's shifts and masks are written on its value: for a value
      below 2^16, `x >> 4` is x / 16, `x & 0xF` is x % 16, `x <<= 4` is (x * 16) % 2^16, and
      OR-ing a nibble into a word whose low nibble is zero is addition. */
  type uint16 = n: int | 0 <= n < UINT16_LIMIT

  /** Bits 4k..4k+3 of an attribute word */
  function Nibble(a: uint16, k: nat): (n: nat)
    requires k < 4
    ensures n < 16
  {
    if k == 0 then a % 16
    else if k == 1 then (a / 16) % 16
    else if k == 2 then (a / 256) % 16
    else (a / 4096) % 16
  }

  /** The attribute word create_stl_binary builds from three quantized channels
      (stl.cpp:167-181): each channel keeps its low four bits, the word is shifted left by a
      nibble after each of r, g and b, and the low bit is set. */
  function PackAttribute(r: uint16, g: uint16, b: uint16): (a: uint16)
    ensures a == 4096 * (r % 16) + 256 * (g % 16) + 16 * (b % 16) + 1
  {
    var a := r % 16;
    ShiftNibble(a);
    var a := (a * 16) % UINT16_LIMIT;
    var a := a + g % 16;
    ShiftNibble(a);
    var a := (a * 16) % UINT16_LIMIT;
    var a := a + b % 16;
    ShiftNibble(a);
    var a := (a * 16) % UINT16_LIMIT;
    a + 1
  }

  /** `x <<= 4` loses nothing while x is below 2^12 */
  lemma ShiftNibble(x: int)
    requires 0 <= x < 4096
    ensures (x * 16) % UINT16_LIMIT == 16 * x
  {
  }

  /** The colour read_binary finds in an attribute word (stl.cpp:629-638) */
  datatype AttributeColour = AttributeColour(r: nat, g: nat, b: nat, valid: bool)

  function UnpackAttribute(a: uint16): (c: AttributeColour)
    ensures c.b == Nibble(a, 0) && c.g == Nibble(a, 1) && c.r == Nibble(a, 2)
    ensures c.valid <==> Nibble(a, 3) % 2 == 1
  {
    var b := a % 16;
    var a := a / 16;
    var g := a % 16;
    var a := a / 16;
    var r := a % 16;
    var a := a / 16;
    AttributeColour(r, g, b, a % 2 == 1)
  }

  /** The nibbles of a packed word: red in bits 12-15, green in 8-11, blue in 4-7, 1 in 0-3 */
  lemma {:induction false} PackedNibbles(r: uint16, g: uint16, b: uint16)
    ensures var a := PackAttribute(r, g, b);
      Nibble(a, 3) == r % 16 && Nibble(a, 2) == g % 16 && Nibble(a, 1) == b % 16 && Nibble(a, 0) == 1
  {
    var a := PackAttribute(r, g, b);
    var hi := 256 * (r % 16) + 16 * (g % 16) + (b % 16);
    var mid := 16 * (r % 16) + (g % 16);
    Digit16(hi, 1);
    Digit16(mid, b % 16);
    Digit16(r % 16, g % 16);
    assert a / 256 == hi / 16 && a / 4096 == mid / 16;
  }

  /** Division and remainder by 16 of a number written with a last hexadecimal digit d */
  lemma Digit16(q: nat, d: nat)
    requires d < 16
    ensures (16 * q + d) / 16 == q && (16 * q + d) % 16 == d
  {
  }

  /** Decoding what the writer encoded does not give the colour back: the reader takes red
      from the writer's green nibble, green from blue, blue from the constant 1, and validity
      from the low bit of red. A colour whose red nibble is even is dropped. */
  lemma {:induction false} AttributeLayoutsDisagree(r: uint16, g: uint16, b: uint16)
    ensures UnpackAttribute(PackAttribute(r, g, b)) ==
            AttributeColour(g % 16, b % 16, 1, (r % 16) % 2 == 1)
  {
    PackedNibbles(r, g, b);
  }

  /** The two little-endian bytes of an attribute word */
  function Le16(a: uint16): (w: seq<byte>)
    ensures |w| == ATTRIBUTE_SIZE
  {
    [a % 256, a / 256]
  }

  function Le16Value(w: seq<byte>): (a: uint16)
    requires |w| == ATTRIBUTE_SIZE
  {
    w[0] as int + 256 * w[1] as int
  }

  lemma Le16RoundTrip(a: uint16)
    ensures Le16Value(Le16(a)) == a
  {
  }

  /** Concatenation regroups */
  lemma Assoc<T>(a: seq<T>, b: seq<T>, c: seq<T>)
    ensures a + b + c == a + (b + c)
  {
  }

  /** A non-empty sequence is its front followed by its last element */
  lemma FrontLast<T>(s: seq<T>)
    requires s != []
    ensures s == s[..|s| - 1] + [s[|s| - 1]]
  {
  }

  /** A prefix of a prefix */
  lemma TakeTake<T>(s: seq<T>, i: nat, j: nat)
    requires i <= j <= |s|
    ensures s[..j][..i] == s[..i]
  {
  }

  /** The whole of a sequence as a prefix */
  lemma TakeAll<T>(s: seq<T>)
    ensures s[..|s|] == s
  {
  }

  /** Two adjacent slices joined */
  lemma SliceJoin<T>(s: seq<T>, i: nat, j: nat, k: nat)
    requires i <= j <= k <= |s|
    ensures s[i..j] + s[j..k] == s[i..k]
  {
  }

  /** The two parts of a slice that holds a + b */
  lemma SliceParts<T>(d: seq<T>, p: nat, a: seq<T>, b: seq<T>)
    requires p + |a| + |b| <= |d| && d[p..p + |a| + |b|] == a + b
    ensures d[p..p + |a|] == a && d[p + |a|..p + |a| + |b|] == b
  {
    assert d[p..p + |a|] == d[p..p + |a| + |b|][..|a|];
    assert d[p + |a|..p + |a| + |b|] == d[p..p + |a| + |b|][|a|..];
  }

  lemma AppendEmpty<T>(s: seq<T>)
    ensures s + [] == s
  {
  }
}
