/** The character-level reading of an STL file: the input stream, the character classes that
    get_next_token and read_line test, and what one call of each leaves in the token buffer
    (stl.cpp:274-321). */
module Tokenizer {
  import opened StlLayout

  /** The open input file: its bytes, the read position, and the stream's end-of-file flag,
      which is set only by an attempt to read past the last byte. */
  datatype Stream = Stream(data: seq<byte>, pos: nat, eof: bool) {
    ghost predicate Valid() {
      pos <= |data| && (eof ==> pos == |data|)
    }
  }

  /** The stream over a freshly opened (or rewound) file */
  function Start(data: seq<byte>): (s: Stream)
    ensures s.Valid()
  {
    Stream(data, 0, false)
  }

  /** The number of get() calls a stream can still answer, the end-of-file answer included */
  function Ticks(s: Stream): nat
    requires s.Valid()
  {
    |s.data| - s.pos + (if s.eof then 0 else 1)
  }

  const NEWLINE: byte := 10
  const SPACE: byte := 32

  /** The value a byte has once stored in a (signed) `char` */
  function AsChar(b: byte): int
  {
    if b < 128 then b else b - 256
  }

  /** std::isspace in the "C" locale: space, tab, newline, vertical tab, form feed, return */
  predicate IsSpace(b: byte)
  {
    b == SPACE || 9 <= b <= 13
  }

  /** The bytes get_next_token treats as separators: `ch < 1 || isspace(ch)` */
  predicate IsDelimiter(b: byte)
  {
    AsChar(b) < 1 || IsSpace(b)
  }

  /** The bytes read_line drops before it stores its first byte: `ch < 0 || isspace(ch)`,
      tested only after the newline test */
  predicate IsLineLead(b: byte)
  {
    b != NEWLINE && (AsChar(b) < 0 || IsSpace(b))
  }

  /** The first position at or after i that holds no delimiter, or the end */
  function SkipDelimiters(s: seq<byte>, i: nat): (j: nat)
    requires i <= |s|
    ensures i <= j <= |s|
    ensures forall k :: i <= k < j ==> IsDelimiter(s[k])
    ensures j < |s| ==> !IsDelimiter(s[j])
    decreases |s| - i
  {
    if i == |s| || !IsDelimiter(s[i]) then i else SkipDelimiters(s, i + 1)
  }

  /** The first delimiter at or after j, or the end */
  function WordEnd(s: seq<byte>, j: nat): (e: nat)
    requires j <= |s|
    ensures j <= e <= |s|
    ensures forall k :: j <= k < e ==> !IsDelimiter(s[k])
    ensures e < |s| ==> IsDelimiter(s[e])
    decreases |s| - j
  {
    if j == |s| || IsDelimiter(s[j]) then j else WordEnd(s, j + 1)
  }

  /** The first position at or after i that read_line does not skip, or the end */
  function SkipLineLead(s: seq<byte>, i: nat): (j: nat)
    requires i <= |s|
    ensures i <= j <= |s|
    ensures forall k :: i <= k < j ==> IsLineLead(s[k])
    ensures j < |s| ==> !IsLineLead(s[j])
    decreases |s| - i
  {
    if i == |s| || !IsLineLead(s[i]) then i else SkipLineLead(s, i + 1)
  }

  /** The first newline at or after j, or the end */
  function LineEnd(s: seq<byte>, j: nat): (e: nat)
    requires j <= |s|
    ensures j <= e <= |s|
    ensures forall k :: j <= k < e ==> s[k] != NEWLINE
    ensures e < |s| ==> s[e] == NEWLINE
    decreases |s| - j
  {
    if j == |s| || s[j] == NEWLINE then j else LineEnd(s, j + 1)
  }

  /** The longest text the 1024-byte token buffer holds before its terminating NUL */
  const MAX_TEXT: nat := MAX_TOKEN_LEN - 1

  /** What one call stores in the token buffer (before the terminating NUL) and the stream
      it leaves behind */
  datatype Lexeme = Lexeme(text: seq<byte>, rest: Stream)

  /** get_next_token: skip delimiters, store the following run of other bytes up to the
      buffer's limit, and consume the one delimiter that ends the run. A run that fills the
      buffer is cut without consuming anything after it. At the end of the input the text is
      empty. */
  function NextToken(s: Stream): (t: Lexeme)
    requires s.Valid()
    ensures t.rest.Valid() && t.rest.data == s.data && s.pos <= t.rest.pos
    ensures |t.text| <= MAX_TEXT
    ensures forall k :: 0 <= k < |t.text| ==> !IsDelimiter(t.text[k])
  {
    if s.eof then Lexeme([], s)
    else
      var j := SkipDelimiters(s.data, s.pos);
      var e := WordEnd(s.data, j);
      if e - j >= MAX_TEXT then Lexeme(s.data[j..j + MAX_TEXT], Stream(s.data, j + MAX_TEXT, false))
      else if e < |s.data| then Lexeme(s.data[j..e], Stream(s.data, e + 1, false))
      else Lexeme(s.data[j..e], Stream(s.data, |s.data|, true))
  }

  /** read_line: drop leading whitespace and negative chars, store the bytes up to the next
      newline (NUL bytes included) up to the buffer's limit, and consume the newline. */
  function ReadLine(s: Stream): (t: Lexeme)
    requires s.Valid()
    ensures t.rest.Valid() && t.rest.data == s.data && s.pos <= t.rest.pos
    ensures |t.text| <= MAX_TEXT
    ensures forall k :: 0 <= k < |t.text| ==> t.text[k] != NEWLINE
  {
    if s.eof then Lexeme([], s)
    else
      var j := SkipLineLead(s.data, s.pos);
      var e := LineEnd(s.data, j);
      if e - j >= MAX_TEXT then Lexeme(s.data[j..j + MAX_TEXT], Stream(s.data, j + MAX_TEXT, false))
      else if e < |s.data| then Lexeme(s.data[j..e], Stream(s.data, e + 1, false))
      else Lexeme(s.data[j..e], Stream(s.data, |s.data|, true))
  }

  /** The C string a NUL-terminated buffer holds: its bytes up to the first NUL */
  function CStr(buf: seq<byte>): (c: seq<byte>)
    ensures |c| <= |buf| && c == buf[..|c|]
    ensures forall k :: 0 <= k < |c| ==> c[k] != 0
    ensures |c| < |buf| ==> buf[|c|] == 0
  {
    if buf == [] || buf[0] == 0 then [] else [buf[0]] + CStr(buf[1..])
  }

  /** strncmp(s, lit, |lit|) == 0 for a literal without NUL bytes */
  predicate StartsWith(s: seq<byte>, lit: seq<byte>)
  {
    |lit| <= |s| && s[..|lit|] == lit
  }

  lemma {:induction false} CStrOfTerminated(buf: seq<byte>, n: nat)
    requires n < |buf| && buf[n] == 0
    requires forall k :: 0 <= k < n ==> buf[k] != 0
    ensures CStr(buf) == buf[..n]
  {
    var c := CStr(buf);
    assert |c| >= n;
  }

  /** A token never contains a NUL, so the buffer's C string is the whole stored text. */
  lemma TokenIsCString(s: Stream, rest: seq<byte>)
    requires s.Valid()
    ensures CStr(NextToken(s).text + [0] + rest) == NextToken(s).text
  {
    var t := NextToken(s).text;
    var buf := t + [0] + rest;
    forall k | 0 <= k < |t| ensures buf[k] != 0 {
      assert !IsDelimiter(t[k]);
    }
    CStrOfTerminated(buf, |t|);
  }

  /** A C string ends at the first NUL: what follows a terminator does not matter */
  lemma {:induction false} CStrStops(a: seq<byte>, rest: seq<byte>)
    ensures CStr(a + [0] + rest) == CStr(a)
    decreases |a|
  {
    var buf := a + [0] + rest;
    if a == [] || a[0] == 0 {
      assert buf[0] == 0;
    } else {
      assert buf[0] == a[0] && buf[1..] == a[1..] + [0] + rest;
      CStrStops(a[1..], rest);
    }
  }

  /** At the end of the input get_next_token stores the empty string and leaves the stream at
      its end: the token is "" rather than a null pointer. */
  lemma NextTokenAtEnd(s: Stream)
    requires s.Valid()
    requires forall k :: s.pos <= k < |s.data| ==> IsDelimiter(s.data[k])
    ensures NextToken(s).text == []
    ensures NextToken(s).rest == Stream(s.data, |s.data|, true)
  {
    if !s.eof {
      var j := SkipDelimiters(s.data, s.pos);
      assert j == |s.data|;
    }
  }

  /** Every call that finds the stream not yet at end of file consumes at least one get(), so
      the number of answers left strictly drops; at end of file nothing changes. */
  lemma NextTokenProgress(s: Stream)
    requires s.Valid()
    ensures Ticks(NextToken(s).rest) <= Ticks(s)
    ensures !s.eof ==> Ticks(NextToken(s).rest) < Ticks(s)
    ensures s.eof ==> NextToken(s) == Lexeme([], s)
  {
    if !s.eof {
      var j := SkipDelimiters(s.data, s.pos);
      var e := WordEnd(s.data, j);
      if e - j >= MAX_TEXT {
        assert j + MAX_TEXT > s.pos;
      }
    }
  }

  lemma ReadLineProgress(s: Stream)
    requires s.Valid()
    ensures Ticks(ReadLine(s).rest) <= Ticks(s)
    ensures s.eof ==> ReadLine(s) == Lexeme([], s)
  {
  }

  /** A token shorter than the buffer's limit is maximal: it is followed by a delimiter,
      which is consumed, or by the end of the input. */
  lemma NextTokenMaximal(s: Stream)
    requires s.Valid() && !s.eof
    requires |NextToken(s).text| < MAX_TEXT
    ensures var t := NextToken(s);
      (t.rest.eof && t.rest.pos == |s.data|) ||
      (1 <= t.rest.pos && IsDelimiter(s.data[t.rest.pos - 1]) &&
       s.data[t.rest.pos - 1 - |t.text| .. t.rest.pos - 1] == t.text)
  {
  }

  /** The tokenizer on text laid out as delimiters, a word and one delimiter: it returns the
      word and stops right after that delimiter. */
  lemma {:induction false} NextTokenOfWord(s: Stream, gap: nat, w: seq<byte>)
    requires s.Valid() && !s.eof
    requires s.pos + gap + |w| < |s.data|
    requires forall k :: s.pos <= k < s.pos + gap ==> IsDelimiter(s.data[k])
    requires 0 < |w| < MAX_TEXT && s.data[s.pos + gap .. s.pos + gap + |w|] == w
    requires forall k :: 0 <= k < |w| ==> !IsDelimiter(w[k])
    requires IsDelimiter(s.data[s.pos + gap + |w|])
    ensures NextToken(s) == Lexeme(w, Stream(s.data, s.pos + gap + |w| + 1, false))
  {
    var j0 := s.pos + gap;
    forall k | j0 <= k < j0 + |w|
      ensures !IsDelimiter(s.data[k])
    {
      assert s.data[k] == s.data[j0..j0 + |w|][k - j0];
    }
    SkipDelimitersAt(s.data, s.pos, j0);
    WordEndAt(s.data, j0, j0 + |w|);
  }

  /** The tokenizer on a word that runs to the end of the input: it returns the word, and the
      get() that finds no byte after it sets end of file (stl.cpp:307-311). */
  lemma {:induction false} NextTokenOfLastWord(s: Stream, w: seq<byte>)
    requires s.Valid() && !s.eof
    requires 0 < |w| < MAX_TEXT && s.data[s.pos..] == w
    requires forall k :: 0 <= k < |w| ==> !IsDelimiter(w[k])
    ensures NextToken(s) == Lexeme(w, Stream(s.data, |s.data|, true))
  {
    forall k | s.pos <= k < |s.data|
      ensures !IsDelimiter(s.data[k])
    {
      assert s.data[k] == s.data[s.pos..][k - s.pos];
    }
    assert SkipDelimiters(s.data, s.pos) == s.pos;
    WordEndAtEnd(s.data, s.pos);
  }

  /** A run of non-delimiters up to the end of the input ends at the end */
  lemma {:induction false} WordEndAtEnd(s: seq<byte>, j: nat)
    requires j <= |s|
    requires forall k :: j <= k < |s| ==> !IsDelimiter(s[k])
    ensures WordEnd(s, j) == |s|
    decreases |s| - j
  {
    if j < |s| {
      WordEndAtEnd(s, j + 1);
    }
  }

  /** The skip stops at the first byte that is not a delimiter */
  lemma SkipDelimitersAt(s: seq<byte>, i: nat, j: nat)
    requires i <= j < |s| && !IsDelimiter(s[j])
    requires forall k :: i <= k < j ==> IsDelimiter(s[k])
    ensures SkipDelimiters(s, i) == j
  {
  }

  /** A word ends at the first delimiter */
  lemma WordEndAt(s: seq<byte>, j: nat, e: nat)
    requires j <= e < |s| && IsDelimiter(s[e])
    requires forall k :: j <= k < e ==> !IsDelimiter(s[k])
    ensures WordEnd(s, j) == e
  {
  }

  /** read_line on text laid out as line-lead bytes, a line and its newline */
  lemma {:induction false} ReadLineOfLine(s: Stream, gap: nat, line: seq<byte>)
    requires s.Valid() && !s.eof
    requires s.pos + gap + |line| < |s.data|
    requires forall k :: s.pos <= k < s.pos + gap ==> IsLineLead(s.data[k])
    requires |line| < MAX_TEXT && s.data[s.pos + gap .. s.pos + gap + |line|] == line
    requires |line| > 0 ==> !IsLineLead(line[0])
    requires forall k :: 0 <= k < |line| ==> line[k] != NEWLINE
    requires s.data[s.pos + gap + |line|] == NEWLINE
    ensures ReadLine(s) == Lexeme(line, Stream(s.data, s.pos + gap + |line| + 1, false))
  {
    var j0 := s.pos + gap;
    forall k | j0 <= k < j0 + |line|
      ensures s.data[k] == line[k - j0]
    {
      assert s.data[k] == s.data[j0..j0 + |line|][k - j0];
    }
    if |line| > 0 {
      assert s.data[j0] == line[0];
    } else {
      assert s.data[j0] == NEWLINE;
    }
    SkipLineLeadAt(s.data, s.pos, j0);
    LineEndAt(s.data, j0, j0 + |line|);
  }

  /** read_line's skip stops at the first byte it does not skip */
  lemma SkipLineLeadAt(s: seq<byte>, i: nat, j: nat)
    requires i <= j < |s| && !IsLineLead(s[j])
    requires forall k :: i <= k < j ==> IsLineLead(s[k])
    ensures SkipLineLead(s, i) == j
  {
  }

  /** A line ends at the first newline */
  lemma LineEndAt(s: seq<byte>, j: nat, e: nat)
    requires j <= e < |s| && s[e] == NEWLINE
    requires forall k :: j <= k < e ==> s[k] != NEWLINE
    ensures LineEnd(s, j) == e
  {
  }
}
