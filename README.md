# STL reader and writer, modelled in Dafny

This project models the `stl` class of a small C++ library that reads and writes STL
triangle meshes (`stl.cpp`, with its state and constants in `stl.h`). The model is
verified in Dafny.

The class keeps a mesh in public buffers:
- `m_num_triangles`;
- `m_normals`, three floats per triangle;
- `m_vectors`, nine floats per triangle;
- `m_rgb_color`;
- `m_size`;
- the 80-byte `m_header`.

The class has four main operations:
- `read_stl` clears the object. It opens the file and looks at its first tokens. It then hands the file to the ASCII parser (`read_ascii`) or to the binary reader (`read_binary`).
- `create_stl_binary` writes the buffers as a binary file.
- `create_stl_ascii` writes them as text.
- `cleanup` resets the whole object.

## How the model is built

The model has two layers.

**The functional layer** describes what each operation computes. It works on the file's bytes (`seq<byte>`).
- `Tokenizer` holds the input stream with the C++ `get()`/`read()` end-of-file behaviour. It also holds `NextToken` (get_next_token) and `ReadLine` (read_line), with the 1023-byte cut of the 1024-byte token buffer.
- `AsciiParser` models read_ascii's `do … while` loop over the 16 `sti_parse_state` values.
  - `Iteration` is one pass: fetch a token when `m_read_tok` is set, then run the case of the switch.
  - `RunAscii` repeats `Iteration` until the `error` case returns -1 or the `in_endsolid` case ends the loop.
  - Termination is proved for every input of the model's stream. The source itself does not return on some files: see `StlReader.ReadStl` below.
- `BinaryCodec` models what read_binary reads (`DecodeBinary`) and what create_stl_binary writes (`EncodeBinary`).
- `AsciiWriter` gives the lines create_stl_ascii writes and their bytes.
- `StlReader` gives read_stl as a function of the file (`Detect`, `ReadStl`).
- `AsciiRoundTrip` states what read_ascii makes of a file that create_stl_ascii wrote.

**The imperative layer** is the class `StlFile.Stl`.
- It holds the same members as the C++ class. The header and the token buffer are arrays.
- Its methods change the members step by step as the source does: the character loops of the tokenizer, the do-while loop of read_ascii, and the per-record loops of both binary routines.
- Each method is proved against the functional layer.

Floats are opaque 4-byte words (`Float32`). The conversions the source performs on them are parameters of the model:
- `strtof`;
- `n / 15.0f` when a colour is decoded;
- `round(c * 128.0f)` when a colour is encoded;
- `operator<<` on a float.

The model follows the code as written, including its quirks. Each quirk is stated and proved:
- The ASCII writer prints every triple as `x x z` (`AsciiRoundTrip.EchoExact`).
- After read_ascii, the triangle count goes through `int16_t` (`StlLayout.Int16ToUint32`).
- The binary size check is done in 32-bit arithmetic, so it wraps. It refuses only files longer than the count implies:
  - `BinaryCodec.HeaderOnlyFile` shows a short file is accepted;
  - `BinaryCodec.WrappedCountRefused` shows a complete large file is refused.
- The writer and the reader use different bit layouts for the attribute word (`StlLayout.AttributeLayoutsDisagree`).
- The writer indexes colours with pre-increment, starting at index 1. It reads one element past the end of `m_rgb_color` exactly when the size of `m_rgb_color` is a positive multiple of 3 and the triangle count is at least that size / 3. The read is the blue channel of the last colour (`BinaryCodec.WrittenColourChannels`).
- read_stl returns 0 whenever the file could be opened and holds at least 6 bytes, whatever the parsers made of it (`StlReader.ReadStl`).
- read_stl never returns on a file whose probing runs into the end of the file before the ASCII branch rewinds it. Examples are `solid a\nfacet` and `solid\nfacet normal 0 0 1` without a final newline. The last `get()` has set failbit, `seekg(0)` leaves the stream where it is, and every later `get()` fails without setting eofbit, so `get_next_token` loops forever. `StlReader.ReadStl` gives `Hangs` for exactly these files (`StlReader.FacetAtEndHangs`).

Behaviours of the code that are easy to miss; the model follows the code:
- Tokens and lines longer than 1023 bytes are silently cut, not rejected.
- The binary size check refuses only files longer than `84 + 50 * count`, and the product wraps at 2^32. It is not an equality test.
- The decoder takes validity from bit 12 and blue, green and red from bits 0-3, 4-7 and 8-11.
- The encoder packs `round(c * 128) & 0xF` with red in the top nibble and validity in bit 0.
- Both writers open (and truncate) the output file before the length check. create_stl_ascii writes its "Invalid stl data" line into that file.
- A failed read leaves `cleanup`'s empty state, not the previous contents.

## Model

| member | source | states |
|---|---|---|
| `StlLayout.Le32RoundTrip` | stl.cpp:138 | the count written as four little-endian bytes reads back as the same count |
| `StlLayout.Le32Injective` | stl.cpp:590 | every four bytes read as a count are the encoding of that count, so the count field determines the bytes |
| `StlLayout.Int16ToUint32` | stl.cpp:496 | `static_cast<int16_t>` of the vertex quotient stored in a uint32: below 32768 the quotient is kept; a 16-bit remainder of 32768 or more gives a value of at least 2^32 - 32768; the result differs from the quotient by a multiple of 2^16 |
| `StlLayout.PackAttribute` | stl.cpp:167-181 | the shift-and-or sequence gives 4096·(r mod 16) + 256·(g mod 16) + 16·(b mod 16) + 1 |
| `StlLayout.PackedNibbles` | stl.cpp:174-180 | the packed word holds red in bits 12-15, green in 8-11, blue in 4-7 and 1 in bits 0-3 |
| `StlLayout.UnpackAttribute` | stl.cpp:629-638 | the decoder takes blue from bits 0-3, green from 4-7, red from 8-11, and validity from bit 12 |
| `StlLayout.AttributeLayoutsDisagree` | stl.cpp:629-638 | decoding a word the writer packed gives red = written green, green = written blue, blue = 1, valid = low bit of written red |
| `StlLayout.Le16RoundTrip` | stl.cpp:630 | the attribute word written as two bytes reads back as itself |
| `Tokenizer.SkipDelimiters` | stl.cpp:303-316 | the first position at or after i whose byte is neither below 1 (as a signed char) nor whitespace; every byte skipped is such a delimiter |
| `Tokenizer.WordEnd` | stl.cpp:303-318 | the end of the run of non-delimiters that starts at j: every byte in it is a non-delimiter, and the byte after it is a delimiter or the end |
| `Tokenizer.SkipLineLead` | stl.cpp:286-289 | read_line drops exactly the leading bytes that are negative chars or whitespace other than newline |
| `Tokenizer.LineEnd` | stl.cpp:282-285 | the line runs to the first newline or the end of input |
| `Tokenizer.NextToken` | stl.cpp:298-321 | the token is at most 1023 bytes, contains no delimiter, and the stream never moves backwards |
| `Tokenizer.ReadLine` | stl.cpp:274-294 | the line is at most 1023 bytes, contains no newline, and the stream never moves backwards |
| `Tokenizer.CStr` | stl.cpp:319-320 | the C string of a buffer is its prefix before the first NUL, which it does not contain |
| `Tokenizer.CStrOfTerminated` | stl.cpp:319 | a buffer with a NUL at n and none before holds the C string of its first n bytes |
| `Tokenizer.TokenIsCString` | stl.cpp:317-320 | the stored token contains no NUL, so strcmp on the buffer sees the whole token |
| `Tokenizer.CStrStops` | stl.cpp:292 | bytes after the terminator do not change the C string |
| `Tokenizer.NextTokenAtEnd` | stl.cpp:298-321 | with only delimiters left, the token is "" (never a null pointer) and the stream ends at end of file |
| `Tokenizer.NextTokenProgress` | stl.cpp:303-318 | a call before end of file consumes at least one get(); at end of file it returns "" and changes nothing |
| `Tokenizer.ReadLineProgress` | stl.cpp:279-291 | read_line never gives input back, and returns "" at end of file |
| `Tokenizer.NextTokenMaximal` | stl.cpp:307-311 | a token shorter than the limit is maximal: it is the bytes just before a consumed delimiter, or it runs to end of file |
| `Tokenizer.NextTokenOfWord` | stl.cpp:303-320 | on delimiters, a word and a delimiter, the tokenizer returns exactly the word and stops just after that delimiter |
| `Tokenizer.NextTokenOfLastWord` | stl.cpp:303-320 | on bytes without a delimiter that run to the end of the input, the tokenizer returns them whole and the stream is left at end of file |
| `Tokenizer.ReadLineOfLine` | stl.cpp:279-293 | on skipped lead bytes, a line and a newline, read_line returns the line and stops just after the newline |
| `AsciiParser.Fetch` | stl.cpp:358-364 | fetching a token changes only the token and the stream |
| `AsciiParser.IterationProgress` | stl.cpp:356-494 | every pass that goes round again consumes input, uses up a kept token, or moves closer to `error` at end of input, so the loop always ends through `in_endsolid` or `error` |
| `AsciiParser.DispatchKeepsTicks` | stl.cpp:366-493 | no case of the switch gives input back, and a cleared `m_read_tok` is left only in states that re-examine the token |
| `AsciiParser.DispatchAtEnd` | stl.cpp:366-493 | at end of input every keyword test fails on "" and the value states run down towards `error` without reading |
| `AsciiParser.DispatchKept` | stl.cpp:383-396 | a pass over a kept token consumes it or moves to a state of lower rank |
| `AsciiParser.ErrorRejects` | stl.cpp:368-370 | the `error` case returns -1 after reading one more token when `m_read_tok` is set |
| `AsciiParser.KeywordMismatchRejects` | stl.cpp:327-336 | in every keyword state, a token other than its literal (in `in_facet`, other than "facet" or "endsolid") leads to -1 on the next pass |
| `AsciiParser.KeywordMatchAdvances` | stl.cpp:408-480 | a keyword state whose literal matches moves to its successor and asks for a new token |
| `AsciiParser.ComponentAdvances` | stl.cpp:501-527 | a component of the facet normal is strtof of the token appended to `m_normals`, and x→y→z→`in_outer` |
| `AsciiParser.CoordinateAdvances` | stl.cpp:530-545 | an x or y coordinate is appended to `m_vectors` and the state moves to the next coordinate |
| `AsciiParser.EndsolidLookahead` | stl.cpp:389-399 | "endsolid" in `in_facet` is kept, validated again by `in_endsolid`, followed by one consumed token, and the loop ends with the buffers unchanged |
| `AsciiParser.EndsolidFinishes` | stl.cpp:482-492 | `in_endsolid` on "endsolid" reads one more token and leaves the loop |
| `AsciiParser.VertexPeek` | stl.cpp:547-552 | after a z coordinate the next token is peeked: "endloop" continues to `in_endfacet`, "vertex" starts a vertex, anything else is rejected |
| `AsciiParser.PeekStep` | stl.cpp:547-552 | the z pass appends the coordinate, reads a token, clears `m_read_tok` and picks `in_endloop` or `in_vertex` |
| `AsciiParser.PeekedChecked` | stl.cpp:445-470 | the kept token is validated by `in_endloop` or `in_vertex` |
| `AsciiParser.ShapePreserved` | stl.cpp:366-493 | every pass keeps the buffer-shape invariant of its state |
| `AsciiParser.KeywordShape` | stl.cpp:372-492 | keyword cases leave the buffers alone |
| `AsciiParser.FacetVertexShape` | stl.cpp:501-527 | read_facet_vertex adds one normal component |
| `AsciiParser.VertexShape` | stl.cpp:530-560 | read_vertex adds one coordinate |
| `AsciiParser.AcceptedShape` | stl.cpp:356-494 | an accepted file gives whole normals and whole vertices, with at least as many vertex coordinates as normal components; nothing fixes three vertices per facet |
| `AsciiParser.ParseAsciiShape` | stl.cpp:350-497 | the same, for read_ascii on a whole file |
| `BinaryCodec.ReadInto` | stl.cpp:587-590 | istream::read: a full read takes the next bytes; a short read keeps the target's old bytes past the end and sets end of file |
| `BinaryCodec.Colour` | stl.cpp:640-647 | a record adds three colour values or none |
| `BinaryCodec.Colours` | stl.cpp:600-648 | the colours of the records are whole triples, at most one per record |
| `BinaryCodec.DecodeBinary` | stl.cpp:576-648 | a file is accepted iff it has at least 84 bytes and passes the wrapping size check; the header and count are its first 84 bytes, followed by `count` records |
| `BinaryCodec.AttributeAt` | stl.cpp:167-181 | a colour is packed (valid bit set) only while `rgb_index + 2 < size`; otherwise the word is 0 |
| `BinaryCodec.RecordBytes` | stl.h:13 | a record is 50 bytes: twelve 4-byte floats and a 2-byte word |
| `BinaryCodec.EncodeBinary` | stl.cpp:134-183 | the file is 84 + 50·count bytes, starting with the header and the count |
| `BinaryCodec.FloatBytesAppend` | stl.cpp:152-165 | writing floats one after another gives their bytes in order |
| `BinaryCodec.RecordsStep` | stl.cpp:144-183 | one pass of the writer's loop appends triangle t's record |
| `BinaryCodec.ReadWrittenFloats` | stl.cpp:605-607 | floats read over the bytes written for them come back unchanged |
| `BinaryCodec.ReadWrittenRecord` | stl.cpp:602-630 | a record read over the bytes written for it comes back unchanged, and the stream moves 50 bytes |
| `BinaryCodec.RecordLayout` | stl.cpp:152-182 | within a record the normal, the three vertices and the word sit at offsets 0, 12, 24, 36 and 48 |
| `BinaryCodec.ReadWrittenRecords` | stl.cpp:600-626 | k records read over the bytes written for k records come back in order |
| `BinaryCodec.NormalsOfWritten` | stl.cpp:609-624 | the normals and vectors of the records read back are exactly those written |
| `BinaryCodec.ColoursOfWritten` | stl.cpp:640-647 | the colours read back are those the reader finds in the written attribute words |
| `BinaryCodec.BinaryRoundTrip` | stl.cpp:134-183 | a written file decodes iff 50·count < 2^32; it then has the same header, count, normals and vectors, and the colours decoded from the written words |
| `BinaryCodec.EncodedDecodes` | stl.cpp:593-626 | below the wrap-around, the written file decodes to exactly the written records |
| `BinaryCodec.RgbIndexAfter` | stl.cpp:168-172 | after t records `rgb_index` is 3·min(t, size/3) |
| `BinaryCodec.WrittenColourChannels` | stl.cpp:168-172 | record t carries a colour iff t < size/3, from rgb[3t+1..3t+3]; the past-the-end read happens exactly when size is a multiple of 3, on the last colour |
| `BinaryCodec.ReadFloatsAtEnd` | stl.cpp:605-607 | reads at end of file leave the variables unchanged |
| `BinaryCodec.ReadRecordAtEnd` | stl.cpp:602-630 | a record read at end of file is all zero |
| `BinaryCodec.RecordsAtEnd` | stl.cpp:600-630 | k records read at end of file are k zero records |
| `BinaryCodec.BlankColours` | stl.cpp:638-647 | zero records add no colour |
| `BinaryCodec.HeaderOnlyFile` | stl.cpp:593-598 | a file of a header and a count alone passes the size check and reads as `count` zero triangles without colour |
| `BinaryCodec.WrappedCountRefused` | stl.cpp:593 | with a count of 85899346 the 32-bit product wraps to 4, and every file longer than 88 bytes is refused |
| `AsciiWriter.Decimal` | stl.cpp:229-232 | an unsigned number prints as a non-empty run of decimal digits |
| `AsciiWriter.DecimalRoundTrip` | stl.cpp:229-232 | the printed digits denote the number printed |
| `AsciiWriter.RenderAppend` | stl.cpp:238-268 | the bytes of lines written one after the other are the concatenation of their bytes |
| `AsciiWriter.FacetLines` | stl.cpp:243-266 | each triangle writes seven lines |
| `AsciiWriter.FacetsBetween` | stl.cpp:239-267 | triangles j to k-1 write 7·(k-j) lines |
| `AsciiWriter.FacetsExtend` | stl.cpp:239-267 | one more pass of the loop appends that triangle's lines |
| `AsciiRoundTrip.ReadUnit` | stl.cpp:298-321 | get_next_token on a written word returns the word and stops after its separator |
| `AsciiRoundTrip.WalkRuns` | stl.cpp:356-494 | following the written words state by state is what read_ascii does |
| `AsciiRoundTrip.TriangleWalk` | stl.cpp:241-266 | the parser reads one written triangle from `in_facet` back to `in_facet`, appending its printed normal and vertices |
| `AsciiRoundTrip.FacetsWalk` | stl.cpp:239-267 | the parser reads triangles j to k-1, appending their values in order |
| `AsciiRoundTrip.SolidBytes` | stl.cpp:238-268 | a consistent solid is the "solid" line, the triangles' lines, then the "endsolid" line |
| `AsciiRoundTrip.SolidHeader` | stl.cpp:372-387 | the first pass reads "solid" and the name line and waits in `in_facet` |
| `AsciiRoundTrip.SolidTail` | stl.cpp:389-399 | "endsolid" followed by the name ends the loop with the buffers as they were |
| `AsciiRoundTrip.SolidBody` | stl.cpp:389-480 | from `in_facet` the triangles and the "endsolid" line are accepted, with the echoed values |
| `AsciiRoundTrip.AsciiRoundTrip` | stl.cpp:214-271 | read_ascii accepts what create_stl_ascii wrote for a consistent object, and the buffers hold every triple as printed (x, x, z) and read back by strtof |
| `AsciiRoundTrip.InvalidDataRejected` | stl.cpp:226-236 | the writer's "Invalid stl data" line is rejected where "solid" is expected |
| `AsciiRoundTrip.EchoValues` | stl.cpp:246-263 | each value read back is strtof∘print of the x or the z of its triple; the y is x again |
| `AsciiRoundTrip.EchoAppend` | stl.cpp:239-267 | echoes of adjacent ranges of triangles concatenate |
| `AsciiRoundTrip.EchoExact` | stl.cpp:246-263 | with an exact printer the values read back equal those written iff every triple has y = x |
| `StlReader.ReadStl` | stl.cpp:27-95 | read_stl never returns iff the file opens, has at least 6 bytes and its probing reaches the end before seekg; otherwise it returns 0 iff the file opens with at least 6 bytes, and -1 with the object cleared |
| `StlReader.ProbeEndIsAscii` | stl.cpp:56-70 | probing can reach the end before the rewind only on the way to read_ascii; the binary branches reopen the file |
| `StlReader.FacetAtEndHangs` | stl.cpp:64-70 | on `solid a\nfacet` (`FACET_AT_END`) the token "facet" ends the file, the ASCII branch is taken, and read_stl does not return |
| `StlReader.SolidLineRead` | stl.cpp:42-56 | on a written file the first token is "solid" and read_line returns the name |
| `StlReader.FacetsOpenWithFacet` | stl.cpp:246 | the lines of a non-empty mesh begin with the word "facet" |
| `StlReader.TokenAfterSolidLine` | stl.cpp:238-268 | after the "solid" line of a written file comes "facet", or "endsolid" when there is no triangle |
| `StlReader.AsciiFileRead` | stl.cpp:27-95 | a written ASCII file with triangles is detected as ASCII and read back with the echoed values, a zero header, no colour, and the count passed through int16 |
| `StlReader.EmptySolidTakenForBinary` | stl.cpp:65-81 | a written empty mesh is taken for binary; with a name of at most 33 bytes it is too short for read_binary, and read_stl still returns 0 with the object cleared |
| `StlReader.EmptySolidLength` | stl.cpp:238-268 | an empty mesh named n is written as 17 + 2·\|n\| bytes |
| `StlReader.FacetNamedSolidRejected` | stl.cpp:380-404 | a solid whose name starts with "facet" is detected as ASCII, then rejected in `in_facet`; read_stl returns 0 with the object cleared |
| `StlReader.FacetNameRejected` | stl.cpp:389-404 | a name line starting with "facet" taken as the facet keyword is rejected unless it is exactly "facet" and "normal" follows |
| `StlReader.BinaryFileRead` | stl.cpp:41-52 | a written binary file whose header starts with neither a delimiter nor 's', and whose size fits the check, reads back through read_stl with the same header, count, normals and vectors |
| `StlReader.FirstTokenOpensWith` | stl.cpp:298-321 | a file starting with a non-delimiter has a first token starting with that byte |
| `StlFile.Get` | stl.cpp:281-282 | istream::get returns the next byte, or sets end of file when none is left |
| `StlFile.WordCut` | stl.cpp:303-318 | get_next_token's loop ends with the tokenizer's token, when the buffer is full or a delimiter or the end is met |
| `StlFile.NoWord` | stl.cpp:303-316 | input that ends before a word gives "" |
| `StlFile.LineCut` | stl.cpp:279-291 | read_line's loop ends with the line, when the buffer is full or a newline or the end is met |
| `StlFile.NoLine` | stl.cpp:279-289 | input that ends before a line starts gives "" |
| `StlFile.TerminatedText` | stl.cpp:319 | the NUL after the token makes the buffer's C string the token |
| `StlFile.TerminatedLine` | stl.cpp:292 | the buffer's C string is the line's C string, cut at a NUL inside the line |
| `StlFile.RecordByLoops` | stl.cpp:600-630 | the normal, the vertex loop reading into the same x, y, z, then the word, read one record |
| `StlFile.RecordsExtend` | stl.cpp:600-648 | one more record appends its normal, vertices and colour |
| `StlFile.ReadFloatsStep` | stl.cpp:605-607 | reading floats one at a time |
| `StlFile.ReadVerticesStep` | stl.cpp:614-625 | the vertex loop reads one triple, then the rest |
| `StlFile.StaleTokenIgnored` | stl.cpp:358-360 | a pass that fetches a token does not look at the stale one, so read_ascii after read_stl's probing starts clean |
| `StlFile.BinaryIntoCleared` | stl.cpp:45-51 | read_binary on the cleared object stores exactly the decoded file |
| `StlFile.Stl.constructor` | stl.cpp:16-22 | a new object is in cleanup's state with an empty token |
| `StlFile.Stl.Cleanup` | stl.cpp:730-749 | both files closed, the buffers empty, the header zero, count and size 0, `m_read_tok` set, state `in_solid` |
| `StlFile.Stl.GetNextToken` | stl.cpp:298-321 | the buffer's C string is the tokenizer's token, and the stream is where the tokenizer leaves it |
| `StlFile.Stl.ScanWord` | stl.cpp:303-318 | the loop stores exactly the token's bytes at the front of the buffer |
| `StlFile.Stl.ReadLine` | stl.cpp:274-294 | the buffer's C string is that of the line read_line reads |
| `StlFile.Stl.ScanLine` | stl.cpp:279-291 | the loop stores exactly the line's bytes at the front of the buffer |
| `StlFile.Stl.ValidateState` | stl.cpp:327-336 | true iff the token equals the literal; otherwise the state becomes `error` |
| `StlFile.Stl.ExpectKeyword` | stl.cpp:408-416 | a keyword case performs the parser's `Expect` step |
| `StlFile.Stl.ReadFacetVertex` | stl.cpp:501-527 | the object changes as the parser's `FacetVertex` step says |
| `StlFile.Stl.ReadVertex` | stl.cpp:530-560 | the object changes as the parser's `Vertex` step says, including the peeked token |
| `StlFile.Stl.Pass` | stl.cpp:356-493 | one pass of the loop does what `Iteration` says: go round, fail with cleanup's state, or finish |
| `StlFile.Stl.Switch` | stl.cpp:366-493 | the switch does what `Dispatch` says |
| `StlFile.Stl.Step` | stl.cpp:408-480 | the value and keyword cases do what `Dispatch` says |
| `StlFile.Stl.SolidCase` | stl.cpp:372-387 | `in_solid` validates "solid", reads the line, and keeps it when it starts with "facet" |
| `StlFile.Stl.FacetCase` | stl.cpp:389-406 | `in_facet` keeps "endsolid" or validates "facet" |
| `StlFile.Stl.EndsolidCase` | stl.cpp:482-492 | `in_endsolid` validates, reads one token and ends the loop |
| `StlFile.Stl.ReadAscii` | stl.cpp:350-497 | the object ends as `RunAscii` says: -1 and cleanup's state, or 0 with the parsed buffers and the count cast through int16 |
| `StlFile.Stl.ReadXyz` | stl.cpp:605-607 | three reads into x, y, z |
| `StlFile.Stl.ReadVertexLoop` | stl.cpp:614-625 | the vertex loop appends the three vertices read |
| `StlFile.Stl.ReadTriangle` | stl.cpp:600-647 | one record's normal, vertices and colour are appended |
| `StlFile.Stl.ReadTriangles` | stl.cpp:600-648 | `m_num_triangles` records are appended in order |
| `StlFile.Stl.NextTriangle` | stl.cpp:600-648 | one more pass of the record loop |
| `StlFile.Stl.ReadHeader` | stl.cpp:586-590 | the header and the count are read from the first 84 bytes |
| `StlFile.Stl.ReadBinary` | stl.cpp:576-658 | the object ends as the decoder says (appended records, or cleanup's state and -1), with the input closed |
| `StlFile.Stl.CheckAndLoad` | stl.cpp:592-651 | the size check, then the records |
| `StlFile.Stl.LoadRecords` | stl.cpp:600-651 | the decoded records are appended and the input closed |
| `StlFile.Stl.OpenRead` | stl.cpp:673-695 | success iff the file opens with at least 6 bytes; `m_size` is its length |
| `StlFile.Stl.SeekStart` | stl.cpp:58-70 | seekg(0) on a stream that has not run into the end of the file moves it to the first byte |
| `StlFile.Stl.Reopen` | stl.cpp:74-78 | open_binary on the same file starts a fresh stream at its first byte |
| `StlFile.Stl.ReadStl` | stl.cpp:27-95 | on a file for which read_stl returns, the result and final state are those of the functional `ReadStl`, and the input and the output file are closed |
| `StlFile.Stl.Probe` | stl.cpp:41-67 | the format tests pick ASCII exactly when `Detect` does, and on a file for which read_stl returns an ASCII verdict leaves the stream short of end of file |
| `StlFile.Stl.ReadOpened` | stl.cpp:41-87 | on an opened file of at least 6 bytes, the object ends as the functional `ReadStl` says, with input and output file closed |
| `StlFile.Stl.ReadAsciiFile` | stl.cpp:58-62 | the ASCII branch leaves what read_ascii computes on the whole file; the output file stays open only when the parse is accepted (cleanup closes it otherwise) |
| `StlFile.Stl.ReadBinaryFile` | stl.cpp:45-51 | the binary branch leaves what read_binary computes on the whole file; the output file stays open only when the decode succeeds (cleanup closes it otherwise) |
| `StlFile.Stl.OpenWrite` | stl.cpp:710-725 | a file that opens is truncated and open |
| `StlFile.Stl.CreateStlBinary` | stl.cpp:113-197 | -1 iff the file cannot be opened or the sizes disagree (then cleanup's state); otherwise the file holds exactly `EncodeBinary` of the object, which is unchanged |
| `StlFile.Stl.WriteBinary` | stl.cpp:134-183 | header, count, then the records are appended |
| `StlFile.Stl.WriteRecords` | stl.cpp:144-183 | the loop appends all records with their attribute words |
| `StlFile.Stl.WriteTriangle` | stl.cpp:146-182 | one record is appended, and `rgb_index` advances by 3 only when a colour is packed |
| `StlFile.Stl.WriteTriple` | stl.cpp:152-154 | three floats appended as 12 bytes |
| `StlFile.Stl.CreateStlAscii` | stl.cpp:214-271 | -1 iff the file cannot be opened or the sizes disagree; the file holds the solid's lines, or the invalid-data line before cleanup |
| `StlFile.Stl.WriteAscii` | stl.cpp:238-268 | the "solid" line, the facets, and the "endsolid" line are appended |
| `StlFile.Stl.WriteFacets` | stl.cpp:239-267 | the loop appends each triangle's lines in order |
| `StlFile.Stl.WriteFacet` | stl.cpp:241-266 | one triangle's seven lines, each triple printed x, x, z |
| `StlFile.Stl.WriteVertexLine` | stl.cpp:250-253 | a vertex line printed x, x, z, with the index moved by 3 |
| `StlFile.Stl.WriteLine` | stl.cpp:238 | one line appended to the output |

## Left out

- Console output (`std::cout`) is not modelled: every message in read_stl, read_binary, validate_state, the readers, the writers and the open routines.
- File-system access is not modelled. The file read is given to `ReadStl` as its contents, or None when it cannot be opened. The writers take `canOpen` instead of opening a path. The output file is the `output` member.
- Re-opening in binary mode cannot fail in the model, since it is the same file. The -1 paths at stl.cpp:45-49 and 74-78 are therefore not reachable.
- `StlFile.Stl.SeekStart`: requires a stream that has not run into the end of the file. After end of file, seekg clears eofbit, keeps failbit and does not move. The stream model has no failbit, so that state is not represented.
- `StlFile.Stl.ReadStl`: requires a file on which read_stl returns (`StlReader.ReadStl` is not `Hangs`). On the other files, those whose probing reaches the end before seekg, the source loops forever, and a Dafny method must terminate. `StlReader.ReadStl` states exactly which files these are.
- `StlReader.ReadStl`: the non-returning files get the outcome `Hangs`. The model does not describe the object's state while the loop spins.
- The tokenizer treats `char` as signed, as on x86: bytes 128-255 are below 1 and so are delimiters. On targets with an unsigned `char` (AArch64 or PowerPC Linux) they are word bytes, which changes, for example, the first token of a binary header that begins `solid` followed by a byte above 127.
- The triangle count and the attribute word are read and written in the host's byte order (stl.cpp:137, 182, 590, 630). The model fixes little-endian, as on x86 and ARM; on a big-endian host both would be byte-swapped relative to the model.
- tellg and the trailing-data message of read_binary (stl.cpp:650-656) are console output only.
- Floating point is not modelled. `strtof`, `n / 15.0f`, `round(c * 128.0f)` and `operator<<` on floats are parameters (`FloatOps`, `fmt`). Floats are opaque 4-byte words.
- The float value that create_stl_binary reads one element past the end of `m_rgb_color` is undefined behaviour in C++. It is the parameter `pastEnd`.
- `calc_normals` is declared but not defined in the repository.
- main.cpp is not part of this model: it is demo glue.
- The destructor only calls cleanup and is not modelled.
- Write failures of `ofstream` are not modelled.
- stl.cpp:265 does not compile as written. It is modelled as the evident `m_stl_output_file << " endloop\n"`.
- `StlFile.Stl.ReadStl` states the object's state (`Snapshot`) and the result. It leaves the token buffer's contents unstated.
- `StlFile.Stl.ReadLine` states the buffer's C string, not the bytes read_line stores after a NUL inside the line.
- `StlFile.Stl.CreateStlAscii` requires a name without NUL bytes. The source takes a C string, so it cannot hold one.
- `AsciiRoundTrip.AsciiRoundTrip` holds for a float printer that writes each value as one word of 1 to 1022 non-blank bytes (`Printable`). It also needs a name that read_line returns whole and that does not start with "facet" (`NameRoundTrips`). Names starting with "facet" are covered by `StlReader.FacetNamedSolidRejected`.
- `StlReader.AsciiFileRead` covers meshes with at least one triangle. The empty mesh is `StlReader.EmptySolidTakenForBinary`.
- `StlReader.EmptySolidTakenForBinary` states the read_stl result only for names of at most 33 bytes. Longer names give files that read_binary may accept as a header and a count.
- `StlReader.BinaryFileRead` covers headers whose first byte is not a delimiter and not 's'. Other headers depend on the header's first token.
