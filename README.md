# rust-http in Dafny

A model of the message core of `rust-http`, a small HTTP/1.1 library and server, with proofs about it.

The model covers the following:

- **Message vocabulary.** Methods, versions, status lines and request lines, with their parsers and writers.
- **Header map.** Field names are folded to lower case. The map offers `add`, `set`, `remove` and `get`, and parses and writes field lines.
- **Body framing.** Framing by `Content-Length` or by the `chunked` transfer coding. The `BodyParser` decodes incrementally.
- **Readers.** The reader that delivers the peer's bytes in pieces, the test `BatchReader`, and the line-oriented `StreamReader`.
- **Request parsing.** The incremental `RequestParser` with its `request_from_reader` loop, and the `Connection` that reads requests and writes responses.
- **Responses and builders.** `Response` and the two builders.
- **Server loop.** The connection loop of the server, with its keep-alive decision.

Bytes are `char`s below 256. A field map is a `map` from folded names to values. Objects whose fields the source updates in place are classes: the readers, `Headers`, `BodyParser`, `RequestParser`, `Response`, `ResponseBuilder` and `Connection`. Values are datatypes: requests, request lines, status lines and the request builder.

Each reader loop is proved against a reference function on the whole byte stream:

| loop | reference function |
|---|---|
| `read_line` | the first CRLF of what is pending |
| the field loop | `ParseBlock` |
| the body loop | `BodyFrom` |
| `read` | `RequestFrom` |
| `request_from_reader` | `ParseFrom` of every byte delivered |

As a result, with the chunk-data step of the first finding below corrected, what a read gives does not depend on how the reader splits the stream into pieces. As written, a split that leaves the chunk's remaining bytes plus one in view, with a CRLF among them, takes one byte too many (`Body.AsWrittenDiffersOnlyAtOverrun`).

Framing follows section 6.3 of RFC 9112 and the chunked coding follows section 7.1 of RFC 9112. Field syntax follows section 5 of RFC 9110.

## Model

| member | source | states |
|---|---|---|
| HttpMethod.ToStr | src/message/method.rs:30-41 | each method's wire token is a non-empty run of upper-case letters |
| HttpMethod.Parse | src/message/method.rs:16-28 | a parsed method prints back as exactly the bytes parsed; any other bytes (case-sensitive) are `InvalidMethod` and match no method's token |
| HttpMethod.ParseToStr | src/message/method.rs:16-41 | every method parses back from its own token |
| HttpMethod.ToBytes | src/message/method.rs:43-54 | `to_bytes` is the capitalised name (first letter of the token, rest lower-case), which `parse` refuses |
| Version.FromBytes | src/message/version.rs:9-15 | exactly "1.0" and "1.1" parse; everything else is `InvalidHTTPVersion` |
| Version.Default | src/message/version.rs:18-22 | the default version is (1, 1) |
| Version.Display | src/message/version.rs:42-53 | the display is empty exactly for pairs other than (1, 0) and (1, 1) |
| Version.DisplayFromBytes | src/message/version.rs:9-53 | displaying a parsed version gives back the bytes parsed |
| Version.FromBytesDisplay | src/message/version.rs:9-53 | a version with a non-empty display parses back from it |
| Version.FromTuple | src/message/version.rs:36-40 | the version built from a pair compares equal to that pair |
| Version.EqTupleMeaning | src/message/version.rs:24-40 | both `PartialEq` directions agree, and hold exactly for the version built from the pair |
| Status.ToBytes | src/message/status_line.rs:12-22 | the code is three decimal digits whose value is the code's number |
| Status.ToBytesInjective | src/message/status_line.rs:12-22 | distinct codes print distinct digits |
| Status.ToReason | src/message/status_line.rs:23-32 | every reason phrase is non-empty and holds no CR |
| Status.ToReasonInjective | src/message/status_line.rs:23-32 | distinct codes have distinct reason phrases |
| Status.New | src/message/status_line.rs:41-47 | a new status line is version "1.1" with the given code |
| Status.WriteTo | src/message/status_line.rs:57-66 | the written line starts with "HTTP/" and ends with CRLF |
| Status.LineReadsBack | src/message/status_line.rs:57-66 | "HTTP/", a version without spaces, a space, three digits, a space and a reason read back as that version, the digits' value and that reason |
| Status.WriteToReadsBack | src/message/status_line.rs:57-66 | for every code and every version without spaces, the written line without its CRLF reads back as the version, the code's number and the code's reason phrase |
| Status.CodeInjective | src/message/status_line.rs:12-22 | distinct codes have distinct numbers |
| Status.WriteToInjective | src/message/status_line.rs:57-66 | two status lines with versions without spaces that write the same bytes are the same line |
| Status.WriteToIsOneLine | src/message/status_line.rs:57-66 | for a version without CRLF, the only CRLF of the written line is its last two bytes |
| Status.WriteToOk | src/message/status_line.rs:74-81 | the status-line test: 200 writes "HTTP/1.1 200 Ok\r\n" |
| Status.WriteToInternalError | src/server/mod.rs:59-63 | the fallback response's line is "HTTP/1.1 500 Internal Server Error\r\n" |
| Reader.ChunkReader.constructor | src/message/stream_reader.rs:44 | a source set up with non-empty pieces delivers those pieces |
| Reader.ChunkReader.Read | src/message/stream_reader.rs:44 | a read copies the front of the next piece into the buffer, as much as fits; the bytes delivered followed by the bytes left are what was left before; 0 only at the end or with no room |
| BatchReading.BatchReader.constructor | src/message/test_utils.rs:12-18 | a new batch reader has delivered nothing |
| BatchReading.BatchReader.Read | src/message/test_utils.rs:22-39 | 0 at the end of the source, otherwise min(batch size, room, bytes left) bytes of the source copied to the front of the buffer, the rest of the buffer unchanged |
| BatchReading.BatchReader.ReadToEnd | src/message/test_utils.rs:22-39 | reading until 0 collects exactly the undelivered rest of the source |
| BatchReading.EvenBatchesExample | src/message/test_utils.rs:46-64 | batches of 3 into a 3-byte buffer give "aaa", "bbb", "ccc" |
| BatchReading.SmallBufferExample | src/message/test_utils.rs:66-89 | batches of 3 into a 2-byte buffer give "aa", "ab", "bb", then one byte as `[c, 0]` |
| Stream.StreamReader.constructor | src/message/stream_reader.rs:18-24 | a new stream reader holds nothing buffered; what is pending is what the source will deliver |
| Stream.StreamReader.Drop | src/message/stream_reader.rs:33-35 | `copy_within(index.., 0)` and `read -= index` drop exactly the first `index` pending bytes |
| Stream.StreamReader.Fill | src/message/connection.rs:58 | the read that `parse_body` makes when the decoder needs more bytes (its assumed form is under "Helpers outside the model"): a read into the free part of the buffer loses and reorders nothing; 0 only when the source is exhausted or the buffer is full |
| Stream.StreamReader.Scan | src/message/stream_reader.rs:30-42 | the scan appends buffered bytes to the line until an LF follows a CR, carrying the last-was-CR flag across buffers |
| Stream.StreamReader.TakeLine | src/message/stream_reader.rs:31-36 | on a hit the line is the stream up to its first CRLF, without the CR, and the pending bytes are what follows the LF |
| Stream.StreamReader.Refill | src/message/stream_reader.rs:44-48 | the refill replaces the scanned buffer with the reader's next bytes, or reports 0 at the end |
| Stream.StreamReader.Advance | src/message/stream_reader.rs:29-49 | one pass of the loop either ends the call at the first CRLF of the stream, ends it with EOF when there is none, or refills with strictly fewer bytes left in the source |
| Stream.StreamReader.ReadLine | src/message/stream_reader.rs:26-50 | `read_line` gives the pending bytes before their first CRLF and leaves what follows the LF pending; with no CRLF in what is pending, EOF with the source exhausted |
| Stream.NoLine | src/message/stream_reader.rs:44-47 | a stream that is all scanned bytes without a CRLF holds no line |
| Stream.LineFound | src/message/stream_reader.rs:31-36 | a CR ending the scanned bytes and an LF opening the rest are the stream's first CRLF |
| Stream.StreamReader.RefillAfter | src/message/stream_reader.rs:44-48 | with no CRLF in the scanned bytes, a refill either ends the line with EOF, the stream then holding no CRLF, or brings strictly fewer bytes left to come with nothing lost |
| Stream.SplitTerminatorExample | src/message/stream_reader.rs:28-41 | a CR at the end of one read and the LF at the start of the next still end the line "ab" |
| RequestLine.VersionPart | src/message/request_line.rs:44-49 | a third part that `from_line` accepts is "HTTP/" followed by the display of the version it names |
| RequestLine.FromLine | src/message/request_line.rs:36-56 | not exactly three space-separated parts is `MalformedRequestLine`; an unknown first part is `InvalidMethod`; an accepted line splits into the method's token, the target and the version token |
| RequestLine.WriteTo | src/message/request_line.rs:22-35 | `write_to` is the method, the target and "HTTP/" with the version, separated by single spaces and ended by CRLF |
| RequestLine.VersionTokenSplit | src/message/request_line.rs:27-30 | a written version token splits on '/' into "HTTP" and the version number |
| RequestLine.LineSplit | src/message/request_line.rs:22-38 | a written line whose target has no space splits into exactly its three fields |
| RequestLine.FromLineWriteTo | src/message/request_line.rs:22-56 | a written request line, without its CRLF, parses back to the same line (target without spaces, supported version) |
| RequestLine.WriteToIsOneLine | src/message/request_line.rs:22-35 | a written line whose target has no CRLF has its only CRLF at the end |
| RequestLine.ParseLine | src/message/request.rs:75-83 | `RequestLine::parse`: no CRLF yet is `None`; otherwise `from_line` of the bytes before the first CRLF, with the CRLF counted in the size |
| RequestLine.FromParts | src/message/request_line.rs:58-64 | `from_parts` keeps the method, target and version given |
| RequestLine.Default | src/message/request_line.rs:66-74 | the default line is GET, an empty target, HTTP/1.1 |
| RequestLine.LineGet | src/message/request_line.rs:22-35 | GET of "/" over HTTP/1.1 is written as "GET / HTTP/1.1" |
| RequestLine.LinePost | src/message/request_line.rs:22-35 | POST of "/test" over HTTP/1.1 is written as "POST /test HTTP/1.1" |
| RequestLine.FromLineGet | src/message/request_line.rs:82-88 | the request-line test: "GET / HTTP/1.1" parses to GET, "/", (1, 1) |
| RequestLine.FromLinePost | src/message/request_line.rs:90-95 | the request-line test: "POST /test HTTP/1.1" parses to POST, "/test", (1, 1) |
| RequestLine.BadProtocolSplit | src/message/request_line.rs:102-105 | "POST /test HTP/1.1" has three parts and a known method, but its third part does not start with "HTTP" |
| RequestLine.FromLineDoubleSpace | src/message/request_line.rs:97-100 | the request-line test: a double space gives four parts and is refused |
| RequestLine.FromLineBadProtocol | src/message/request_line.rs:102-105 | the request-line test: "HTP" in place of "HTTP" is refused |
| Bytes.FindCrlf | src/message/headers.rs:95 | the index found holds a CRLF with none before it; `None` means the bytes hold no CRLF |
| Bytes.FindCrlfIs | src/message/headers.rs:95 | a CRLF with none before it is the one found |
| Bytes.FindCrlfExtend | src/message/headers.rs:95-98 | a line found stays found, at the same place, however many bytes arrive after it |
| Bytes.Split | src/message/request_line.rs:37 | `split` on one byte gives at least one part, parts without the separator, which joined with it give the input back |
| Bytes.SplitJoin | src/message/request_line.rs:37 | splitting parts joined by a separator they do not hold gives the parts back |
| Bytes.SplitOnce | src/message/headers.rs:104-110 | `splitn(2, ..)` gives two parts exactly when the separator occurs: the bytes before its first occurrence and the bytes after it |
| Bytes.SplitOnceIs | src/message/headers.rs:104-106 | a prefix without the separator, then the separator, is where `splitn(2, ..)` cuts |
| Bytes.TrimStrips | src/message/headers.rs:113 | trimming keeps a slice whose end bytes are not whitespace, and drops only whitespace on either side |
| Bytes.TrimUnchanged | src/message/headers.rs:113 | a value whose end bytes are not whitespace is left as it is by trimming |
| Bytes.TrimAfterBlank | src/message/headers.rs:113 | the value after "name:" and one space is recovered by trimming when its ends are not blank |
| Bytes.ParseUsize | src/message/request.rs:43 | `parse::<usize>` / `from_str_radix` accepts an optional '+' and at least one digit, and only values that fit a 64-bit `usize` |
| Bytes.NatToDecimal | src/message/response.rs:35-37 | `to_string` of a length is a non-empty run of decimal digits with no leading zero |
| Bytes.DecimalRoundTrip | src/message/response.rs:35-37 | a printed length parses back to itself |
| Bytes.NatToHex | src/message/body.rs:120 | a chunk size printed in hexadecimal is a non-empty run of hex digits |
| Bytes.HexRoundTrip | src/message/body.rs:120 | a chunk size printed in hexadecimal parses back to itself |
| Bytes.ToLower | src/message/headers.rs:58 | `to_lowercase` keeps the length and folds each upper-case ASCII letter, leaving every other byte |
| Bytes.ToLowerIdempotent | src/message/headers.rs:58-87 | folded names hold no upper-case letter, so folding twice is folding once |
| Bytes.ToLowerOfLower | src/message/headers.rs:58-87 | a name without upper-case letters is its own folding |
| Bytes.LexIrreflexive | src/message/headers.rs:130-131 | the byte order `sort` uses is irreflexive |
| Bytes.LexTransitive | src/message/headers.rs:130-131 | the byte order `sort` uses is transitive |
| Bytes.LexTotal | src/message/headers.rs:130-131 | the byte order `sort` uses is total on distinct names |
| HeaderMap.TcharIsTokenSet | src/message/headers.rs:11-32 | a token byte is exactly a letter, a digit or one of the fifteen listed symbols |
| HeaderMap.TokenHasNoDelimiters | src/message/headers.rs:11-32 | a valid token holds no colon, blank, CR or LF, and stays a token when folded |
| HeaderMap.FieldValueHasNoLineBreak | src/message/headers.rs:34-41 | a valid field value holds neither CR nor LF |
| HeaderMap.GetIgnoresCase | src/message/headers.rs:86-88 | `get` finds the same value under a name and under its folded form |
| HeaderMap.GetAfterAdd | src/message/headers.rs:53-66 | after `add` the name holds "old,new" when it was present and the value otherwise; every other name is unchanged |
| HeaderMap.GetAfterSet | src/message/headers.rs:68-76 | after `set` the name holds exactly the new value; every other name is unchanged |
| HeaderMap.GetAfterRemove | src/message/headers.rs:78-84 | after `remove` the name is absent; every other name is unchanged |
| HeaderMap.SetIdempotent | src/message/headers.rs:68-76 | setting the same value twice is setting it once |
| HeaderMap.OperationsKeepKeysFolded | src/message/headers.rs:53-84 | `add`, `set` and `remove` keep every stored key folded to lower case |
| HeaderMap.ParseFieldLine | src/message/headers.rs:94-123 | `parse` needs more input exactly when the bytes hold no CRLF; otherwise the result is that of the line before the first CRLF |
| HeaderMap.FieldOf | src/message/headers.rs:99-122 | an empty line is the end of the fields; an accepted line has a token name ending at the first colon, a valid trimmed value, and a size of its length plus 2; anything else is `MalformedHeader` |
| HeaderMap.ParseWrittenField | src/message/headers.rs:94-135 | a field line as `write_to` writes it parses back to its name and value with its full length, whatever follows |
| HeaderMap.FieldOfWritten | src/message/headers.rs:104-122 | "name: value" without its CRLF reads back as that field |
| HeaderMap.FieldOfSplit | src/message/headers.rs:104-122 | a line that splits at its first colon into a token and a raw value trimming to a field value is accepted as that field |
| HeaderMap.ParseRejectsNoColon | src/message/headers.rs:104-110 | a complete non-empty line with no colon is `MalformedHeader` |
| HeaderMap.ParseRejectsBadName | src/message/headers.rs:112-116 | a complete line whose bytes before the first colon are not a token is `MalformedHeader` |
| HeaderMap.LeastExists | src/message/headers.rs:130-131 | a non-empty key set has a least key in byte order |
| HeaderMap.LeastUnique | src/message/headers.rs:130-131 | the least key is unique |
| HeaderMap.LeastKey | src/message/headers.rs:130-131 | the key chosen first is the least one |
| HeaderMap.SortedKeys | src/message/headers.rs:130-131 | `keys.sort()` gives every key exactly once in strictly ascending byte order |
| HeaderMap.HeadIsLeast | src/message/headers.rs:130-131 | the head of an ascending sequence is its least element |
| HeaderMap.SortedUnique | src/message/headers.rs:130-131 | only one ascending sequence holds a given set of keys, so the sorted order is determined by the map |
| HeaderMap.LinesSnoc | src/message/headers.rs:133-136 | the lines written for the first i+1 keys are those for the first i, then the line of key i |
| HeaderMap.FieldBlockEnds | src/message/headers.rs:125-139 | the corrected block always ends with the empty line, and is that line alone for an empty map |
| HeaderMap.AsWrittenEmptyHasNoBlankLine | src/message/headers.rs:126-128 | as written, an empty map writes nothing, where the corrected block writes the empty line |
| HeaderMap.AsWrittenAgrees | src/message/headers.rs:125-139 | as written and corrected agree on every non-empty map |
| HeaderMap.ParseBlock | src/message/request.rs:85-101 | field lines parsed one after another until the empty line use at least 2 and at most all of the bytes |
| HeaderMap.ExtendWithKeys | src/message/headers.rs:53-66 | adding the keys of a map one by one gives those keys their values and leaves other keys alone |
| HeaderMap.ParseBlockBlank | src/message/headers.rs:99-101 | a block that starts with the empty line ends there with the map unchanged, using 2 bytes |
| HeaderMap.ParseBlockField | src/message/headers.rs:94-123 | a written field line is added to the map and reading goes on after it |
| HeaderMap.ParseLines | src/message/headers.rs:94-139 | the written lines of distinct sorted keys, then the empty line, read back into the map extended with those keys, using exactly those bytes |
| HeaderMap.ParseWrittenBlock | src/message/headers.rs:94-139 | reading back the corrected block of a writable map gives that map and uses exactly the block, whatever follows |
| HeaderMap.ExtendAll | src/message/headers.rs:130-136 | adding all sorted keys of a map to an empty one rebuilds the map |
| HeaderMap.ParseExampleIncomplete | src/message/headers.rs:155-158 | the header test: a line without its CRLF consumes nothing |
| HeaderMap.ParseExampleBlank | src/message/headers.rs:160-163 | the header test: the empty line consumes 2 bytes |
| HeaderMap.ParseExampleHost | src/message/headers.rs:165-170 | the header test: "Host: localhost:42069" with CRLF uses 23 bytes and is found under "Host" and "host" |
| HeaderMap.ParseExampleSpacedName | src/message/headers.rs:172-175 | the header test: a blank before the colon is refused |
| HeaderMap.ParseExampleControlByte | src/message/headers.rs:177-181 | the header test: a name starting with byte 0x01 is refused |
| HeaderMap.SingleKey | src/message/headers.rs:130-131 | one key sorts to itself |
| HeaderMap.TwoKeys | src/message/headers.rs:130-131 | "a" sorts before "c" |
| HeaderMap.WriteExampleOne | src/message/headers.rs:188-192 | the write test: "a: b" is written as that line and the empty line |
| HeaderMap.WriteExampleTwo | src/message/headers.rs:194-197 | the write test: adding "c: d" writes it after "a: b", then the empty line |
| HeaderMap.Headers.constructor | src/message/headers.rs:45-47 | `new` is an empty map, whose keys are trivially folded |
| HeaderMap.Headers.WithDefault | src/message/headers.rs:45-51 | `new_with_default` is the map holding only "connection: close", a folded key |
| HeaderMap.Headers.AddDefault | src/message/headers.rs:49-51 | `add_default` sets "connection" to "close"; every key stays folded |
| HeaderMap.Headers.Add | src/message/headers.rs:53-66 | `add` updates the map as `MapAdd` (comma-joined on a repeat) and returns what the folded name held before; every key stays folded |
| HeaderMap.Headers.Set | src/message/headers.rs:68-76 | `set` replaces the folded name's value; every key stays folded |
| HeaderMap.Headers.Remove | src/message/headers.rs:78-84 | `remove` unbinds the folded name; every key stays folded |
| HeaderMap.Headers.IsEmpty | src/message/headers.rs:90-92 | `is_empty` holds exactly for a map with no fields |
| HeaderMap.Headers.Parse | src/message/headers.rs:94-123 | `parse` returns 0 without a CRLF, 2 for the empty line, the line length with its field added, or `MalformedHeader` with the map unchanged; every key stays folded |
| HeaderMap.Headers.ParseOneFromLine | src/message/connection.rs:55 | a line already cut at its CRLF: an empty line adds nothing, a field line adds its field, a malformed one is an error with the map unchanged; every key stays folded |
| HeaderMap.Headers.WriteTo | src/message/headers.rs:125-139 | `write_to` writes one "name: value" line per key in ascending order, then the empty line, also for an empty map (the corrected block; see "Where the model differs") |
| Body.ContentLengthOfDecimal | src/message/body.rs:62-67 | a Content-Length that is a printed `usize` frames a body of exactly that length |
| Body.ContentLengthOfList | src/message/body.rs:69-80 | a comma-list whose items all trim to the same printed length frames a body of that length |
| Body.ContentLengthMismatch | src/message/body.rs:70-76 | a comma-list with two items that differ once trimmed is a mismatch |
| Body.BothFramingFieldsRefused | src/message/body.rs:52-54 | Transfer-Encoding and Content-Length together are refused with InvalidHeaderFields |
| Body.TransferEncodingChoice | src/message/body.rs:56-61 | Transfer-Encoding alone selects chunked if and only if its value is "chunked", and any other value is refused with InvalidHeaderFields |
| Body.ContentLengthChoice | src/message/body.rs:62-67 | Content-Length alone, holding a printed length, selects a fixed length equal to it |
| Body.ContentLengthListMismatch | src/message/body.rs:70-76 | a Content-Length list that names two lengths is refused with InvalidHeaderFields |
| Body.NoFramingNoBody | src/message/body.rs:81-83 | with neither framing field the body has length 0 |
| Body.FixedStepMeaning | src/message/body.rs:196-209 | a fixed-length step takes min(owed, available) bytes, appends exactly them, never passes the length and is done exactly when the length is reached |
| Body.AsWrittenOverrunsChunk | src/message/body.rs:144-163 | as written, a 3-byte chunk fed "A\r\n\r" takes all four bytes: the framing CR lands in the body and the count passes the chunk size |
| Body.CorrectedKeepsChunk | src/message/body.rs:144-171 | with the intended take, the same bytes give exactly the three data bytes and leave the CR |
| Body.AsWrittenDiffersOnlyAtOverrun | src/message/body.rs:146-163 | the code's chunk step and the corrected one agree on every input except one: `bytes` holding the chunk's remaining bytes plus one, with a CRLF among them; there the code takes that extra byte into the body and passes `size` |
| Body.ChunkStepSound | src/message/body.rs:100-175 | every successful step keeps `size_parsed <= size`, consumes at most the bytes given and appends to the body a prefix of what it consumed |
| Body.ChunkStepWaitsForCrlf | src/message/body.rs:106-110 | without a CRLF in view a step consumes nothing and changes nothing |
| Body.BadSizeRefused | src/message/body.rs:119-142 | a size line that is not hexadecimal is refused with MalformedChunkedSize |
| Body.LastChunkEnds | src/message/body.rs:121-137 | the size-0 line ends the body, sets Content-Length to the decoded length and removes Transfer-Encoding |
| Body.UnterminatedChunkRefused | src/message/body.rs:146-153 | chunk data not followed by CRLF, once enough bytes are in view, is refused with MalformedChunkedBody |
| Body.TerminatedChunkTaken | src/message/body.rs:146-171 | chunk data followed by CRLF is appended whole, its CRLF consumed, and the decoder returns to reading a size line |
| Body.DecodeAllContinues | src/message/body.rs:100-175 | a step that neither finishes nor stalls is followed by decoding the rest of the buffer |
| Body.LastChunkDecoded | src/message/body.rs:121-137 | the last chunk "0\r\n" finishes decoding after three bytes, whatever follows |
| Body.SizeLineDecoded | src/message/body.rs:118-124 | a size line printed in hexadecimal opens a chunk of that size |
| Body.ChunkDataDecoded | src/message/body.rs:144-171 | chunk data and its CRLF close the chunk, whatever follows |
| Body.StepThenRest | src/message/body.rs:100-175 | decoding after a step that moves on is decoding from before it |
| Body.SizeLineThenRest | src/message/body.rs:114-143 | decoding from a size line is decoding the chunk it opens |
| Body.ChunkDataThenRest | src/message/body.rs:144-171 | decoding from chunk data is decoding what follows its CRLF, the data appended |
| Body.OneChunkDecoded | src/message/body.rs:100-175 | a whole chunk with its size line is decoded and decoding goes on after it |
| Body.DecodeChunkedCoding | src/message/body.rs:100-175 | the chunked coding of non-empty chunks followed by the last chunk decodes to the chunks joined, with Content-Length set to their total length; exactly the coding is consumed |
| Body.NoChunksDecoded | src/message/body.rs:121-137 | the coding with no data chunks decodes to the body as it stands |
| Body.RepeatedLengthAgrees | src/message/body.rs:232-236 | "2,2,2" frames a body of length 2 |
| Body.ConflictingLengthsRefused | src/message/body.rs:238-243 | "2,1,1" is a mismatch |
| Body.PiecesDecoded | src/message/body.rs:284-304 | the four pieces of the chunked test decode one step each, the body growing to "A" and then "ABCD" |
| Body.PieceSizeLine | src/message/body.rs:114-124 | a one-digit size line alone opens a chunk of that size and consumes three bytes |
| Body.PieceData | src/message/body.rs:144-171 | chunk data with its CRLF alone is appended and the decoder returns to size lines |
| Body.BodyParser.constructor | src/message/body.rs:30-36 | no framing chosen, before the first size line, nothing parsed |
| Body.BodyParser.SetEncoding | src/message/body.rs:45-86 | a framing already chosen is kept; otherwise the framing the fields call for is chosen, or its error returned with nothing chosen |
| Body.BodyParser.ParseChunkedBody | src/message/body.rs:100-175 | the new decoder state, body and fields are those of one chunked step (with the corrected chunk-data step), and nothing changes on an error |
| Body.BodyParser.ParseBody | src/message/body.rs:183-213 | the framing is chosen (or its error returned); a fixed length takes a fixed-length step; chunked takes one chunked step |
| Body.ChunkedPiecesExample | src/message/body.rs:284-304 | the chunked test's four pieces give the body "ABCD" |
| Body.FixedLengthExample | src/message/body.rs:263-281 | a body of Content-Length 7 handed over whole is taken whole and is complete |
| Connections.FixedFrom | src/message/body.rs:196-209 | a body of `owed` bytes is complete exactly when that many bytes are there, and is then their first `owed` bytes |
| Connections.ChunksFrom | src/message/body.rs:100-175 | the chunked grammar from a size line: a complete reading never spans more than the bytes given |
| Connections.ChunkDataFrom | src/message/body.rs:144-171 | a chunk still owing `remaining` bytes spans at least those bytes and their CRLF |
| Connections.BodyFrom | src/message/body.rs:189-212 | the body a framing asks for never spans more than the bytes given |
| Connections.WaitingIsNotComplete | src/message/body.rs:106-110 | a decoder waiting for a CRLF has no complete body in what it sees |
| Connections.SizeLineRead | src/message/body.rs:114-137 | in the grammar a size line of 0 ends the body after its CRLF, and any other size opens a chunk of that size |
| Connections.SizeLineRefused | src/message/body.rs:138-141 | in the grammar a size line that is not hexadecimal makes the body malformed (MalformedChunkedSize) |
| Connections.ChunkEndRead | src/message/body.rs:146-171 | in the grammar chunk data followed by CRLF is taken and the next size line follows |
| Connections.ChunkEndRefused | src/message/body.rs:146-153 | in the grammar chunk data followed by anything but CRLF is MalformedChunkedBody |
| Connections.SizeStepFollows | src/message/body.rs:114-143 | a size-line step on the bytes in view agrees with the grammar on the whole stream |
| Connections.DataEndFollows | src/message/body.rs:144-171 | a data step that finds the chunk's CRLF agrees with the grammar on the whole stream |
| Connections.DataPartTaken | src/message/body.rs:155-163 | a data step that sees no end of the chunk takes what it sees, up to what the chunk owes |
| Connections.DataPartFollows | src/message/body.rs:155-171 | a data step that takes part of the chunk agrees with the grammar on the whole stream |
| Connections.DataStepFollows | src/message/body.rs:144-171 | any data step on the bytes in view agrees with the grammar on the whole stream |
| Connections.ChunkStepFollows | src/message/body.rs:100-175 | whatever follows the bytes in view, a chunked step's error is the grammar's, its last chunk completes the grammar, and otherwise it takes the data the grammar assigns to the bytes it consumed |
| Connections.FixedStepFollows | src/message/body.rs:196-209 | a fixed-length step is a piece of the fixed-length grammar, whatever follows the bytes in view |
| Connections.ParseBodyFollows | src/message/body.rs:183-213 | one call of `parse_body` with the framing chosen follows the grammar, whatever comes after the bytes it was handed |
| Connections.PassEnds | src/message/connection.rs:58 | a call that finishes the body finishes the grammar's reading of the stream |
| Connections.PassGoesOn | src/message/connection.rs:58 | a call that leaves the body unfinished keeps the loop's reading, the consumed bytes further on |
| Connections.PassFollows | src/message/connection.rs:58 | one call in the body loop: an error is the grammar's, a finished body is the grammar's body, otherwise the loop's reading holds after the consumed bytes |
| Connections.Decode | src/message/connection.rs:58 | the parser handed the buffered bytes gives the grammar's error or body, or leaves the loop's reading intact once the consumed bytes are gone |
| Connections.BodyPass | src/message/connection.rs:58 | one pass of the body loop keeps the loop's reading or ends with an outcome that the grammar allows |
| Connections.BodyGoesOn | src/message/connection.rs:58 | a pass of the body loop that does not finish drops the consumed bytes and, when nothing was consumed, reads more: a read of 0 ends with UnexpectedEof, otherwise the loop's reading holds with fewer bytes to come |
| Connections.ReadBody | src/message/connection.rs:58 | a framing error comes back unchanged; otherwise the body read is the grammar's body and exactly its bytes are used, a decoding error is the grammar's, and UnexpectedEof comes only without a complete body or with a full buffer |
| Connections.RequestFrom | src/message/connection.rs:42-65 | the reading of one request from the bytes to come never spans more than those bytes |
| Connections.FromRequestLine | src/message/connection.rs:43-46 | what follows a request line of `k` bytes never spans more than the bytes given |
| Connections.FromFieldBlock | src/message/connection.rs:48-56 | what follows the field lines never spans more than the bytes given |
| Connections.FromFraming | src/message/connection.rs:58-64 | what follows the framing never spans more than the bytes given |
| Connections.BlockCutShort | src/message/connection.rs:49-50 | with no CRLF left the field block is cut short |
| Connections.BlockEnds | src/message/connection.rs:51-53 | an empty line first ends the field block after two bytes |
| Connections.BlockRefused | src/message/connection.rs:55 | a malformed first field line is the block's error |
| Connections.BlockGoesOn | src/message/connection.rs:49-56 | a field line first adds its field, and the block goes on after its CRLF |
| Connections.BlockRead | src/message/connection.rs:49-56 | the block read part way along the stream ends where the stream reader stands |
| Connections.FieldPass | src/message/connection.rs:50-55 | one pass of the field loop either ends the block as the field grammar says, or adds one field line and moves `k > 0` bytes on |
| Connections.FieldLine | src/message/connection.rs:50-55 | a line already cut at its CRLF: a malformed line is the block's error with the map unchanged; a field line adds its field and the block goes on after the line |
| Connections.ReadFields | src/message/connection.rs:49-56 | the field loop gives the block's error, EOF when the block is cut short, or the block's map with exactly its bytes used |
| Connections.FramingRead | src/message/connection.rs:58-64 | the body half of a request, read against what `parse_body` gave, is what the reference reading finds |
| Connections.HeadCutShort | src/message/connection.rs:43-44 | bytes without a CRLF hold no request line and give EOF |
| Connections.LineRefused | src/message/connection.rs:43-46 | a request line that does not parse is the request's error |
| Connections.LineTaken | src/message/connection.rs:43-48 | after a good request line the reading goes on to the field block |
| Connections.BlockTaken | src/message/connection.rs:49-58 | the field loop's outcome, read against the rest of the request's reading |
| Connections.HeadEnds | src/message/connection.rs:42-56 | the field loop after a good request line ends the head with the request's error or the line, the fields and the bytes used |
| Connections.ReadHead | src/message/connection.rs:42-56 | the request line and field lines are read into a new map; an error is the request's error, otherwise the body is still to come |
| Connections.RequestAfterHead | src/message/connection.rs:58-64 | the body read after the head gives the request or error the reference reading finds |
| Connections.ReadSucceeds | src/message/connection.rs:42-65 | a request that the bytes hold in full is read as that request, and exactly its bytes are used, unless a chunk outgrew a full buffer |
| Connections.ReadFails | src/message/connection.rs:42-65 | bytes that hold no whole request never read as one; the error is the reference one unless it shows as UnexpectedEof |
| Connections.NoFramingEmptyRequest | src/message/body.rs:81-83 | without Transfer-Encoding or Content-Length a request has an empty body and uses nothing past its head |
| Connections.ShortBodyRefused | src/message/connection.rs:181-208 | a Content-Length longer than what is left ends the read with UnexpectedEof, which stands for the test's `RequestError::Body(BodyError::IO(_))` (src/message/connection.rs:203-206) |
| Connections.Connection.constructor | src/message/connection.rs:27-33 | a stream reader over the peer's bytes, nothing written yet |
| Connections.Connection.Read | src/message/connection.rs:42-65 | the request read is the one the reference reading finds in the bytes to come, and exactly its bytes are used; otherwise the reference error |
| Connections.Connection.Respond | src/message/connection.rs:67-71 | the bytes written grow by the response's wire form, its body framed by Content-Length |
| Connections.OneChunkRead | src/message/body.rs:100-175 | a size line, that many data bytes and a CRLF read as the data, whatever follows |
| Connections.ChunkHeadRead | src/message/body.rs:114-124 | a size line of `n > 0` opens a chunk of `n` bytes |
| Connections.ChunkDataRead | src/message/body.rs:144-171 | chunk data followed by CRLF closes the chunk |
| Connections.LastChunkRead | src/message/body.rs:121-137 | a size line of 0 ends the body after its CRLF |
| Connections.ChunksFromCoding | src/message/body.rs:100-175 | the chunked coding of non-empty chunks and the last chunk reads as the chunks joined, spanning exactly the coding |
| Connections.TwoChunksRead | src/message/connection.rs:214-227 | two non-empty chunks and the last chunk read as the two joined, whatever the spelling of their size lines |
| Connections.ChunkedExample | src/message/connection.rs:214-227 | "2 AB, A 1234567890, 0" reads as "AB1234567890" |
| Connections.ChunkedCrlfExample | src/message/connection.rs:230-244 | a CRLF inside chunk data is data: the body is "AB1\r\n1" |
| Connections.ChunkOverrunRead | src/message/body.rs:146-153 | chunk data not followed by CRLF where its size line says makes the body malformed |
| Connections.ChunkedOverrunExample | src/message/connection.rs:247-259 | chunk data "ABC" under size 2 makes the body MalformedChunkedBody |
| Connections.FixedExample | src/message/connection.rs:181-208 | Content-Length 1 with "A" to come reads "A"; Content-Length 2 with only "A" is incomplete |
| Request.Initial | src/message/request.rs:136-145 | the parser starts at the request line with no body length, no fields and no body |
| Request.BodyLenAgreesWithFraming | src/message/request.rs:33-62 | without Transfer-Encoding, `find_body_len` and `set_encoding` read Content-Length alike: the same length, and an error exactly when the other errs |
| Request.BodyLenSettled | src/message/request.rs:34-36 | a body length already found is kept |
| Request.BodyLenOfDecimal | src/message/request.rs:37-47 | a Content-Length that is a printed length is read back as that length |
| Request.Iterate | src/message/request.rs:67-129 | one pass of the loop in `parse` never moves back through the states, moves on by at least one byte and at most the bytes given, and never ends in error with the request done |
| Request.BodyStep | src/message/request.rs:102-126 | the body state never uses more than the bytes given and never reports an error with the request done |
| Request.ParseFrom | src/message/request.rs:64-133 | `parse` never moves back through the states, uses at most the bytes given, and a done parser uses nothing |
| Request.Passes | src/message/request.rs:67-130 | the loop from its next pass keeps the same bounds as `parse` |
| Request.Unroll | src/message/request.rs:67-130 | `parse` is one pass followed by the rest of the loop on the bytes left |
| Request.ParseLineExtend | src/message/request_line.rs:75-83 | a request line whose CRLF is already there parses the same once more bytes arrive |
| Request.FieldLineExtend | src/message/headers.rs:94-123 | a field line whose CRLF is already there parses the same once more bytes arrive |
| Request.IteratePrefix | src/message/request.rs:70-101 | before the body, a pass that moves on or fails does the same once more bytes arrive, and a pass that stops without failing took nothing and changed nothing |
| Request.LinePrefix | src/message/request.rs:70-84 | the request-line state is not changed by bytes arriving after a complete line, and it stops without failing only when the line is incomplete |
| Request.FieldPrefix | src/message/request.rs:85-101 | the field state is not changed by bytes arriving after a complete line, and it stops without failing only when the line is incomplete |
| Request.Resume | src/message/request.rs:147-163 | parsing part of the bytes and then the unused rest with what follows ends as parsing all the bytes at once, whenever that succeeds |
| Request.ResumeInBody | src/message/request.rs:102-126 | the same in the body state, where each piece joins the body |
| Request.ResumeBody | src/message/request.rs:108-125 | in the body state the first piece is used whole and the second continues the body |
| Request.Saturated | src/message/request.rs:64-133 | fed again with only what it left unused, an unfinished parser takes nothing and stays as it is |
| Request.SaturatedBody | src/message/request.rs:102-126 | an unfinished body has used every byte it was given |
| Request.Continue | src/message/request.rs:147-163 | when a parse leaves the request unfinished, parsing more bytes at once equals that parse followed by a parse of the unused rest and the new bytes |
| Request.ContinueInBody | src/message/request.rs:102-126 | the bytes of an unfinished body and the next ones join it alike |
| Request.Resumed | src/message/request.rs:64-133 | `parse` from a given state keeps the same bounds as `ParseFrom` |
| Request.StepOutcome | src/message/request.rs:67-130 | a pass that ends the call gives the whole parse's outcome with the bytes used before it counted; a pass that moves on leaves the parser past its request line, still on course to that outcome |
| Request.Ends | src/message/request.rs:67-130 | a pass that ends the call ends the whole parse |
| Request.DoneEnds | src/message/request.rs:69 | a done parser takes nothing more |
| Request.MovesOn | src/message/request.rs:67-130 | a pass that moves on by `n` bytes moves the whole parse on |
| Request.NothingDelivered | src/message/request.rs:136-145 | the fresh parser fed nothing takes nothing |
| Request.FedMore | src/message/request.rs:147-163 | after one more read the parser ends where parsing all the bytes delivered so far at once ends |
| Request.PrefixAgrees | src/message/request.rs:147-163 | for a stream that parses to a complete request, every prefix parses without error, and a prefix that already completes the request has the same request |
| RequestParsing.RequestParser.constructor | src/message/request.rs:136-145 | the parser is the initial one, with a fresh header map |
| RequestParsing.RequestParser.FindBodyLen | src/message/request.rs:33-62 | the body length is set as `BodyLen` says, or left unset with its error, and nothing else changes |
| RequestParsing.RequestParser.Parse | src/message/request.rs:64-133 | the new parser state and the count or error are those of `ParseFrom` |
| RequestParsing.RequestParser.Step | src/message/request.rs:67-129 | one pass either ends the call with the final result, or moves on `0 < n` bytes, still on course to that result |
| RequestParsing.RequestParser.Pass | src/message/request.rs:67-130 | one pass of the loop in `parse` ends the call with the whole parse's result, or moves on `0 < n` bytes still on course to it |
| RequestParsing.RequestParser.StatePass | src/message/request.rs:70-126 | a parser that is not done does, by its state, what one pass of `Iterate` says |
| RequestParsing.RequestParser.LineState | src/message/request.rs:70-84 | the request-line state does what one pass of `Iterate` says |
| RequestParsing.RequestParser.FieldState | src/message/request.rs:85-101 | the field state does what one pass of `Iterate` says |
| RequestParsing.RequestParser.BodyState | src/message/request.rs:102-126 | the body state ends the call as one pass of `Iterate` says |
| RequestParsing.CopyWithin | src/message/request.rs:160 | the bytes from `from` on move to the front of the buffer, the tail unchanged |
| RequestParsing.ShiftBuffer | src/message/request.rs:160-161 | the buffered bytes after the first `used` move to the front, in order |
| RequestParsing.NothingRead | src/message/request.rs:150-153 | a read of 0 bytes means the reader is empty or the buffer is full |
| RequestParsing.Feed | src/message/request.rs:147-163 | one pass of `request_from_reader`: a read of 0 is `MalformedRequest`, a parse error is the error of parsing every byte delivered, otherwise the buffer holds the unused bytes of all delivered so far and fewer bytes are left to come |
| RequestParsing.Absorb | src/message/request.rs:155-162 | the parse of the unused and the new bytes, the used ones dropped, agrees with parsing every byte delivered at once |
| RequestParsing.RequestFromReader | src/message/request.rs:135-164 | the request or error is what parsing every delivered byte at once gives; MalformedRequest only when the reader runs dry or the buffer fills with the request unfinished; with `PrefixAgrees`, a reader holding one request yields that request unless it outgrows the buffer |
| Responses.Framed | src/message/response.rs:32-35 | an empty body leaves the fields as they are; a non-empty body sets Content-Length to its length in decimal; no other name changes |
| Responses.Response.constructor | src/message/response.rs:16-22 | the given status, the default fields, an empty body |
| Responses.Response.FromParts | src/message/response_builder.rs:49-55 | the parts as given |
| Responses.Response.WriteTo | src/message/response.rs:30-42 | the fields become the framed fields; the bytes written are the status line, the field block of the framed fields, then the body |
| Responses.Response.Write | src/message/response.rs:48-50 | every byte given is appended to the body, and the count is all of them |
| Responses.WriteAgainSame | src/message/response.rs:30-42 | writing a response a second time emits the same bytes and leaves the same fields |
| Responses.FramedWritable | src/message/response.rs:32-35 | framing keeps a writable field map writable |
| Responses.ReadBack | src/message/response.rs:30-42 | a written response reads back: the first CRLF ends the status line, the field block reads back as the framed fields, and the body follows untouched |
| Responses.FramedLength | src/message/response.rs:32-35 | a non-empty body's Content-Length is read back by the body parser as exactly its length |
| Responses.WireParts | src/message/response.rs:30-42 | the written response is the status line, the field block and the body, in that order |
| Responses.WriteExampleEmpty | src/message/response.rs:63-67 | with the corrected block, no fields and no body write the test's "HTTP/1.1 200 Ok\r\n\r\n"; as written, they write the status line "HTTP/1.1 200 Ok\r\n" alone |
| Responses.WireAsWrittenAgrees | src/message/response.rs:30-42 | the response as the code writes it equals the corrected wire form unless both the fields and the body are empty; then the code writes the status line alone, and the corrected form adds the empty line |
| Responses.WriteExampleField | src/message/response.rs:69-72 | one field and no body write the status line, "content-type: text/plain" and the empty line |
| Responses.WriteExampleBody | src/message/response.rs:74-81 | a five-byte body adds "content-length: 5", sorted before content-type, then the body |
| Responses.WriteExample | src/message/response.rs:74-75 | writes fill the body in order |
| ResponseBuilding.ResponseBuilder.constructor | src/message/response_builder.rs:20-26 | status 200, the default fields, an empty body |
| ResponseBuilding.ResponseBuilder.SetStatusCode | src/message/response_builder.rs:28-31 | a new HTTP/1.1 status line with the given code; fields and body stay |
| ResponseBuilding.ResponseBuilder.AddHeader | src/message/response_builder.rs:33-42 | the field is set, replacing an earlier value of the same name |
| ResponseBuilding.ResponseBuilder.AddToBody | src/message/response_builder.rs:44-47 | the bytes are appended to the body and the call succeeds |
| ResponseBuilding.ResponseBuilder.Build | src/message/response_builder.rs:49-55 | the response has the builder's status line, fields and body |
| ResponseBuilding.BuilderExample | src/message/response_builder.rs:69-80 | status 200, "AA: BB" and no body, with the default "connection: close" kept |
| ResponseBuilding.AddHeaderOverwrites | src/message/response_builder.rs:33-42 | a later `add_header` of the same name, in any case, wins |
| RequestBuilding.New | src/message/request_builder.rs:10-16 | the given method and target, version HTTP/1.1, no fields, no body |
| RequestBuilding.Header | src/message/request_builder.rs:18-25 | a name given twice holds both values joined by a comma; every other name keeps its value |
| RequestBuilding.WithBody | src/message/request_builder.rs:27-30 | the body is replaced; line and fields stay |
| RequestBuilding.Build | src/message/request_builder.rs:32-38 | the request has the builder's line, fields and body |
| RequestBuilding.LastBodyWins | src/message/request_builder.rs:27-30 | only the last `body` counts |
| RequestBuilding.HeaderTwiceJoins | src/message/request_builder.rs:18-25 | a name added twice, in any case, holds "first,second" |
| RequestBuilding.BuiltLineReadsBack | src/message/request_builder.rs:10-16 | the request line of a built request, written out, reads back as that line when the target holds no space |
| RequestBuilding.BuilderExample | src/message/request_builder.rs:46-57 | GET of "/" with "AA: BB", version 1.1, no body |
| Serving.Http10Closes | src/server/mod.rs:115-117 | an HTTP/1.0 request without keep-alive in its Connection field closes the connection |
| Serving.RequestCloses | src/server/mod.rs:118-120 | a request listing "close" in its Connection field closes the connection |
| Serving.ResponseCloses | src/server/mod.rs:121-123 | a response listing "close" in its Connection field closes the connection |
| Serving.Http11StaysOpen | src/server/mod.rs:114-125 | an HTTP/1.1 exchange with no Connection field on either side keeps the connection open |
| Serving.CloseHasAReason | src/server/mod.rs:114-125 | a connection closes only for one of the three reasons |
| Serving.SingleItem | src/server/mod.rs:118-123 | a value without commas whose trimmed form is the item is found as that item |
| Serving.DefaultFieldsClose | src/server/mod.rs:121-123 | every response that keeps the default fields carries "connection: close" and closes the connection, whatever its body |
| Serving.InternalError | src/server/mod.rs:59-68 | the bytes written are the 500 response of a fresh builder |
| Serving.Respond | src/server/mod.rs:79-109 | one turn after the read writes and decides as `TurnOf` says: nothing on the end of input, the 500 response on another parse error or a handler error, otherwise the handler's response and the close decision |
| Serving.RepliesSnoc | src/server/mod.rs:76-110 | the turns so far then one more write what they wrote, then what it writes |
| Serving.RequestTakesBytes | src/message/request.rs:147-163 | a read that gave a request took at least one byte |
| Serving.ServeOne | src/server/mod.rs:76-110 | one turn reads a request, taking the bytes it says, answers as `TurnOf` says, and a turn that goes on has taken bytes |
| Serving.TurnServed | src/server/mod.rs:75-112 | one more turn extends every loop invariant of `handle_connection` by that turn |
| Serving.HandleConnection | src/server/mod.rs:75-112 | turns run until one ends the loop; each read took the bytes it says and gave what parsing them gives; every turn but the last goes on; the output is every turn's bytes in order |
| Serving.InternalErrorExample | src/server/mod.rs:59-68 | the 500 response is "HTTP/1.1 500 Internal Server Error", "connection: close" and the empty line |
| Serving.DefaultResponseEndsLoop | src/server/mod.rs:226-261 | a handler whose response keeps the default fields writes that one response and then ends the loop |
| Serving.AgainMeansServed | src/server/mod.rs:102-109 | a turn that keeps the loop going served a request with the handler's own response, and that exchange does not close the connection |

## Left out

### Outside the model

- The TCP listener, the thread pool and `server.rs`: sockets, tokio tasks and spawning are I/O and concurrency. The stream of a connection is a reader of byte pieces for input and an appended byte sequence for output.
- The client (`client.rs`, `src/client/`) and the response-reading half of `Connection` (`read` and `send` for responses, src/message/connection.rs:79-107). They are the mirror image of the request half and are not part of this model.
- I/O failures of `write`, `write_all` and `flush` are not modelled: writes always succeed. The branch in src/server/mod.rs:102-105 that answers a failed write with a 500 response is therefore never taken.
- Logging (`println!`, `eprintln!`) is not modelled.

### Helpers outside the model

These functions are called by the core, but their source is not part of this model. Each is given the smallest definition its callers and the tests imply:

- `body::parse_body(headers, reader)` is assumed to:
  - hand the buffered bytes to a fresh `BodyParser`;
  - drop what the parser consumed;
  - read more only when the parser consumed nothing;
  - fail with `UnexpectedEof` on a read of 0 bytes. `UnexpectedEof` stands for the I/O error the connection test expects there, `RequestError::Body(BodyError::IO(_))` (src/message/connection.rs:203-206).
- `Headers::new_with_default` is assumed to give the map holding only "connection: close".
- `RequestLine::parse` is assumed to:
  - give `None` until a CRLF arrives;
  - then apply `from_line` to the bytes before the first CRLF;
  - count the CRLF in the size.
- `Headers::field_contains_value` is assumed to split the value at commas, trim each item and compare byte for byte.
- `Headers::parse_one` is taken to be `parse`. `parse_one_from_line` is taken to be `parse` of a line without its CRLF.
- `req.line.version == "1.0"` is taken to mean the version that displays as "1.0".
- `VersionError` is taken to map to `RequestLineError::Version`, and `MalformedHeader` to the field-line error of `parse`.

### Where the model differs from the code or the documentation

- `RequestParser` frames bodies by `Content-Length` alone. It ignores `Transfer-Encoding`, although the library's documentation says chunked bodies are accepted there too. The model follows the code.
- `Connections.Connection.Read`, in two ways:
  - It does not promise progress when a chunk-size line or a chunk's data outgrows the 2048-byte buffer. The read then ends with `UnexpectedEof` on a full buffer, and the contract admits exactly that case.
  - The CRLF that follows the last chunk is not consumed.
- `RequestParsing.RequestFromReader`: bytes read past the end of one request are not carried over to the next call. `Serving.HandleConnection` states this per turn.
- `Serving.HandleConnection`: the keep-alive test (src/server/mod.rs:226-261) expects a second response on the same connection. With the default "connection: close" every such response closes the connection instead, as `Serving.DefaultResponseEndsLoop` proves.
- `Stream.StreamReader.ReadLine`: the test with a 2051-byte line (src/message/stream_reader.rs) is covered only by the general contract, not by an example of its own.
- `Connections.ReadFails`: on bytes holding no whole request, a body decoding error may show as `UnexpectedEof` instead of the decoding error, because more bytes could still arrive.

### The corrected chunk-data step

The decoder below runs the corrected chunk-data step of the first finding: in the `Data` state it takes at most the bytes the chunk still owes. The code (src/message/body.rs:155-159) takes all of `bytes`. `Body.AsWrittenDiffersOnlyAtOverrun` proves the two steps agree except when `bytes` holds the chunk's remaining bytes plus one, with a CRLF among them. On that input the code appends the extra byte and passes `size`. On that input, the members below describe the corrected step and not the code:

- Body.BodyParser.ParseChunkedBody: runs the corrected step, not the code's.
- Body.BodyParser.ParseBody: its chunked branch runs the corrected step.
- Connections.DataPartTaken: "up to what the chunk owes" holds only for the corrected step.
- Connections.DataPartFollows: agreement with the grammar is proved for the corrected step.
- Connections.DataStepFollows: likewise.
- Connections.ChunkStepFollows: likewise.
- Connections.ParseBodyFollows: likewise.
- Connections.PassGoesOn: likewise, for one call in the body loop.
- Connections.PassFollows: likewise.
- Connections.Decode: likewise.
- Connections.BodyPass: likewise.
- Connections.BodyGoesOn: likewise.
- Connections.ReadBody: a chunked body read is the grammar's body only with the corrected step.
- Connections.Connection.Read: a chunked request is read as the reference reading only with the corrected step.

### The corrected field block

Writing uses the corrected field block of the second finding, which ends with the empty line even for an empty map. The code (src/message/headers.rs:126-128) writes nothing for an empty map. `HeaderMap.AsWrittenAgrees` and `Responses.WireAsWrittenAgrees` prove that the two agree except on an empty map, and for a response except when both the fields and the body are empty. On those inputs, the members below describe the corrected block and not the code:

- HeaderMap.Headers.WriteTo: writes the empty line for an empty map; the code writes nothing.
- Responses.Wire: is the corrected wire form; the code's is `Responses.WireAsWritten`.
- Responses.Response.WriteTo: with no fields and no body it writes the status line and the empty line; the code writes the status line alone.
- Responses.ReadBack: reads back the corrected wire form.
- Connections.Connection.Respond: the bytes written grow by the corrected wire form.

## Findings

| source | as written | input that shows it | evidently intended | confidence | as-written member | corrected member |
|---|---|---|---|---|---|---|
| src/message/body.rs:146-163 | in the `Data` state, when the CRLF that closes the chunk is not in view, all of `bytes` is taken | a 3-byte chunk fed "A\r\n\r": four bytes taken, the framing CR lands in the body, and `size_parsed` passes `size`, so the next `size - size_parsed` underflows | take at most the bytes the chunk still owes | not executed | Body.DataStepAsWritten, Body.ChunkStepAsWritten, Body.AsWrittenOverrunsChunk, Body.AsWrittenDiffersOnlyAtOverrun | Body.DataStep, Body.CorrectedKeepsChunk, Body.ChunkStepSound |
| src/message/headers.rs:126-128 | `write_to` of an empty map returns before writing the empty line that ends the field block | an empty map writes nothing, yet the response test (src/message/response.rs:63-67) expects "HTTP/1.1 200 Ok\r\n\r\n" | always end the block with the empty line | not executed | HeaderMap.FieldBlockAsWritten, HeaderMap.AsWrittenEmptyHasNoBlankLine, Responses.WireAsWritten, Responses.WireAsWrittenAgrees | HeaderMap.FieldBlock, HeaderMap.FieldBlockEnds, Responses.WriteExampleEmpty |
