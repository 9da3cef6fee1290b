/**
 * Body framing and the chunked decoder of `BodyParser`.
 *
 * The framing follows section 6.3 of RFC 9112: Transfer-Encoding "chunked",
 * or a Content-Length (a single decimal, or a comma-list of one repeated
 * decimal as section 8.6 of RFC 9110 allows), or no body at all. The chunked
 * decoder follows section 7.1 of RFC 9112 without chunk extensions or
 * trailers: it is fed the bytes available so far, appends to the body and
 * reports how many bytes it consumed.
 */
module Body {
  import opened Wrappers
  import opened Bytes
  import opened Errors
  import opened HeaderMap

  /** The framing of a body: a fixed length (0 for none), or chunked. */
  datatype Encoding = Nothing(len: nat) | Chunked

  /** Where the chunked decoder stands: before a size line, or inside a chunk of `size` bytes. */
  datatype ChunkedState = Size | Data(size: nat)

  // The framing field names as stored; `get`, `set` and `remove` fold the names they are given.
  const TransferEncoding: Bytes := "transfer-encoding"
  const ContentLength: Bytes := "content-length"

  lemma FramingNamesFolded()
    ensures ToLower("Transfer-Encoding") == TransferEncoding
    ensures ToLower("Content-Length") == ContentLength
  {
  }

  function Lookup(m: FieldMap, k: Bytes): Option<Bytes> {
    if k in m then Some(m[k]) else None
  }

  // ---------------------------------------------------------------------------
  // Content-Length values
  // ---------------------------------------------------------------------------

  /** What a Content-Length value denotes. */
  datatype LengthValue = Length(n: nat) | Mismatch | NotANumber

  function TrimEach(vs: seq<Bytes>): (r: seq<Bytes>)
    ensures |r| == |vs| && forall k :: 0 <= k < |vs| ==> r[k] == Trim(vs[k])
  {
    seq(|vs|, k requires 0 <= k < |vs| => Trim(vs[k]))
  }

  predicate AllSame(vs: seq<Bytes>)
    requires |vs| > 0
  {
    forall k :: 0 <= k < |vs| ==> vs[k] == vs[0]
  }

  /**
   * A Content-Length value, as both `set_encoding` and `find_body_len` read
   * it: a decimal `usize`; otherwise the value split at ',' with each item
   * trimmed, which must be one and the same decimal throughout.
   */
  function ParseContentLength(v: Bytes): LengthValue {
    match ParseDecimal(v)
    case Some(n) => Length(n)
    case None =>
      var items := TrimEach(Split(v, ','));
      if !AllSame(items) then Mismatch
      else match ParseDecimal(items[0])
        case Some(n) => Length(n)
        case None => NotANumber
  }

  lemma CommaIsNoNumber(v: Bytes)
    requires ',' in v
    ensures ParseDecimal(v).None?
  {
    var i :| 0 <= i < |v| && v[i] == ',';
    var d := if |v| > 0 && v[0] == '+' then v[1..] else v;
    if v[0] == '+' {
      assert d[i - 1] == ',';
      assert !IsDigit(d[i - 1]);
    } else {
      assert !IsDigit(d[i]);
    }
  }

  /** A printed length reads back as that length. */
  lemma ContentLengthOfDecimal(n: nat)
    requires n <= USIZE_MAX
    ensures ParseContentLength(NatToDecimal(n)) == Length(n)
  {
    DecimalRoundTrip(n);
  }

  /** A comma-list whose items all trim to the same printed length reads as that length. */
  lemma ContentLengthOfList(items: seq<Bytes>, n: nat)
    requires |items| >= 2 && n <= USIZE_MAX
    requires forall k :: 0 <= k < |items| ==> ',' !in items[k] && Trim(items[k]) == NatToDecimal(n)
    ensures ParseContentLength(Join(items, ',')) == Length(n)
  {
    var v := Join(items, ',');
    assert ParseDecimal(v).None? by {
      assert v == items[0] + [','] + Join(items[1..], ',');
      assert v[|items[0]|] == ',';
      CommaIsNoNumber(v);
    }
    assert Split(v, ',') == items by {
      SplitJoin(items, ',');
    }
    var trimmed := TrimEach(items);
    assert AllSame(trimmed) && trimmed[0] == NatToDecimal(n);
    assert ParseDecimal(trimmed[0]) == Some(n) by {
      DecimalRoundTrip(n);
    }
  }

  /** Two items that differ once trimmed make a comma-list a mismatch. */
  lemma ContentLengthMismatch(v: Bytes, i: nat, j: nat)
    requires ',' in v
    requires i < |Split(v, ',')| && j < |Split(v, ',')|
    requires Trim(Split(v, ',')[i]) != Trim(Split(v, ',')[j])
    ensures ParseContentLength(v) == Mismatch
  {
    CommaIsNoNumber(v);
  }

  // ---------------------------------------------------------------------------
  // Choosing the framing (`set_encoding`)
  // ---------------------------------------------------------------------------

  /** The framing the fields call for, or why they call for none. */
  function EncodingFor(m: FieldMap): Result<Encoding, BodyError> {
    var te := Lookup(m, TransferEncoding);
    var cl := Lookup(m, ContentLength);
    if te.Some? && cl.Some? then Err(BodyHeaderErr(InvalidHeaderFields))
    else if te.Some? then
      if te.value == "chunked" then Ok(Chunked) else Err(BodyHeaderErr(InvalidHeaderFields))
    else if cl.Some? then
      match ParseContentLength(cl.value)
      case Length(n) => Ok(Nothing(n))
      case Mismatch => Err(BodyHeaderErr(InvalidHeaderFields))
      case NotANumber => Err(BodyHeaderErr(HeadersError.InvalidContentLength))
    else Ok(Nothing(0))
  }

  /** Both framing fields at once are refused. */
  lemma BothFramingFieldsRefused(m: FieldMap)
    requires TransferEncoding in m && ContentLength in m
    ensures EncodingFor(m) == Err(BodyHeaderErr(InvalidHeaderFields))
  {
  }

  /** Transfer-Encoding alone selects chunked exactly when its value is "chunked". */
  lemma TransferEncodingChoice(m: FieldMap)
    requires TransferEncoding in m && ContentLength !in m
    ensures EncodingFor(m) == Ok(Chunked) <==> m[TransferEncoding] == "chunked"
    ensures EncodingFor(m).Err? <==> m[TransferEncoding] != "chunked"
    ensures EncodingFor(m).Err? ==> EncodingFor(m).error == BodyHeaderErr(InvalidHeaderFields)
  {
  }

  /** Content-Length alone gives a fixed length, a printed length giving itself. */
  lemma ContentLengthChoice(m: FieldMap, n: nat)
    requires TransferEncoding !in m && ContentLength in m
    requires n <= USIZE_MAX && m[ContentLength] == NatToDecimal(n)
    ensures EncodingFor(m) == Ok(Nothing(n))
  {
    ContentLengthOfDecimal(n);
  }

  /** A Content-Length list with two different items is refused as conflicting fields. */
  lemma ContentLengthListMismatch(m: FieldMap, i: nat, j: nat)
    requires TransferEncoding !in m && ContentLength in m
    requires ',' in m[ContentLength]
    requires i < |Split(m[ContentLength], ',')| && j < |Split(m[ContentLength], ',')|
    requires Trim(Split(m[ContentLength], ',')[i]) != Trim(Split(m[ContentLength], ',')[j])
    ensures EncodingFor(m) == Err(BodyHeaderErr(InvalidHeaderFields))
  {
    ContentLengthMismatch(m[ContentLength], i, j);
  }

  /** With neither field there is no body. */
  lemma NoFramingNoBody(m: FieldMap)
    requires TransferEncoding !in m && ContentLength !in m
    ensures EncodingFor(m) == Ok(Nothing(0))
  {
  }

  // ---------------------------------------------------------------------------
  // A fixed-length body
  // ---------------------------------------------------------------------------

  /**
   * One fixed-length step: the bytes still owed (`len` minus what the body
   * holds, never below 0) are taken from the front of `bytes`, as many as
   * there are. Gives the bytes consumed, whether the body is complete, and
   * the new body.
   */
  function FixedStep(len: nat, body: Bytes, bytes: Bytes): (nat, bool, Bytes) {
    var remaining := if |body| >= len then 0 else len - |body|;
    if remaining == 0 then (0, true, body)
    else
      var take := Min(remaining, |bytes|);
      (take, |body| + take == len, body + bytes[..take])
  }

  /**
   * A fixed-length step consumes what is owed or what is there, whichever is
   * less, appends exactly those bytes, never passes `len`, and is done
   * exactly when the body has reached `len`.
   */
  lemma FixedStepMeaning(len: nat, body: Bytes, bytes: Bytes)
    requires |body| <= len
    ensures var (n, done, body') := FixedStep(len, body, bytes);
      n == Min(len - |body|, |bytes|) &&
      body' == body + bytes[..n] &&
      |body'| <= len &&
      (done <==> |body'| == len)
  {
  }

  // ---------------------------------------------------------------------------
  // The chunked decoder
  // ---------------------------------------------------------------------------

  /** The decoder state the code relies on: a chunk is never read past its size. */
  predicate StateOk(state: ChunkedState, sizeParsed: nat) {
    state.Data? ==> sizeParsed <= state.size
  }

  /** Everything a chunked step changes, with what it reports (bytes consumed, done). */
  datatype Step = Step(state: ChunkedState, sizeParsed: nat, body: Bytes, fields: FieldMap, consumed: nat, done: bool)

  /**
   * One call of `parse_chunked_body`. Nothing happens until `bytes` holds a
   * CRLF. In `Size` the bytes before the first CRLF are a hexadecimal size;
   * size 0 ends the body, recording the decoded length as Content-Length
   * and dropping Transfer-Encoding.
   */
  function ChunkStep(state: ChunkedState, sizeParsed: nat, body: Bytes, fields: FieldMap, bytes: Bytes): Result<Step, BodyError>
    requires StateOk(state, sizeParsed)
  {
    match FindCrlf(bytes)
    case None => Ok(Step(state, sizeParsed, body, fields, 0, false))
    case Some(endOfLine) =>
      match state
      case Size => SizeStep(body, fields, bytes, endOfLine)
      case Data(size) => DataStep(size, sizeParsed, body, fields, bytes)
  }

  function SizeStep(body: Bytes, fields: FieldMap, bytes: Bytes, endOfLine: nat): Result<Step, BodyError>
    requires endOfLine <= |bytes|
  {
    match ParseHex(bytes[..endOfLine])
    case None => Err(MalformedChunkedSize)
    case Some(size) =>
      if size == 0 then
        var fields' := fields[ContentLength := NatToDecimal(|body|)] - {TransferEncoding};
        Ok(Step(Data(0), 0, body, fields', endOfLine + 2, true))
      else Ok(Step(Data(size), 0, body, fields, endOfLine + 2, false))
  }

  /** Whether the bytes right after the `remaining` bytes of data are the CRLF that closes the chunk. */
  predicate FoundEnd(bytes: Bytes, remaining: nat) {
    |bytes| > remaining + 1 && bytes[remaining] == CR && bytes[remaining + 1] == LF
  }

  /**
   * The `Data` branch with the evidently intended take: when the closing CRLF
   * is not yet in view, at most the bytes the chunk still owes are taken.
   */
  function DataStep(size: nat, sizeParsed: nat, body: Bytes, fields: FieldMap, bytes: Bytes): Result<Step, BodyError>
    requires sizeParsed <= size
  {
    var remaining := size - sizeParsed;
    if FoundEnd(bytes, remaining) then
      Ok(Step(Size, size, body + bytes[..remaining], fields, remaining + 2, false))
    else if |bytes| > remaining + 1 then Err(MalformedChunkedBody)
    else
      var take := Min(|bytes|, remaining);
      Ok(Step(Data(size), sizeParsed + take, body + bytes[..take], fields, take, false))
  }

  /**
   * The `Data` branch as written: when the closing CRLF is not in view it
   * takes all of `bytes`, which may be one byte more than the chunk owes.
   */
  function DataStepAsWritten(size: nat, sizeParsed: nat, body: Bytes, fields: FieldMap, bytes: Bytes): Result<Step, BodyError>
    requires sizeParsed <= size
  {
    var remaining := size - sizeParsed;
    if FoundEnd(bytes, remaining) then
      Ok(Step(Size, size, body + bytes[..remaining], fields, remaining + 2, false))
    else if |bytes| > remaining + 1 then Err(MalformedChunkedBody)
    else Ok(Step(Data(size), sizeParsed + |bytes|, body + bytes, fields, |bytes|, false))
  }

  lemma ExampleOverrunBytes(bytes: Bytes)
    requires bytes == "A\r\n\r"
    ensures |bytes| == 4 && !FoundEnd(bytes, 3) && FindCrlf(bytes) == Some(1)
  {
    assert CrlfAt(bytes, 1) && CrlfFree(bytes[..2]);
    FindCrlfIs(bytes, 1);
  }

  /**
   * As written, a 3-byte chunk fed "A\r\n\r" (its data and the CR of its
   * closing CRLF) takes all four bytes: the body gets the CR that belongs
   * to the framing, and `size_parsed` passes `size`, so the next call's
   * `size - size_parsed` underflows.
   */
  lemma AsWrittenOverrunsChunk(bytes: Bytes)
    requires bytes == "A\r\n\r"
    ensures DataStepAsWritten(3, 0, [], map[], bytes).Ok?
    ensures DataStepAsWritten(3, 0, [], map[], bytes).value.sizeParsed == 4
    ensures !StateOk(DataStepAsWritten(3, 0, [], map[], bytes).value.state, DataStepAsWritten(3, 0, [], map[], bytes).value.sizeParsed)
    ensures DataStepAsWritten(3, 0, [], map[], bytes).value.body == bytes
  {
    ExampleOverrunBytes(bytes);
  }

  /** The corrected step on the same bytes takes the three data bytes and leaves the CR. */
  lemma CorrectedKeepsChunk(bytes: Bytes)
    requires bytes == "A\r\n\r"
    ensures DataStep(3, 0, [], map[], bytes) == Ok(Step(Data(3), 3, "A\r\n", map[], 3, false))
  {
    ExampleOverrunBytes(bytes);
    assert Min(|bytes|, 3) == 3;
    var body: Bytes := [];
    assert body + bytes[..3] == "A\r\n";
  }

  /** `parse_chunked_body` as written: the step above with the `Data` branch that takes all of `bytes`. */
  function ChunkStepAsWritten(state: ChunkedState, sizeParsed: nat, body: Bytes, fields: FieldMap, bytes: Bytes): Result<Step, BodyError>
    requires StateOk(state, sizeParsed)
  {
    match FindCrlf(bytes)
    case None => Ok(Step(state, sizeParsed, body, fields, 0, false))
    case Some(endOfLine) =>
      match state
      case Size => SizeStep(body, fields, bytes, endOfLine)
      case Data(size) => DataStepAsWritten(size, sizeParsed, body, fields, bytes)
  }

  /** The decoder is in `Data` and holds a CRLF, with exactly one byte more than the chunk owes in view. */
  predicate OverrunCase(state: ChunkedState, sizeParsed: nat, bytes: Bytes)
    requires StateOk(state, sizeParsed)
  {
    state.Data? && FindCrlf(bytes).Some? && |bytes| == state.size - sizeParsed + 1
  }

  /**
   * The step as written and the corrected step agree on every input but
   * one class: in `Data`, with a CRLF in view and one byte more than the
   * chunk owes. There the code takes that byte too, so `size_parsed` ends
   * one past `size`, where the corrected step stops at `size`.
   */
  lemma AsWrittenDiffersOnlyAtOverrun(state: ChunkedState, sizeParsed: nat, body: Bytes, fields: FieldMap, bytes: Bytes)
    requires StateOk(state, sizeParsed)
    ensures !OverrunCase(state, sizeParsed, bytes) ==>
      ChunkStepAsWritten(state, sizeParsed, body, fields, bytes) == ChunkStep(state, sizeParsed, body, fields, bytes)
    ensures OverrunCase(state, sizeParsed, bytes) ==>
      var w := ChunkStepAsWritten(state, sizeParsed, body, fields, bytes);
      var c := ChunkStep(state, sizeParsed, body, fields, bytes);
      w.Ok? && c.Ok? && w.value.sizeParsed == state.size + 1 && !StateOk(w.value.state, w.value.sizeParsed) &&
      c.value.sizeParsed == state.size && w.value.consumed == c.value.consumed + 1 &&
      w.value.body == c.value.body + [bytes[|bytes| - 1]]
  {
    if FindCrlf(bytes).Some? && state.Data? {
      var remaining := state.size - sizeParsed;
      if !FoundEnd(bytes, remaining) && |bytes| <= remaining + 1 {
        if |bytes| <= remaining {
          assert bytes[..|bytes|] == bytes;
        } else {
          assert bytes == bytes[..remaining] + [bytes[|bytes| - 1]];
        }
      }
    }
  }

  /**
   * Every successful step keeps the decoder state sound, consumes no more
   * than it was given, and only ever appends to the body a prefix of what it
   * consumed.
   */
  lemma ChunkStepSound(state: ChunkedState, sizeParsed: nat, body: Bytes, fields: FieldMap, bytes: Bytes)
    requires StateOk(state, sizeParsed)
    ensures var r := ChunkStep(state, sizeParsed, body, fields, bytes);
      r.Ok? ==>
        StateOk(r.value.state, r.value.sizeParsed) &&
        r.value.consumed <= |bytes| &&
        |r.value.body| - |body| <= r.value.consumed &&
        r.value.body == body + bytes[..|r.value.body| - |body|]
  {
    match FindCrlf(bytes)
    case None =>
    case Some(e) =>
  }

  /** Without a CRLF in view nothing is consumed and nothing changes. */
  lemma ChunkStepWaitsForCrlf(state: ChunkedState, sizeParsed: nat, body: Bytes, fields: FieldMap, bytes: Bytes)
    requires StateOk(state, sizeParsed) && CrlfFree(bytes)
    ensures ChunkStep(state, sizeParsed, body, fields, bytes) == Ok(Step(state, sizeParsed, body, fields, 0, false))
  {
    assert forall i :: !CrlfAt(bytes, i);
  }

  /** A size line that is not hexadecimal is refused. */
  lemma BadSizeRefused(body: Bytes, fields: FieldMap, bytes: Bytes)
    requires FindCrlf(bytes).Some? && ParseHex(bytes[..FindCrlf(bytes).value]).None?
    ensures ChunkStep(Size, 0, body, fields, bytes) == Err(MalformedChunkedSize)
  {
  }

  /** The last chunk (size 0) ends the body: Content-Length records its length and Transfer-Encoding goes. */
  lemma LastChunkEnds(body: Bytes, fields: FieldMap, bytes: Bytes)
    requires FindCrlf(bytes).Some? && ParseHex(bytes[..FindCrlf(bytes).value]) == Some(0)
    ensures var r := ChunkStep(Size, 0, body, fields, bytes);
      r.Ok? && r.value.done && r.value.body == body &&
      r.value.consumed == FindCrlf(bytes).value + 2 &&
      Lookup(r.value.fields, ContentLength) == Some(NatToDecimal(|body|)) &&
      Lookup(r.value.fields, TransferEncoding).None? &&
      forall k :: k != ContentLength && k != TransferEncoding ==> Lookup(r.value.fields, k) == Lookup(fields, k)
  {
  }

  /** Chunk data followed by something other than CRLF is refused once that much is in view. */
  lemma UnterminatedChunkRefused(size: nat, sizeParsed: nat, body: Bytes, fields: FieldMap, bytes: Bytes)
    requires sizeParsed <= size && FindCrlf(bytes).Some?
    requires |bytes| > size - sizeParsed + 1 && !CrlfAt(bytes, size - sizeParsed)
    ensures ChunkStep(Data(size), sizeParsed, body, fields, bytes) == Err(MalformedChunkedBody)
  {
  }

  /** Chunk data followed by CRLF is taken whole, its CRLF consumed, and the decoder returns to `Size`. */
  lemma TerminatedChunkTaken(size: nat, sizeParsed: nat, body: Bytes, fields: FieldMap, bytes: Bytes)
    requires sizeParsed <= size && CrlfAt(bytes, size - sizeParsed)
    ensures ChunkStep(Data(size), sizeParsed, body, fields, bytes) ==
      Ok(Step(Size, size, body + bytes[..size - sizeParsed], fields, size - sizeParsed + 2, false))
  {
    assert FindCrlf(bytes).Some?;
  }

  // ---------------------------------------------------------------------------
  // The chunked coding, and decoding it back
  // ---------------------------------------------------------------------------

  /** The chunked coding of a sequence of chunks: each chunk with its size line and closing CRLF. */
  function ChunkedCoding(chunks: seq<Bytes>): Bytes {
    if |chunks| == 0 then []
    else NatToHex(|chunks[0]|) + CRLF + chunks[0] + CRLF + ChunkedCoding(chunks[1..])
  }

  /** The last chunk: size 0. */
  const LastChunk: Bytes := "0\r\n"

  /** An outcome of running the decoder over one buffer until it stops. */
  datatype Decoded = Decoded(body: Bytes, fields: FieldMap, consumed: nat, done: bool)

  /**
   * Repeated steps over one buffer, each on what the previous ones left,
   * until the body is done or a step consumes nothing; `consumed` counts
   * the bytes taken before.
   */
  function DecodeAll(state: ChunkedState, sizeParsed: nat, body: Bytes, fields: FieldMap, bytes: Bytes, consumed: nat): Result<Decoded, BodyError>
    requires StateOk(state, sizeParsed)
    decreases |bytes|, 1
  {
    ChunkStepSound(state, sizeParsed, body, fields, bytes);
    DecodeFrom(bytes, consumed, ChunkStep(state, sizeParsed, body, fields, bytes))
  }

  function DecodeFrom(bytes: Bytes, consumed: nat, step: Result<Step, BodyError>): Result<Decoded, BodyError>
    requires step.Ok? ==> step.value.consumed <= |bytes| && StateOk(step.value.state, step.value.sizeParsed)
    decreases |bytes|, 0
  {
    match step
    case Err(e) => Err(e)
    case Ok(s) =>
      if s.done || s.consumed == 0 then Ok(Decoded(s.body, s.fields, consumed + s.consumed, s.done))
      else DecodeAll(s.state, s.sizeParsed, s.body, s.fields, bytes[s.consumed..], consumed + s.consumed)
  }

  /** A step that neither finishes nor stalls is followed by decoding the rest of the buffer. */
  lemma DecodeAllContinues(state: ChunkedState, sizeParsed: nat, body: Bytes, fields: FieldMap, bytes: Bytes, consumed: nat, s: Step)
    requires StateOk(state, sizeParsed)
    requires ChunkStep(state, sizeParsed, body, fields, bytes) == Ok(s) && !s.done && s.consumed > 0
    ensures s.consumed <= |bytes| && StateOk(s.state, s.sizeParsed)
    ensures DecodeAll(state, sizeParsed, body, fields, bytes, consumed) ==
      DecodeAll(s.state, s.sizeParsed, s.body, s.fields, bytes[s.consumed..], consumed + s.consumed)
  {
    ChunkStepSound(state, sizeParsed, body, fields, bytes);
  }

  lemma LastChunkDecoded(sizeParsed: nat, body: Bytes, fields: FieldMap, rest: Bytes, consumed: nat)
    ensures DecodeAll(Size, sizeParsed, body, fields, LastChunk + rest, consumed) == Finished(body, fields, consumed + 3)
  {
    var bytes := LastChunk + rest;
    assert bytes == ['0'] + CRLF + rest;
    DigitsHaveNoCr(['0'], 10);
    FindCrlfOfLine(['0'], rest);
    assert bytes[..1] == ['0'];
  }

  /** A size line printed by `NatToHex` opens a chunk of that size, whatever follows it. */
  lemma SizeLineDecoded(sizeParsed: nat, n: nat, rest: Bytes, body: Bytes, fields: FieldMap)
    requires 0 < n <= USIZE_MAX
    ensures ChunkStep(Size, sizeParsed, body, fields, NatToHex(n) + CRLF + rest) ==
      Ok(Step(Data(n), 0, body, fields, |NatToHex(n)| + 2, false))
  {
    var line := NatToHex(n);
    var bytes := line + CRLF + rest;
    DigitsHaveNoCr(line, 16);
    assert line[|line| - 1] in line;
    FindCrlfOfLine(line, rest);
    assert bytes[..|line|] == line;
    HexRoundTrip(n);
  }

  /** Chunk data followed by CRLF closes the chunk, whatever follows it. */
  lemma ChunkDataDecoded(chunk: Bytes, rest: Bytes, body: Bytes, fields: FieldMap)
    ensures ChunkStep(Data(|chunk|), 0, body, fields, chunk + CRLF + rest) ==
      Ok(Step(Size, |chunk|, body + chunk, fields, |chunk| + 2, false))
  {
    var bytes := chunk + CRLF + rest;
    assert CrlfAt(bytes, |chunk|);
    assert bytes[..|chunk|] == chunk;
    TerminatedChunkTaken(|chunk|, 0, body, fields, bytes);
  }

  /** Decoding `bytes` from this state gives `d`. */
  predicate Decodes(state: ChunkedState, sizeParsed: nat, body: Bytes, fields: FieldMap, bytes: Bytes, consumed: nat,
                    d: Result<Decoded, BodyError>) {
    StateOk(state, sizeParsed) && DecodeAll(state, sizeParsed, body, fields, bytes, consumed) == d
  }

  /** A step that takes `head` and moves on, and decoding after it, is decoding from before it. */
  lemma StepThenRest(state: ChunkedState, sizeParsed: nat, body: Bytes, fields: FieldMap, head: Bytes, x: Bytes, consumed: nat,
                     s: Step, d: Result<Decoded, BodyError>)
    requires StateOk(state, sizeParsed)
    requires ChunkStep(state, sizeParsed, body, fields, head + x) == Ok(s) && !s.done && 0 < s.consumed == |head|
    requires Decodes(s.state, s.sizeParsed, s.body, s.fields, x, consumed + |head|, d)
    ensures Decodes(state, sizeParsed, body, fields, head + x, consumed, d)
  {
    assert (head + x)[|head|..] == x;
    DecodeAllContinues(state, sizeParsed, body, fields, head + x, consumed, s);
  }

  lemma SizeLineThenRest(sizeParsed: nat, chunk: Bytes, rest: Bytes, body: Bytes, fields: FieldMap, consumed: nat,
                         d: Result<Decoded, BodyError>)
    requires 0 < |chunk| <= USIZE_MAX
    requires Decodes(Data(|chunk|), 0, body, fields, chunk + CRLF + rest, consumed + |NatToHex(|chunk|)| + 2, d)
    ensures Decodes(Size, sizeParsed, body, fields, NatToHex(|chunk|) + CRLF + chunk + CRLF + rest, consumed, d)
  {
    var line := NatToHex(|chunk|);
    var x := chunk + CRLF + rest;
    assert line + CRLF + chunk + CRLF + rest == (line + CRLF) + x;
    SizeLineDecoded(sizeParsed, |chunk|, x, body, fields);
    StepThenRest(Size, sizeParsed, body, fields, line + CRLF, x, consumed, Step(Data(|chunk|), 0, body, fields, |line| + 2, false), d);
  }

  lemma ChunkDataThenRest(chunk: Bytes, rest: Bytes, body: Bytes, fields: FieldMap, consumed: nat, d: Result<Decoded, BodyError>)
    requires Decodes(Size, |chunk|, body + chunk, fields, rest, consumed + |chunk| + 2, d)
    ensures Decodes(Data(|chunk|), 0, body, fields, chunk + CRLF + rest, consumed, d)
  {
    ChunkDataDecoded(chunk, rest, body, fields);
    StepThenRest(Data(|chunk|), 0, body, fields, chunk + CRLF, rest, consumed, Step(Size, |chunk|, body + chunk, fields, |chunk| + 2, false), d);
  }

  /** A whole chunk with its size line is decoded, and decoding goes on after it. */
  lemma OneChunkDecoded(sizeParsed: nat, chunk: Bytes, rest: Bytes, bytes: Bytes, body: Bytes, fields: FieldMap, consumed: nat,
                        d: Result<Decoded, BodyError>)
    requires 0 < |chunk| <= USIZE_MAX
    requires bytes == NatToHex(|chunk|) + CRLF + chunk + CRLF + rest
    requires Decodes(Size, |chunk|, body + chunk, fields, rest, consumed + |NatToHex(|chunk|)| + |chunk| + 4, d)
    ensures Decodes(Size, sizeParsed, body, fields, bytes, consumed, d)
  {
    var line := NatToHex(|chunk|);
    ChunkDataThenRest(chunk, rest, body, fields, consumed + |line| + 2, d);
    SizeLineThenRest(sizeParsed, chunk, rest, body, fields, consumed, d);
  }

  /** The value a chunked body decodes to once the last chunk is read. */
  function Finished(body: Bytes, fields: FieldMap, consumed: nat): Result<Decoded, BodyError> {
    Ok(Decoded(body, fields[ContentLength := NatToDecimal(|body|)] - {TransferEncoding}, consumed, true))
  }

  /**
   * The chunked coding of non-empty chunks, then the last chunk, decodes in
   * one buffer to the chunks joined together, the decoded length recorded
   * as Content-Length; it consumes exactly the coding and leaves the rest.
   */
  lemma {:induction false} DecodeChunkedCoding(chunks: seq<Bytes>, encoded: Bytes, rest: Bytes,
                                               sizeParsed: nat, body: Bytes, fields: FieldMap, consumed: nat)
    requires forall k :: 0 <= k < |chunks| ==> 0 < |chunks[k]| <= USIZE_MAX
    requires encoded == ChunkedCoding(chunks) + LastChunk + rest
    ensures Decodes(Size, sizeParsed, body, fields, encoded, consumed,
      Finished(body + Concat(chunks), fields, consumed + |encoded| - |rest|))
    decreases |chunks|
  {
    if |chunks| == 0 {
      NoChunksDecoded(chunks, sizeParsed, body, fields, rest, consumed);
    } else {
      var c := chunks[0];
      var tail := ChunkedCoding(chunks[1..]) + LastChunk + rest;
      FirstChunkLayout(chunks, rest);
      DecodeChunkedCoding(chunks[1..], tail, rest, |c|, body + c, fields, consumed + |NatToHex(|c|)| + |c| + 4);
      assert body + c + Concat(chunks[1..]) == body + Concat(chunks);
      OneChunkDecoded(sizeParsed, c, tail, encoded, body, fields, consumed,
                      Finished(body + Concat(chunks), fields, consumed + |encoded| - |rest|));
    }
  }

  lemma NoChunksDecoded(chunks: seq<Bytes>, sizeParsed: nat, body: Bytes, fields: FieldMap, rest: Bytes, consumed: nat)
    requires |chunks| == 0
    ensures Decodes(Size, sizeParsed, body, fields, ChunkedCoding(chunks) + LastChunk + rest, consumed,
      Finished(body + Concat(chunks), fields, consumed + |ChunkedCoding(chunks)| + 3))
  {
    assert ChunkedCoding(chunks) + LastChunk + rest == LastChunk + rest;
    LastChunkDecoded(sizeParsed, body, fields, rest, consumed);
    assert body + Concat(chunks) == body;
  }

  lemma FirstChunkLayout(chunks: seq<Bytes>, rest: Bytes)
    requires |chunks| > 0
    ensures ChunkedCoding(chunks) + LastChunk + rest ==
      NatToHex(|chunks[0]|) + CRLF + chunks[0] + CRLF + (ChunkedCoding(chunks[1..]) + LastChunk + rest)
    ensures |ChunkedCoding(chunks)| == |NatToHex(|chunks[0]|)| + |chunks[0]| + 4 + |ChunkedCoding(chunks[1..])|
    ensures Concat(chunks) == chunks[0] + Concat(chunks[1..])
  {
  }

  // ---------------------------------------------------------------------------
  // The module's own examples
  // ---------------------------------------------------------------------------

  lemma SmallHexLines()
    ensures NatToHex(1) == "1" && NatToHex(3) == "3"
  {
  }

  /** "2,2,2" is one length said three times. */
  lemma RepeatedLengthAgrees(v: Bytes)
    requires v == "2,2,2"
    ensures ParseContentLength(v) == Length(2)
  {
    var items: seq<Bytes> := ["2", "2", "2"];
    assert Join(items, ',') == v;
    assert NatToDecimal(2) == "2";
    forall k | 0 <= k < |items|
      ensures ',' !in items[k] && Trim(items[k]) == NatToDecimal(2)
    {
      TrimDigit(items[k][0]);
    }
    ContentLengthOfList(items, 2);
  }

  /** "2,1,1" names two lengths. */
  lemma ConflictingLengthsRefused(v: Bytes)
    requires v == "2,1,1"
    ensures ParseContentLength(v) == Mismatch
  {
    var items: seq<Bytes> := ["2", "1", "1"];
    assert Split(v, ',') == items by {
      assert Join(items, ',') == v;
      SplitJoin(items, ',');
    }
    assert Trim(items[0]) != Trim(items[1]) by {
      TrimDigit('2');
      TrimDigit('1');
    }
    assert v[1] == ',';
    ContentLengthMismatch(v, 0, 1);
  }

  /** The four pieces of the chunked example, one step each. */
  lemma PiecesDecoded(fields: FieldMap)
    ensures ChunkStep(Size, 0, [], fields, "1\r\n") == Ok(Step(Data(1), 0, [], fields, 3, false))
    ensures ChunkStep(Data(1), 0, [], fields, "A\r\n") == Ok(Step(Size, 1, "A", fields, 3, false))
    ensures ChunkStep(Size, 1, "A", fields, "3\r\n") == Ok(Step(Data(3), 0, "A", fields, 3, false))
    ensures ChunkStep(Data(3), 0, "A", fields, "BCD\r\n") == Ok(Step(Size, 3, "ABCD", fields, 5, false))
  {
    SmallHexLines();
    PieceSizeLine("1\r\n", 1, 0, [], fields);
    var empty: Bytes := [];
    assert empty + "A" == "A";
    PieceData("A\r\n", "A", [], fields);
    PieceSizeLine("3\r\n", 3, 1, "A", fields);
    assert "A" + "BCD" == "ABCD";
    PieceData("BCD\r\n", "BCD", "A", fields);
  }

  lemma PieceSizeLine(bytes: Bytes, n: nat, sizeParsed: nat, body: Bytes, fields: FieldMap)
    requires 0 < n < 10 && bytes == NatToHex(n) + CRLF
    ensures ChunkStep(Size, sizeParsed, body, fields, bytes) == Ok(Step(Data(n), 0, body, fields, 3, false))
  {
    assert bytes == NatToHex(n) + CRLF + [];
    SizeLineDecoded(sizeParsed, n, [], body, fields);
  }

  lemma PieceData(bytes: Bytes, chunk: Bytes, body: Bytes, fields: FieldMap)
    requires bytes == chunk + CRLF
    ensures ChunkStep(Data(|chunk|), 0, body, fields, bytes) ==
      Ok(Step(Size, |chunk|, body + chunk, fields, |bytes|, false))
  {
    assert bytes == chunk + CRLF + [];
    ChunkDataDecoded(chunk, [], body, fields);
  }

  // ---------------------------------------------------------------------------
  // The parser object
  // ---------------------------------------------------------------------------

  class BodyParser {
    var encoding: Option<Encoding>
    var chunkedState: ChunkedState
    var sizeParsed: nat

    predicate Valid()
      reads this
    {
      StateOk(chunkedState, sizeParsed)
    }

    /** `new`: no framing chosen yet, before the first size line. */
    constructor ()
      ensures encoding == None && chunkedState == Size && sizeParsed == 0
      ensures Valid()
    {
      encoding := None;
      chunkedState := Size;
      sizeParsed := 0;
    }

    /** `set_encoding`: chooses the framing once; later calls keep it. */
    method SetEncoding(headers: Headers) returns (r: Result<(), BodyError>)
      modifies this
      ensures old(encoding).Some? ==> r == Ok(()) && encoding == old(encoding)
      ensures old(encoding).None? && EncodingFor(headers.fields).Ok? ==>
        r == Ok(()) && encoding == Some(EncodingFor(headers.fields).value)
      ensures old(encoding).None? && EncodingFor(headers.fields).Err? ==>
        r == Err(EncodingFor(headers.fields).error) && encoding == None
      ensures chunkedState == old(chunkedState) && sizeParsed == old(sizeParsed)
    {
      if encoding.Some? {
        return Ok(());
      }
      FramingNamesFolded();
      var transmission := headers.Get("Transfer-Encoding");
      var content := headers.Get("Content-Length");
      if transmission.Some? && content.Some? {
        return Err(BodyHeaderErr(InvalidHeaderFields));
      }
      if transmission.Some? {
        if transmission.value == "chunked" {
          encoding := Some(Chunked);
        } else {
          return Err(BodyHeaderErr(InvalidHeaderFields));
        }
      } else if content.Some? {
        match ParseContentLength(content.value) {
          case Length(n) => encoding := Some(Nothing(n));
          case Mismatch => return Err(BodyHeaderErr(InvalidHeaderFields));
          case NotANumber => return Err(BodyHeaderErr(HeadersError.InvalidContentLength));
        }
      } else {
        encoding := Some(Nothing(0));
      }
      return Ok(());
    }

    /**
     * `parse_chunked_body`: one step of the chunked decoder over the bytes
     * available; `body` is the body so far and `body'` the body after. On an
     * error nothing changes.
     */
    method ParseChunkedBody(body: Bytes, headers: Headers, bytes: Bytes) returns (r: Result<(nat, bool), BodyError>, body': Bytes)
      requires Valid()
      modifies this, headers
      ensures Valid() && encoding == old(encoding)
      ensures var s := ChunkStep(old(chunkedState), old(sizeParsed), body, old(headers.fields), bytes);
        match s
        case Ok(st) =>
          r == Ok((st.consumed, st.done)) && body' == st.body && headers.fields == st.fields &&
          chunkedState == st.state && sizeParsed == st.sizeParsed
        case Err(e) =>
          r == Err(e) && body' == body && headers.fields == old(headers.fields) &&
          chunkedState == old(chunkedState) && sizeParsed == old(sizeParsed)
    {
      ChunkStepSound(chunkedState, sizeParsed, body, headers.fields, bytes);
      body' := body;
      var crlf := FindCrlf(bytes);
      if crlf.None? {
        return Ok((0, false)), body';
      }
      var endOfLine := crlf.value;
      var done := false;
      match chunkedState {
        case Size =>
          var sizeLine := bytes[..endOfLine];
          match ParseHex(sizeLine) {
            case Some(size) =>
              chunkedState := Data(size);
              sizeParsed := 0;
              if size == 0 {
                done := true;
                FramingNamesFolded();
                headers.Set("Content-Length", NatToDecimal(|body'|));
                headers.Remove("Transfer-Encoding");
              }
            case None =>
              return Err(MalformedChunkedSize), body';
          }
        case Data(size) =>
          var remaining := size - sizeParsed;
          var foundEnd := |bytes| > remaining + 1 && bytes[remaining] == CR && bytes[remaining + 1] == LF;
          if !foundEnd && |bytes| > remaining + 1 {
            return Err(MalformedChunkedBody), body';
          }
          var end := if foundEnd then remaining else Min(|bytes|, remaining);
          body' := body' + bytes[..end];
          sizeParsed := sizeParsed + end;
          if foundEnd {
            chunkedState := Size;
            end := end + 2;
          }
          return Ok((end, false)), body';
      }
      return Ok((endOfLine + 2, done)), body';
    }

    /**
     * `parse_body`: chooses the framing if it is not chosen yet, then takes
     * what that framing allows from `bytes`. Gives the bytes consumed and
     * whether the body is complete.
     */
    method ParseBody(body: Bytes, headers: Headers, bytes: Bytes) returns (r: Result<(nat, bool), BodyError>, body': Bytes)
      requires Valid()
      modifies this, headers
      ensures Valid()
      ensures old(encoding).None? && EncodingFor(old(headers.fields)).Err? ==>
        r == Err(EncodingFor(old(headers.fields)).error) && body' == body && encoding == None &&
        headers.fields == old(headers.fields)
      ensures (old(encoding).Some? || EncodingFor(old(headers.fields)).Ok?) ==>
        encoding == (if old(encoding).Some? then old(encoding) else Some(EncodingFor(old(headers.fields)).value))
      ensures encoding.Some? && encoding.value.Nothing? ==>
        var (n, done, b) := FixedStep(encoding.value.len, body, bytes);
        r == Ok((n, done)) && body' == b && headers.fields == old(headers.fields) &&
        chunkedState == old(chunkedState) && sizeParsed == old(sizeParsed)
      ensures encoding.Some? && encoding.value.Chunked? ==>
        match ChunkStep(old(chunkedState), old(sizeParsed), body, old(headers.fields), bytes)
        case Ok(st) =>
          r == Ok((st.consumed, st.done)) && body' == st.body && headers.fields == st.fields &&
          chunkedState == st.state && sizeParsed == st.sizeParsed
        case Err(e) =>
          r == Err(e) && body' == body && headers.fields == old(headers.fields) &&
          chunkedState == old(chunkedState) && sizeParsed == old(sizeParsed)
    {
      var chosen := SetEncoding(headers);
      if chosen.Err? {
        return Err(chosen.error), body;
      }
      match encoding.value {
        case Nothing(len) =>
          // `Nothing(0)` has its own arm in the source, with the same outcome as an empty remainder.
          var remaining := if |body| >= len then 0 else len - |body|;
          if remaining == 0 {
            return Ok((0, true)), body;
          }
          var toTake := Min(remaining, |bytes|);
          body' := body + bytes[..toTake];
          return Ok((toTake, |body'| == len)), body';
        case Chunked =>
          r, body' := ParseChunkedBody(body, headers, bytes);
      }
    }
  }

  /**
   * A chunked body fed to `parse_body` in four pieces, each a size line or
   * a chunk with its CRLF: the chunks are joined into "ABCD".
   */
  method ChunkedPiecesExample() returns (body: Bytes)
    ensures body == "ABCD"
  {
    var p1: Bytes, p2: Bytes, p3: Bytes, p4: Bytes := "1\r\n", "A\r\n", "3\r\n", "BCD\r\n";
    var headers := new Headers();
    FramingNamesFolded();
    headers.Set("Transfer-Encoding", "chunked");
    var fields := headers.fields;
    assert fields == map[TransferEncoding := "chunked"];
    TransferEncodingChoice(fields);
    var parser := new BodyParser();
    PiecesDecoded(fields);
    var r;
    r, body := parser.ParseBody([], headers, p1);
    r, body := parser.ParseBody(body, headers, p2);
    r, body := parser.ParseBody(body, headers, p3);
    r, body := parser.ParseBody(body, headers, p4);
  }

  /** A body of Content-Length 7 handed over whole is taken whole. */
  method FixedLengthExample() returns (body: Bytes, done: bool)
    ensures body == "testing" && done
  {
    var headers := new Headers();
    FramingNamesFolded();
    headers.Set("Content-Length", "7");
    assert headers.fields == map[ContentLength := NatToDecimal(7)];
    ContentLengthChoice(headers.fields, 7);
    var parser := new BodyParser();
    var input: Bytes := "testing";
    FixedStepMeaning(7, [], input);
    assert input[..7] == input;
    var r;
    r, body := parser.ParseBody([], headers, input);
    done := r.Ok? && r.value.1;
  }
}
