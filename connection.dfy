/**
 * `Connection` on the server side: requests are read off a `StreamReader`
 * (the request line, then field lines up to the empty line, then the body
 * its framing asks for), and responses are written to an appended byte
 * sequence.
 *
 * The body is read by `parse_body`, which is not part of this model. It is
 * assumed to hand the bytes buffered in the stream reader to a fresh
 * `BodyParser`, to drop what the parser consumed, and to read more into
 * the buffer only when the parser consumed nothing; a read of 0 bytes ends
 * it with `UnexpectedEof`.
 *
 * What a read should give is stated once, by reference functions over the
 * bytes still to come (`ChunksFrom`, `FixedFrom`, `RequestFrom`); the
 * methods are proved against them whatever pieces the reader delivers.
 */
module Connections {
  import opened Wrappers
  import opened Bytes
  import opened Errors
  import opened HeaderMap
  import opened RequestLine
  import opened Request
  import opened Body
  import opened Reader
  import opened Stream
  import opened Responses

  // ---------------------------------------------------------------------------
  // The body framing as a grammar over the bytes to come
  // ---------------------------------------------------------------------------

  /** How the bytes to come read as a body: its data and the bytes it spans, or why not. */
  datatype Framed = Complete(data: Bytes, used: nat) | Incomplete | Malformed(error: BodyError)

  /** `taken` (spanning `k` bytes) in front of whatever follows. */
  function Prepend(taken: Bytes, k: nat, f: Framed): Framed {
    match f
    case Complete(data, used) => Complete(taken + data, k + used)
    case Incomplete => Incomplete
    case Malformed(e) => Malformed(e)
  }

  /** A body of `owed` bytes: the first `owed` bytes, if there are that many. */
  function FixedFrom(owed: nat, s: Bytes): (r: Framed)
    ensures r.Complete? <==> |s| >= owed
    ensures r.Complete? ==> r.used == owed && r.data == s[..owed]
    ensures !r.Malformed?
  {
    if |s| >= owed then Complete(s[..owed], owed) else Incomplete
  }

  /**
   * A chunked body from a size line on (section 7.1 of RFC 9112, without
   * extensions or trailers): a hexadecimal size up to the first CRLF; 0
   * ends the body; otherwise that many data bytes, a CRLF, and the next
   * size line.
   */
  function ChunksFrom(s: Bytes): (r: Framed)
    ensures r.Complete? ==> r.used <= |s|
    decreases |s|, 1
  {
    match FindCrlf(s)
    case None => Incomplete
    case Some(e) =>
      match ParseHex(s[..e])
      case None => Malformed(MalformedChunkedSize)
      case Some(n) =>
        if n == 0 then Complete([], e + 2)
        else Prepend([], e + 2, ChunkDataFrom(n, s[e + 2..]))
  }

  /** The rest of a chunk still owing `remaining` data bytes, then its CRLF, then the next size line. */
  function ChunkDataFrom(remaining: nat, s: Bytes): (r: Framed)
    ensures r.Complete? ==> remaining + 2 <= r.used <= |s|
    decreases |s|, 0
  {
    if |s| < remaining + 2 then Incomplete
    else if !CrlfAt(s, remaining) then Malformed(MalformedChunkedBody)
    else Prepend(s[..remaining], remaining + 2, ChunksFrom(s[remaining + 2..]))
  }

  /** The chunked grammar from wherever the decoder stands. */
  function ChunkedFrom(state: ChunkedState, sizeParsed: nat, s: Bytes): Framed
    requires StateOk(state, sizeParsed)
  {
    match state
    case Size => ChunksFrom(s)
    case Data(size) => ChunkDataFrom(size - sizeParsed, s)
  }

  /** The body a framing asks for, from its first byte. */
  function BodyFrom(enc: Encoding, s: Bytes): (r: Framed)
    ensures r.Complete? ==> r.used <= |s|
  {
    match enc
    case Nothing(len) => FixedFrom(len, s)
    case Chunked => ChunksFrom(s)
  }

  /** What is left of the body once `have` bytes of a fixed body, or the decoder's progress, are behind. */
  function Remainder(enc: Encoding, state: ChunkedState, sizeParsed: nat, have: nat, s: Bytes): Framed
    requires StateOk(state, sizeParsed) && (enc.Nothing? ==> have <= enc.len)
  {
    match enc
    case Nothing(len) => FixedFrom(len - have, s)
    case Chunked => ChunkedFrom(state, sizeParsed, s)
  }

  /** The fields once the body is read: a chunked body leaves its length as Content-Length, without Transfer-Encoding. */
  function FieldsAfter(enc: Encoding, fields: FieldMap, data: Bytes): FieldMap {
    if enc.Chunked? then fields[ContentLength := NatToDecimal(|data|)] - {TransferEncoding} else fields
  }

  lemma PrependPrepend(a: Bytes, i: nat, b: Bytes, j: nat, f: Framed)
    ensures Prepend(a, i, Prepend(b, j, f)) == Prepend(a + b, i + j, f)
  {
    match f
    case Complete(data, used) =>
      assert a + (b + data) == (a + b) + data;
    case Incomplete =>
    case Malformed(e) =>
  }

  lemma PrependNothing(f: Framed)
    ensures Prepend([], 0, f) == f
  {
    match f
    case Complete(data, used) =>
      assert [] + data == data;
    case Incomplete =>
    case Malformed(e) =>
  }

  /** The data of a chunk may be taken in two parts. */
  lemma ChunkDataSplit(remaining: nat, k: nat, s: Bytes, rest: nat)
    requires k <= remaining && k <= |s| && rest == remaining - k
    ensures ChunkDataFrom(remaining, s) == Prepend(s[..k], k, ChunkDataFrom(rest, s[k..]))
  {
    var t := s[k..];
    if |s| >= remaining + 2 && CrlfAt(s, remaining) {
      assert CrlfAt(t, remaining - k);
      assert t[remaining - k + 2..] == s[remaining + 2..];
      assert s[..remaining] == s[..k] + t[..remaining - k];
      PrependPrepend(s[..k], k, t[..remaining - k], remaining - k + 2, ChunksFrom(s[remaining + 2..]));
    } else if |s| >= remaining + 2 {
      assert !CrlfAt(t, remaining - k);
    }
  }

  // ---------------------------------------------------------------------------
  // The decoder's steps follow the grammar, whatever follows what it sees
  // ---------------------------------------------------------------------------

  /** A step that waits (no CRLF in view) leaves a body that, were nothing more to come, is not complete. */
  lemma WaitingIsNotComplete(state: ChunkedState, sizeParsed: nat, b: Bytes)
    requires StateOk(state, sizeParsed) && FindCrlf(b).None?
    ensures !ChunkedFrom(state, sizeParsed, b).Complete?
  {
    if state.Data? && |b| >= state.size - sizeParsed + 2 {
      assert !CrlfAt(b, state.size - sizeParsed);
    }
  }

  /** The grammar at a size line, one line at a time. */
  lemma SizeLineRead(p: Bytes, e: nat, n: nat)
    requires FindCrlf(p) == Some(e) && ParseHex(p[..e]) == Some(n)
    ensures n == 0 ==> ChunksFrom(p) == Complete([], e + 2)
    ensures n > 0 ==> ChunksFrom(p) == Prepend([], e + 2, ChunkDataFrom(n, p[e + 2..]))
  {
  }

  lemma SizeLineRefused(p: Bytes, e: nat)
    requires FindCrlf(p) == Some(e) && ParseHex(p[..e]).None?
    ensures ChunksFrom(p) == Malformed(MalformedChunkedSize)
  {
  }

  /** The grammar at the end of a chunk's data. */
  lemma ChunkEndRead(remaining: nat, p: Bytes)
    requires CrlfAt(p, remaining)
    ensures ChunkDataFrom(remaining, p) == Prepend(p[..remaining], remaining + 2, ChunksFrom(p[remaining + 2..]))
  {
  }

  lemma ChunkEndRefused(remaining: nat, p: Bytes)
    requires |p| >= remaining + 2 && !CrlfAt(p, remaining)
    ensures ChunkDataFrom(remaining, p) == Malformed(MalformedChunkedBody)
  {
  }

  /** A size-line step on a prefix agrees with the grammar on the whole stream. */
  lemma SizeStepFollows(body: Bytes, fields: FieldMap, b: Bytes, more: Bytes, e: nat)
    requires FindCrlf(b) == Some(e)
    ensures var p := b + more;
      match SizeStep(body, fields, b, e)
      case Err(err) => ChunksFrom(p) == Malformed(err)
      case Ok(st) =>
        st.body == body && e + 2 == st.consumed <= |b| && StateOk(st.state, st.sizeParsed) &&
        (st.done ==> ChunksFrom(p) == Complete([], st.consumed) && st.fields == fields[ContentLength := NatToDecimal(|body|)] - {TransferEncoding}) &&
        (!st.done ==> st.fields == fields && ChunksFrom(p) == Prepend([], st.consumed, ChunkedFrom(st.state, st.sizeParsed, p[st.consumed..])))
  {
    var p := b + more;
    FindCrlfExtend(b, more);
    assert p[..e] == b[..e];
    match ParseHex(b[..e])
    case None => SizeLineRefused(p, e);
    case Some(n) => SizeLineRead(p, e, n);
  }

  /** The step `r` is a step to `state` with these parts. */
  predicate StepIs(r: Result<Step, BodyError>, state: ChunkedState, sizeParsed: nat, body: Bytes, fields: FieldMap,
                   consumed: nat, done: bool) {
    r.Ok? && r.value.state == state && r.value.sizeParsed == sizeParsed && r.value.body == body &&
    r.value.fields == fields && r.value.consumed == consumed && r.value.done == done
  }

  /** A data step that finds the chunk's CRLF agrees with the grammar on the whole stream. */
  lemma DataEndFollows(size: nat, sizeParsed: nat, body: Bytes, fields: FieldMap, b: Bytes, more: Bytes)
    requires sizeParsed <= size && FoundEnd(b, size - sizeParsed)
    ensures var p := b + more; var remaining := size - sizeParsed;
      StepIs(DataStep(size, sizeParsed, body, fields, b), Size, size, body + p[..remaining], fields, remaining + 2, false) &&
      ChunkDataFrom(remaining, p) == Prepend(p[..remaining], remaining + 2, ChunkedFrom(Size, size, p[remaining + 2..]))
  {
    var p := b + more;
    var remaining := size - sizeParsed;
    assert CrlfAt(p, remaining);
    assert p[..remaining] == b[..remaining];
    ChunkEndRead(remaining, p);
  }

  /** A data step that sees no end of the chunk takes what it sees, up to what the chunk owes. */
  lemma DataPartTaken(size: nat, sizeParsed: nat, body: Bytes, fields: FieldMap, b: Bytes)
    requires sizeParsed <= size && 2 <= |b| <= size - sizeParsed + 1
    ensures var take := Min(|b|, size - sizeParsed);
      0 < take && StepIs(DataStep(size, sizeParsed, body, fields, b), Data(size), sizeParsed + take, body + b[..take], fields, take, false)
  {
  }

  /** The grammar reads the same part of a chunk's data, whatever follows it. */
  lemma DataPartRead(size: nat, sizeParsed: nat, take: nat, p: Bytes)
    requires sizeParsed + take <= size && take <= |p|
    ensures ChunkDataFrom(size - sizeParsed, p) == Prepend(p[..take], take, ChunkedFrom(Data(size), sizeParsed + take, p[take..]))
  {
    ChunkDataSplit(size - sizeParsed, take, p, size - (sizeParsed + take));
  }

  /** A data step that takes part of the chunk agrees with the grammar on the whole stream. */
  lemma DataPartFollows(size: nat, sizeParsed: nat, body: Bytes, fields: FieldMap, b: Bytes, more: Bytes)
    requires sizeParsed <= size && 2 <= |b| <= size - sizeParsed + 1
    ensures var p := b + more; var take := Min(|b|, size - sizeParsed);
      0 < take &&
      StepIs(DataStep(size, sizeParsed, body, fields, b), Data(size), sizeParsed + take, body + p[..take], fields, take, false) &&
      ChunkDataFrom(size - sizeParsed, p) == Prepend(p[..take], take, ChunkedFrom(Data(size), sizeParsed + take, p[take..]))
  {
    var take := Min(|b|, size - sizeParsed);
    DataPartRead(size, sizeParsed, take, b + more);
    DataPartTaken(size, sizeParsed, body, fields, b);
    assert b[..take] == (b + more)[..take];
  }

  /**
   * What a data step's outcome `r` on the bytes `b` in view means, whatever
   * `more` follows them: an error is the grammar's error, and a step takes
   * the data the grammar assigns to the bytes it consumed.
   */
  predicate DataFollows(size: nat, sizeParsed: nat, body: Bytes, fields: FieldMap, b: Bytes, more: Bytes,
                        r: Result<Step, BodyError>)
    requires sizeParsed <= size
  {
    var p := b + more;
    match r
    case Err(err) => ChunkDataFrom(size - sizeParsed, p) == Malformed(err)
    case Ok(st) =>
      !st.done && st.fields == fields && 0 < st.consumed <= |b| && StateOk(st.state, st.sizeParsed) &&
      |body| <= |st.body| && st.body[..|body|] == body &&
      ChunkDataFrom(size - sizeParsed, p) == Prepend(st.body[|body|..], st.consumed, ChunkedFrom(st.state, st.sizeParsed, p[st.consumed..]))
  }

  /** A data step on a prefix agrees with the grammar on the whole stream. */
  lemma DataStepFollows(size: nat, sizeParsed: nat, body: Bytes, fields: FieldMap, b: Bytes, more: Bytes)
    requires sizeParsed <= size && 2 <= |b|
    ensures DataFollows(size, sizeParsed, body, fields, b, more, DataStep(size, sizeParsed, body, fields, b))
  {
    var remaining := size - sizeParsed;
    if FoundEnd(b, remaining) {
      DataEndCase(size, sizeParsed, body, fields, b, more);
    } else if |b| > remaining + 1 {
      DataOverrunCase(size, sizeParsed, body, fields, b, more);
    } else {
      DataPartCase(size, sizeParsed, body, fields, b, more);
    }
  }

  lemma DataEndCase(size: nat, sizeParsed: nat, body: Bytes, fields: FieldMap, b: Bytes, more: Bytes)
    requires sizeParsed <= size && FoundEnd(b, size - sizeParsed)
    ensures DataFollows(size, sizeParsed, body, fields, b, more, DataStep(size, sizeParsed, body, fields, b))
  {
    var p := b + more;
    DataEndFollows(size, sizeParsed, body, fields, b, more);
    assert (body + p[..size - sizeParsed])[|body|..] == p[..size - sizeParsed];
  }

  lemma DataOverrunCase(size: nat, sizeParsed: nat, body: Bytes, fields: FieldMap, b: Bytes, more: Bytes)
    requires sizeParsed <= size && !FoundEnd(b, size - sizeParsed) && |b| > size - sizeParsed + 1
    ensures DataFollows(size, sizeParsed, body, fields, b, more, DataStep(size, sizeParsed, body, fields, b))
  {
    var p := b + more;
    assert !CrlfAt(p, size - sizeParsed);
    ChunkEndRefused(size - sizeParsed, p);
  }

  lemma DataPartCase(size: nat, sizeParsed: nat, body: Bytes, fields: FieldMap, b: Bytes, more: Bytes)
    requires sizeParsed <= size && 2 <= |b| <= size - sizeParsed + 1 && !FoundEnd(b, size - sizeParsed)
    ensures DataFollows(size, sizeParsed, body, fields, b, more, DataStep(size, sizeParsed, body, fields, b))
  {
    DataPartFollows(size, sizeParsed, body, fields, b, more);
    DataPartMeans(size, sizeParsed, body, fields, b, more, Min(|b|, size - sizeParsed), DataStep(size, sizeParsed, body, fields, b));
  }

  /** A step that takes `take` bytes of the chunk, as the grammar does, follows the grammar. */
  lemma DataPartMeans(size: nat, sizeParsed: nat, body: Bytes, fields: FieldMap, b: Bytes, more: Bytes, take: nat,
                      r: Result<Step, BodyError>)
    requires sizeParsed + take <= size && 0 < take <= |b|
    requires StepIs(r, Data(size), sizeParsed + take, body + (b + more)[..take], fields, take, false)
    requires ChunkDataFrom(size - sizeParsed, b + more) ==
      Prepend((b + more)[..take], take, ChunkedFrom(Data(size), sizeParsed + take, (b + more)[take..]))
    ensures DataFollows(size, sizeParsed, body, fields, b, more, r)
  {
    DataOkFollows(size, sizeParsed, body, fields, b, more, r, (b + more)[..take],
                  ChunkedFrom(Data(size), sizeParsed + take, (b + more)[take..]));
  }

  /** A step whose parts fit the grammar's reading follows the grammar, whatever state it stands in. */
  lemma DataOkFollows(size: nat, sizeParsed: nat, body: Bytes, fields: FieldMap, b: Bytes, more: Bytes,
                      r: Result<Step, BodyError>, taken: Bytes, g: Framed)
    requires sizeParsed <= size && r.Ok? && !r.value.done && r.value.fields == fields
    requires 0 < r.value.consumed <= |b| && StateOk(r.value.state, r.value.sizeParsed) && r.value.body == body + taken
    requires g == ChunkedFrom(r.value.state, r.value.sizeParsed, (b + more)[r.value.consumed..])
    requires ChunkDataFrom(size - sizeParsed, b + more) == Prepend(taken, r.value.consumed, g)
    ensures DataFollows(size, sizeParsed, body, fields, b, more, r)
  {
    Halves(r.value.body, body, taken);
  }

  /** The two parts of a concatenation, recovered by slicing. */
  lemma Halves(whole: Bytes, front: Bytes, back: Bytes)
    requires whole == front + back
    ensures |front| <= |whole| && whole[..|front|] == front && whole[|front|..] == back
  {
  }

  /**
   * What a chunked step's outcome `r` on the bytes `b` in view means,
   * whatever `more` follows them: an error is the grammar's error, the last
   * chunk completes the grammar, and any other step takes the data the
   * grammar assigns to the bytes it consumed.
   */
  predicate StepFollows(state: ChunkedState, sizeParsed: nat, body: Bytes, fields: FieldMap, b: Bytes, more: Bytes,
                        r: Result<Step, BodyError>)
    requires StateOk(state, sizeParsed)
  {
    var p := b + more;
    match r
    case Err(err) => ChunkedFrom(state, sizeParsed, p) == Malformed(err)
    case Ok(st) =>
      st.consumed <= |b| && StateOk(st.state, st.sizeParsed) &&
      (st.done ==> st.body == body && ChunkedFrom(state, sizeParsed, p) == Complete([], st.consumed) &&
                   st.fields == fields[ContentLength := NatToDecimal(|body|)] - {TransferEncoding}) &&
      (!st.done ==> st.fields == fields && |body| <= |st.body| && st.body[..|body|] == body &&
                    ChunkedFrom(state, sizeParsed, p) ==
                      Prepend(st.body[|body|..], st.consumed, ChunkedFrom(st.state, st.sizeParsed, p[st.consumed..]))) &&
      (st.consumed == 0 && !st.done ==> !ChunkedFrom(state, sizeParsed, b).Complete?)
  }

  /** Whatever follows the bytes in view, one chunked step is a piece of the grammar. */
  lemma ChunkStepFollows(state: ChunkedState, sizeParsed: nat, body: Bytes, fields: FieldMap, b: Bytes, more: Bytes)
    requires StateOk(state, sizeParsed)
    ensures StepFollows(state, sizeParsed, body, fields, b, more, ChunkStep(state, sizeParsed, body, fields, b))
  {
    match FindCrlf(b)
    case None =>
      WaitStepFollows(state, sizeParsed, body, fields, b, more);
    case Some(e) =>
      match state
      case Size =>
        SizeCaseFollows(sizeParsed, body, fields, b, more, e);
      case Data(size) =>
        DataCaseFollows(size, sizeParsed, body, fields, b, more);
  }

  /** Without a CRLF in view a step waits, and the grammar cannot be complete on the bytes in view. */
  lemma WaitStepFollows(state: ChunkedState, sizeParsed: nat, body: Bytes, fields: FieldMap, b: Bytes, more: Bytes)
    requires StateOk(state, sizeParsed) && FindCrlf(b).None?
    ensures StepFollows(state, sizeParsed, body, fields, b, more, Ok(Step(state, sizeParsed, body, fields, 0, false)))
  {
    var p := b + more;
    WaitingIsNotComplete(state, sizeParsed, b);
    assert p[0..] == p;
    assert body[|body|..] == [];
    PrependNothing(ChunkedFrom(state, sizeParsed, p));
  }

  lemma SizeCaseFollows(sizeParsed: nat, body: Bytes, fields: FieldMap, b: Bytes, more: Bytes, e: nat)
    requires FindCrlf(b) == Some(e)
    ensures StepFollows(Size, sizeParsed, body, fields, b, more, SizeStep(body, fields, b, e))
  {
    SizeStepFollows(body, fields, b, more, e);
    assert body[|body|..] == [];
  }

  lemma DataCaseFollows(size: nat, sizeParsed: nat, body: Bytes, fields: FieldMap, b: Bytes, more: Bytes)
    requires sizeParsed <= size && 2 <= |b|
    ensures StepFollows(Data(size), sizeParsed, body, fields, b, more, DataStep(size, sizeParsed, body, fields, b))
  {
    DataStepFollows(size, sizeParsed, body, fields, b, more);
    DataMeansStep(size, sizeParsed, body, fields, b, more, DataStep(size, sizeParsed, body, fields, b));
  }

  /** A data step that follows the chunk's grammar follows the chunked grammar from its `Data` state. */
  lemma DataMeansStep(size: nat, sizeParsed: nat, body: Bytes, fields: FieldMap, b: Bytes, more: Bytes, r: Result<Step, BodyError>)
    requires sizeParsed <= size && DataFollows(size, sizeParsed, body, fields, b, more, r)
    ensures StepFollows(Data(size), sizeParsed, body, fields, b, more, r)
  {
  }

  /** A fixed-length step is a piece of the fixed-length grammar, whatever follows the bytes in view. */
  lemma FixedStepFollows(len: nat, body: Bytes, b: Bytes, more: Bytes)
    requires |body| <= len
    ensures var p := b + more;
      var (n, done, body') := FixedStep(len, body, b);
      n <= |b| && body' == body + p[..n] && |body'| <= len && (done <==> |body'| == len) &&
      FixedFrom(len - |body|, p) == Prepend(p[..n], n, FixedFrom(len - |body'|, p[n..])) &&
      (n == 0 && !done ==> b == [] && !FixedFrom(len - |body|, b).Complete?)
  {
    FixedStepMeaning(len, body, b);
    var p := b + more;
    var (n, done, body') := FixedStep(len, body, b);
    assert p[..n] == b[..n];
    var owed := len - |body|;
    if |p| >= owed {
      assert p[..owed] == p[..n] + p[n..][..owed - n];
    }
  }

  /**
   * What the contract of `BodyParser.ParseBody` says of one call, once the
   * framing is chosen: `r`, `body'`, `fields'`, `state'` and `sizeParsed'`
   * are what the call gives and leaves behind, `b` the bytes it was handed.
   */
  predicate Called(enc: Encoding, state: ChunkedState, sizeParsed: nat, body: Bytes, fields: FieldMap, b: Bytes,
                   r: Result<(nat, bool), BodyError>, body': Bytes, fields': FieldMap, state': ChunkedState, sizeParsed': nat)
    requires StateOk(state, sizeParsed)
  {
    (enc.Nothing? ==>
      var (n, done, grown) := FixedStep(enc.len, body, b);
      r == Ok((n, done)) && body' == grown && fields' == fields && state' == state && sizeParsed' == sizeParsed) &&
    (enc.Chunked? ==>
      match ChunkStep(state, sizeParsed, body, fields, b)
      case Ok(st) =>
        r == Ok((st.consumed, st.done)) && body' == st.body && fields' == st.fields &&
        state' == st.state && sizeParsed' == st.sizeParsed
      case Err(e) => r == Err(e))
  }

  /**
   * One call read against the grammar on `b + more`: an error is the
   * grammar's; a finished body completes it; otherwise the call took the
   * data the grammar assigns to the bytes it consumed; and a call that
   * consumed nothing saw no complete body in `b`.
   */
  predicate Stepped(enc: Encoding, state: ChunkedState, sizeParsed: nat, body: Bytes, fields: FieldMap, b: Bytes, more: Bytes,
                    r: Result<(nat, bool), BodyError>, body': Bytes, fields': FieldMap, state': ChunkedState, sizeParsed': nat)
    requires StateOk(state, sizeParsed) && (enc.Nothing? ==> |body| <= enc.len)
  {
    var p := b + more;
    (r.Err? ==> Remainder(enc, state, sizeParsed, |body|, p) == Malformed(r.error)) &&
    (r.Ok? ==>
      var (n, done) := r.value;
      n <= |b| && StateOk(state', sizeParsed') && (enc.Nothing? ==> |body'| <= enc.len) &&
      |body| <= |body'| && body'[..|body|] == body &&
      (done ==> fields' == FieldsAfter(enc, fields, body') &&
                Remainder(enc, state, sizeParsed, |body|, p) == Complete(body'[|body|..], n)) &&
      (!done ==> fields' == fields &&
                 Remainder(enc, state, sizeParsed, |body|, p) ==
                   Prepend(body'[|body|..], n, Remainder(enc, state', sizeParsed', |body'|, p[n..]))) &&
      (n == 0 && !done ==> body' == body && !Remainder(enc, state, sizeParsed, |body|, b).Complete? && (enc.Nothing? ==> b == [])))
  }

  /**
   * One call of `BodyParser::parse_body`, with the framing chosen, follows
   * the grammar whatever comes after the bytes `b` it was handed.
   */
  lemma ParseBodyFollows(enc: Encoding, state: ChunkedState, sizeParsed: nat, body: Bytes, fields: FieldMap,
                         b: Bytes, more: Bytes, r: Result<(nat, bool), BodyError>, body': Bytes, fields': FieldMap,
                         state': ChunkedState, sizeParsed': nat)
    requires StateOk(state, sizeParsed) && (enc.Nothing? ==> |body| <= enc.len)
    requires Called(enc, state, sizeParsed, body, fields, b, r, body', fields', state', sizeParsed')
    ensures Stepped(enc, state, sizeParsed, body, fields, b, more, r, body', fields', state', sizeParsed')
  {
    var p := b + more;
    if enc.Chunked? {
      ChunkStepFollows(state, sizeParsed, body, fields, b, more);
      if r.Ok? && r.value.1 {
        assert body'[|body|..] == [];
      }
    } else {
      FixedStepFollows(enc.len, body, b, more);
      var (n, done, grown) := FixedStep(enc.len, body, b);
      assert grown[|body|..] == p[..n];
      assert body'[..|body|] == body;
      if done {
        assert enc.len - |body'| == 0;
        assert FixedFrom(0, p[n..]) == Complete([], 0);
        assert p[..n] + [] == p[..n];
      }
    }
  }

  // ---------------------------------------------------------------------------
  // parse_body
  // ---------------------------------------------------------------------------

  /**
   * What `parse_body` may give for the body framed `enc` in `whole`, with
   * the bytes still pending after it and the fields it leaves: a body is
   * the one the grammar finds, and exactly the bytes it spans are gone; a
   * decoding error is the grammar's; `UnexpectedEof` comes only when the
   * grammar finds no complete body, or for a chunked body whose buffer
   * filled up (`full`) without the decoder taking anything.
   */
  predicate BodyOutcome(enc: Encoding, whole: Bytes, fields: FieldMap, r: Result<Bytes, BodyError>,
                        after: Bytes, fieldsNow: FieldMap, full: bool) {
    var f := BodyFrom(enc, whole);
    (r.Ok? ==> f.Complete? && r.value == f.data && after == whole[f.used..] && fieldsNow == FieldsAfter(enc, fields, f.data)) &&
    (r.Err? && r.error != UnexpectedEof ==> f == Malformed(r.error)) &&
    (r == Err(UnexpectedEof) ==> !f.Complete? || (enc.Chunked? && full))
  }

  /**
   * What the body loop keeps, over values: `pending` is what is left to
   * read, and after `body` (spanning `used` bytes) the rest of the
   * grammar's reading of `whole` is the reading of `pending` from where the
   * decoder stands.
   */
  predicate Reading(enc: Encoding, whole: Bytes, fields: FieldMap, body: Bytes, used: nat, pending: Bytes,
                    fieldsNow: FieldMap, state: ChunkedState, sizeParsed: nat) {
    StateOk(state, sizeParsed) && used <= |whole| && pending == whole[used..] && fieldsNow == fields &&
    (enc.Nothing? ==> |body| <= enc.len) &&
    BodyFrom(enc, whole) == Prepend(body, used, Remainder(enc, state, sizeParsed, |body|, pending))
  }

  /** The body loop's state in the objects. */
  ghost predicate Going(sr: StreamReader, headers: Headers, parser: BodyParser, enc: Encoding,
                        fields: FieldMap, whole: Bytes, body: Bytes, used: nat)
    reads sr, sr.buf, sr.reader, headers, parser
  {
    sr.Valid() && parser.encoding == Some(enc) &&
    Reading(enc, whole, fields, body, used, sr.Pending(), headers.fields, parser.chunkedState, parser.sizeParsed)
  }

  /** A call that finishes the body finishes the grammar's reading of `whole`. */
  lemma PassEnds(enc: Encoding, whole: Bytes, fields: FieldMap, body: Bytes, used: nat, b: Bytes, more: Bytes,
                 state: ChunkedState, sizeParsed: nat, n: nat, body': Bytes, fields': FieldMap, state': ChunkedState,
                 sizeParsed': nat)
    requires Reading(enc, whole, fields, body, used, b + more, fields, state, sizeParsed)
    requires Stepped(enc, state, sizeParsed, body, fields, b, more, Ok((n, true)), body', fields', state', sizeParsed')
    ensures BodyOutcome(enc, whole, fields, Ok(body'), (b + more)[n..], fields', false)
  {
    var p := b + more;
    assert body' == body + body'[|body|..];
    assert p[n..] == whole[used + n..];
    assert Prepend(body, used, Complete(body'[|body|..], n)) == Complete(body', used + n);
  }

  /** A call that leaves the body unfinished keeps the loop's state, `n` bytes further on. */
  lemma PassGoesOn(enc: Encoding, whole: Bytes, fields: FieldMap, body: Bytes, used: nat, b: Bytes, more: Bytes,
                   state: ChunkedState, sizeParsed: nat, n: nat, body': Bytes, fields': FieldMap, state': ChunkedState,
                   sizeParsed': nat)
    requires Reading(enc, whole, fields, body, used, b + more, fields, state, sizeParsed)
    requires Stepped(enc, state, sizeParsed, body, fields, b, more, Ok((n, false)), body', fields', state', sizeParsed')
    ensures Reading(enc, whole, fields, body', used + n, (b + more)[n..], fields', state', sizeParsed')
  {
    var p := b + more;
    assert body' == body + body'[|body|..];
    assert p[n..] == whole[used + n..];
    PrependPrepend(body, used, body'[|body|..], n, Remainder(enc, state', sizeParsed', |body'|, p[n..]));
  }

  /**
   * One call of the parser inside the loop, over values: an error is the
   * grammar's error, a finished body is the grammar's body, and otherwise
   * the loop's state holds after the bytes consumed.
   */
  lemma PassFollows(enc: Encoding, whole: Bytes, fields: FieldMap, body: Bytes, used: nat, b: Bytes, more: Bytes,
                    state: ChunkedState, sizeParsed: nat, r: Result<(nat, bool), BodyError>, body': Bytes,
                    fields': FieldMap, state': ChunkedState, sizeParsed': nat)
    requires Reading(enc, whole, fields, body, used, b + more, fields, state, sizeParsed)
    requires Stepped(enc, state, sizeParsed, body, fields, b, more, r, body', fields', state', sizeParsed')
    ensures r.Err? ==> BodyFrom(enc, whole) == Malformed(r.error)
    ensures r.Ok? ==> r.value.0 <= |b|
    ensures r.Ok? && r.value.1 ==>
      BodyOutcome(enc, whole, fields, Ok(body'), (b + more)[r.value.0..], fields', false)
    ensures r.Ok? && !r.value.1 ==>
      Reading(enc, whole, fields, body', used + r.value.0, (b + more)[r.value.0..], fields', state', sizeParsed')
    ensures r.Ok? && !r.value.1 && r.value.0 == 0 ==> body' == body && (more == [] ==> !BodyFrom(enc, whole).Complete?)
    ensures r.Ok? && !r.value.1 && r.value.0 == 0 && enc.Nothing? ==> b == []
  {
    if r.Ok? {
      var (n, done) := r.value;
      if done {
        PassEnds(enc, whole, fields, body, used, b, more, state, sizeParsed, n, body', fields', state', sizeParsed');
      } else {
        PassGoesOn(enc, whole, fields, body, used, b, more, state, sizeParsed, n, body', fields', state', sizeParsed');
        if n == 0 && more == [] {
          assert b + more == b;
        }
      }
    }
  }

  /**
   * The parser handed the buffered bytes, read against the grammar: an
   * error is the grammar's, a finished body is the grammar's body, and
   * otherwise the loop's state holds once the consumed bytes are gone.
   */
  method Decode(sr: StreamReader, headers: Headers, parser: BodyParser, enc: Encoding, body: Bytes,
                ghost fields: FieldMap, ghost whole: Bytes, ghost used: nat)
    returns (step: Result<(nat, bool), BodyError>, body': Bytes)
    requires Going(sr, headers, parser, enc, fields, whole, body, used)
    modifies headers, parser
    ensures parser.Valid() && parser.encoding == Some(enc)
    ensures step.Err? ==> BodyFrom(enc, whole) == Malformed(step.error)
    ensures step.Ok? ==> step.value.0 <= sr.read
    ensures step.Ok? && step.value.1 ==>
      BodyOutcome(enc, whole, fields, Ok(body'), sr.Pending()[step.value.0..], headers.fields, false)
    ensures step.Ok? && !step.value.1 ==>
      Reading(enc, whole, fields, body', used + step.value.0, sr.Pending()[step.value.0..], headers.fields,
              parser.chunkedState, parser.sizeParsed)
    ensures step.Ok? && !step.value.1 && step.value.0 == 0 ==>
      body' == body && (sr.reader.Remaining() == [] ==> !BodyFrom(enc, whole).Complete?) &&
      (enc.Nothing? ==> sr.read == 0)
  {
    var bytes := sr.buf[..sr.read];
    ghost var more := sr.reader.Remaining();
    ghost var state, sizeParsed := parser.chunkedState, parser.sizeParsed;
    step, body' := parser.ParseBody(body, headers, bytes);
    ParseBodyFollows(enc, state, sizeParsed, body, fields, bytes, more, step, body', headers.fields,
                     parser.chunkedState, parser.sizeParsed);
    PassFollows(enc, whole, fields, body, used, bytes, more, state, sizeParsed, step, body', headers.fields,
                parser.chunkedState, parser.sizeParsed);
  }

  /**
   * One pass of the loop in `parse_body`: the parser is handed the buffered
   * bytes; what it consumed is dropped; when it consumed nothing the buffer
   * is topped up from the reader, and a read of 0 ends with `UnexpectedEof`.
   */
  method BodyPass(sr: StreamReader, headers: Headers, parser: BodyParser, enc: Encoding, body: Bytes,
                  ghost fields: FieldMap, ghost whole: Bytes, ghost used: nat)
    returns (outcome: Option<Result<Bytes, BodyError>>, body': Bytes, ghost used': nat)
    requires Going(sr, headers, parser, enc, fields, whole, body, used)
    modifies sr, sr.buf, sr.reader, headers, parser
    ensures sr.Valid()
    ensures outcome.None? ==> Going(sr, headers, parser, enc, fields, whole, body', used')
    ensures outcome.None? ==>
      |sr.reader.Remaining()| < |old(sr.reader.Remaining())| ||
      (|sr.reader.Remaining()| == |old(sr.reader.Remaining())| && sr.read < old(sr.read))
    ensures outcome.Some? ==> BodyOutcome(enc, whole, fields, outcome.value, sr.Pending(), headers.fields, sr.read == BufferSize)
  {
    var step;
    step, body' := Decode(sr, headers, parser, enc, body, fields, whole, used);
    used' := used;
    if step.Err? {
      outcome := Some(Err(step.error));
      return;
    }
    var n := step.value.0;
    if step.value.1 {
      sr.Drop(n);
      used' := used + n;
      outcome := Some(Ok(body'));
      return;
    }
    outcome, used' := BodyGoesOn(sr, headers, parser, enc, body', fields, whole, used, n);
  }

  /**
   * The end of a pass that did not finish the body: `n` bytes are consumed
   * (a top-up when there were none), and a top-up that read nothing ends
   * the loop with `UnexpectedEof`.
   */
  method BodyGoesOn(sr: StreamReader, headers: Headers, parser: BodyParser, enc: Encoding, body: Bytes,
                    ghost fields: FieldMap, ghost whole: Bytes, ghost used: nat, n: nat)
    returns (outcome: Option<Result<Bytes, BodyError>>, ghost used': nat)
    requires sr.Valid() && n <= sr.read && parser.encoding == Some(enc)
    requires Reading(enc, whole, fields, body, used + n, sr.Pending()[n..], headers.fields,
                     parser.chunkedState, parser.sizeParsed)
    requires n == 0 ==> (sr.reader.Remaining() == [] ==> !BodyFrom(enc, whole).Complete?) && (enc.Nothing? ==> sr.read == 0)
    modifies sr, sr.buf, sr.reader
    ensures sr.Valid()
    ensures outcome.None? ==> Going(sr, headers, parser, enc, fields, whole, body, used')
    ensures outcome.None? ==>
      |sr.reader.Remaining()| < |old(sr.reader.Remaining())| ||
      (|sr.reader.Remaining()| == |old(sr.reader.Remaining())| && sr.read < old(sr.read))
    ensures outcome.Some? ==> BodyOutcome(enc, whole, fields, outcome.value, sr.Pending(), headers.fields, sr.read == BufferSize)
  {
    var eof := Consume(sr, n);
    used' := used + n;
    outcome := if eof then Some(Err(UnexpectedEof)) else None;
  }

  /**
   * The end of a pass that did not finish the body: the `n` consumed bytes
   * are dropped, and when there were none the buffer is topped up; `eof`
   * is a top-up that read nothing. Either way the bytes to come are the
   * same, less the dropped ones, and short of `eof` the pass made progress.
   */
  method Consume(sr: StreamReader, n: nat) returns (eof: bool)
    requires sr.Valid() && n <= sr.read
    modifies sr, sr.buf, sr.reader
    ensures sr.Valid() && sr.Pending() == old(sr.Pending())[n..]
    ensures eof ==> n == 0 && sr.read == old(sr.read) && (sr.reader.Remaining() == [] || sr.read == BufferSize)
    ensures !eof ==>
      |sr.reader.Remaining()| < |old(sr.reader.Remaining())| ||
      (|sr.reader.Remaining()| == |old(sr.reader.Remaining())| && sr.read < old(sr.read))
  {
    sr.Drop(n);
    eof := false;
    if n == 0 {
      var k := sr.Fill();
      eof := k == 0;
    }
  }

  /**
   * `parse_body(&mut headers, &mut reader)`, as assumed above: the framing
   * is chosen from the fields (an error there comes back unchanged), then
   * passes run until the body is complete or an error ends them.
   */
  method ReadBody(sr: StreamReader, headers: Headers) returns (r: Result<Bytes, BodyError>)
    requires sr.Valid()
    modifies sr, sr.buf, sr.reader, headers
    ensures sr.Valid()
    ensures var enc := EncodingFor(old(headers.fields));
      enc.Err? ==> r == Err(enc.error) && headers.fields == old(headers.fields) && sr.Pending() == old(sr.Pending())
    ensures var enc := EncodingFor(old(headers.fields));
      enc.Ok? ==> BodyOutcome(enc.value, old(sr.Pending()), old(headers.fields), r, sr.Pending(), headers.fields,
                              sr.read == BufferSize)
  {
    ghost var whole := sr.Pending();
    ghost var fields := headers.fields;
    var parser := new BodyParser();
    var chosen := parser.SetEncoding(headers);
    if chosen.Err? {
      return Err(chosen.error);
    }
    var enc := parser.encoding.value;
    var body: Bytes := [];
    ghost var used: nat := 0;
    assert whole[0..] == whole;
    PrependNothing(BodyFrom(enc, whole));
    while true
      invariant Going(sr, headers, parser, enc, fields, whole, body, used)
      decreases |sr.reader.Remaining()|, sr.read
    {
      var outcome;
      outcome, body, used := BodyPass(sr, headers, parser, enc, body, fields, whole, used);
      if outcome.Some? {
        return outcome.value;
      }
    }
  }

  // ---------------------------------------------------------------------------
  // Connection::read
  // ---------------------------------------------------------------------------

  /** The head of a request: its request line, its fields, and the number of bytes it spans. */
  datatype Head = Head(line: RequestLine, fields: FieldMap, size: nat)

  /**
   * What reading the head of one request from the bytes `s` to come should
   * give: the request line up to the first CRLF, then field lines up to the
   * empty line.
   */
  function HeadFrom(s: Bytes): (r: Result<Head, RequestError>)
    ensures r.Ok? ==> 4 <= r.value.size <= |s|
  {
    match FindCrlf(s)
    case None => Err(StreamErr(Eof))
    case Some(i) => FromRequestLine(FromLine(s[..i]), s[i + 2..], i + 2)
  }

  /** The rest of `HeadFrom` once the request line, `k` bytes long, reads as `line`. */
  function FromRequestLine(line: Result<RequestLine, RequestLineError>, s: Bytes, k: nat): (r: Result<Head, RequestError>)
    ensures r.Ok? ==> k + 2 <= r.value.size <= k + |s|
  {
    match line
    case Err(e) => Err(RequestLineErr(e))
    case Ok(l) => FromFieldBlock(l, ParseBlock(s, map[]), k)
  }

  /** The rest of `HeadFrom` once the field lines after a head of `k` bytes so far read as `block`. */
  function FromFieldBlock(l: RequestLine, block: Result<Option<(FieldMap, nat)>, HeadersError>, k: nat)
    : (r: Result<Head, RequestError>)
    ensures r.Ok? ==> r.value.line == l && r.value.size >= k
  {
    match block
    case Err(e) => Err(HeaderErr(e))
    case Ok(None) => Err(StreamErr(Eof))
    case Ok(Some((fields, n))) => Ok(Head(l, fields, k + n))
  }

  /**
   * What reading one request from the bytes `s` to come should give: the
   * head, then the body its framing asks for; with the request, the number
   * of bytes it spans.
   */
  function RequestFrom(s: Bytes): (r: Result<(Request, nat), RequestError>)
    ensures r.Ok? ==> HeadFrom(s).Ok? && HeadFrom(s).value.size <= r.value.1 <= |s|
    ensures HeadFrom(s).Err? ==> r == Err(HeadFrom(s).error)
  {
    match HeadFrom(s)
    case Err(e) => Err(e)
    case Ok(h) => FromFraming(h.line, h.fields, EncodingFor(h.fields), s[h.size..], h.size)
  }

  /** The rest of `RequestFrom` once the fields are known and frame the body as `enc`. */
  function FromFraming(l: RequestLine, fields: FieldMap, enc: Result<Encoding, BodyError>, s: Bytes, k: nat)
    : (r: Result<(Request, nat), RequestError>)
    ensures r.Ok? ==> k <= r.value.1 <= k + |s|
  {
    match enc
    case Err(e) => Err(BodyErr(e))
    case Ok(enc) =>
      match BodyFrom(enc, s)
      case Complete(data, used) => Ok((Request(l, FieldsAfter(enc, fields, data), data), k + used))
      case Incomplete => Err(BodyErr(UnexpectedEof))
      case Malformed(e) => Err(BodyErr(e))
  }

  /**
   * What the field loop may give for the field lines read as `block`:
   * an error is the block's; a block cut short by the end of the stream is
   * `EOF`; a whole block leaves its map and exactly the bytes after it.
   */
  predicate FieldsRead(block: Result<Option<(FieldMap, nat)>, HeadersError>, r: Result<(), RequestError>,
                       fields: FieldMap, before: Bytes, after: Bytes) {
    match block
    case Err(e) => r == Err(HeaderErr(e))
    case Ok(None) => r == Err(StreamErr(Eof))
    case Ok(Some((m, n))) => r == Ok(()) && fields == m && n <= |before| && after == before[n..]
  }

  /** With no CRLF left the block is incomplete. */
  lemma BlockCutShort(p: Bytes, acc: FieldMap)
    requires FindCrlf(p).None?
    ensures ParseBlock(p, acc) == Ok(None)
  {
  }

  /** An empty line first ends the block there. */
  lemma BlockEnds(p: Bytes, acc: FieldMap)
    requires FindCrlf(p) == Some(0)
    ensures ParseBlock(p, acc) == Ok(Some((acc, 2)))
  {
    assert p[..0] == [];
  }

  /** A malformed first line is the block's error. */
  lemma BlockRefused(p: Bytes, acc: FieldMap, i: nat)
    requires FindCrlf(p) == Some(i) && FieldOf(p[..i]).Err?
    ensures ParseBlock(p, acc) == Err(FieldOf(p[..i]).error)
  {
  }

  /** A field line first adds its field, and the block reads on after its CRLF. */
  lemma BlockGoesOn(p: Bytes, acc: FieldMap, i: nat)
    requires FindCrlf(p) == Some(i) && FieldOf(p[..i]).Ok? && FieldOf(p[..i]).value.Field?
    ensures ParseBlock(p, acc) == After(ParseBlock(p[i + 2..], MapAdd(acc, FieldOf(p[..i]).value.name, FieldOf(p[..i]).value.value)), i + 2)
  {
    var f := FieldOf(p[..i]).value;
    FieldLineGoesOn(p, acc, ParseFieldLine(p), f.name, f.value, i + 2);
  }

  /** A field line of `size` bytes at the head of `p` is added, and the block goes on after it. */
  lemma FieldLineGoesOn(p: Bytes, acc: FieldMap, line: Result<FieldLine, HeadersError>, name: Bytes, value: Bytes, size: nat)
    requires line == ParseFieldLine(p) && line == Ok(Field(name, value, size))
    ensures ParseBlock(p, acc) == After(ParseBlock(p[size..], MapAdd(acc, name, value)), size)
  {
    assert ParseBlock(p, acc) == ParseBlockFrom(p, acc, line);
  }

  /** A block `used` bytes on, itself `k` bytes on from the block of `q`, is that block `used'` bytes on. */
  lemma AheadMoves(target: Result<Option<(FieldMap, nat)>, HeadersError>, whole: Bytes, p: Bytes,
                   block: Result<Option<(FieldMap, nat)>, HeadersError>, q: Bytes, fields: FieldMap, used: nat, k: nat, used': nat)
    requires used <= |whole| && p == whole[used..] && target == After(block, used)
    requires 0 < k <= |p| && q == p[k..] && block == After(ParseBlock(q, fields), k) && used' == used + k
    ensures |q| < |p| && BlockAhead(target, whole, q, fields, used')
  {
    assert whole[used..][k..] == whole[used + k..];
  }

  /** The block read `used` bytes on ends where the stream reader stands. */
  lemma BlockRead(target: Result<Option<(FieldMap, nat)>, HeadersError>, block: Result<Option<(FieldMap, nat)>, HeadersError>,
                  used: nat, whole: Bytes, p: Bytes, r: Result<(), RequestError>, fields: FieldMap, after: Bytes)
    requires target == After(block, used) && used <= |whole| && p == whole[used..]
    requires FieldsRead(block, r, fields, p, after)
    ensures FieldsRead(target, r, fields, whole, after)
  {
    if block.Ok? && block.value.Some? {
      assert after == whole[used + block.value.value.1..];
    }
  }

  /**
   * One pass of the field loop: a line is read; the empty line or an error
   * ends the loop, a field line is added and `k` bytes are used.
   */
  method FieldPass(sr: StreamReader, headers: Headers) returns (done: bool, r: Result<(), RequestError>, ghost k: nat)
    requires sr.Valid()
    modifies sr, sr.buf, sr.reader, headers
    ensures sr.Valid()
    ensures done ==> FieldsRead(ParseBlock(old(sr.Pending()), old(headers.fields)), r, headers.fields, old(sr.Pending()), sr.Pending())
    ensures !done ==>
      0 < k <= |old(sr.Pending())| && sr.Pending() == old(sr.Pending())[k..] &&
      ParseBlock(old(sr.Pending()), old(headers.fields)) == After(ParseBlock(sr.Pending(), headers.fields), k)
  {
    ghost var p := sr.Pending();
    ghost var acc := headers.fields;
    k := 0;
    var line := sr.ReadLine();
    if line.Err? || line.value == [] {
      r := if line.Err? then Err(StreamErr(line.error)) else Ok(());
      LineEnds(p, acc, line, r, sr.Pending());
      return true, r, k;
    }
    var l := line.value;
    ghost var i := |l|;
    ghost var rest := sr.Pending();
    assert rest == p[i + 2..];
    done, r := FieldLine(headers, l, p, acc, rest);
    k := i + 2;
  }

  /** A line that could not be read, or the empty line, ends the block as the grammar says. */
  lemma LineEnds(p: Bytes, acc: FieldMap, line: Result<Bytes, StreamError>, r: Result<(), RequestError>, after: Bytes)
    requires match FindCrlf(p)
      case Some(i) => line == Ok(p[..i]) && after == p[i + 2..]
      case None => line == Err(Eof)
    requires line.Err? || line.value == []
    requires r == if line.Err? then Err(StreamErr(line.error)) else Ok(())
    ensures FieldsRead(ParseBlock(p, acc), r, acc, p, after)
  {
    if line.Err? {
      BlockCutShort(p, acc);
    } else {
      BlockEnds(p, acc);
    }
  }

  /** A non-empty line `l` at the head of `p`: its field is added, or the block is refused. */
  method FieldLine(headers: Headers, l: Bytes, ghost p: Bytes, ghost acc: FieldMap, ghost after: Bytes)
    returns (done: bool, r: Result<(), RequestError>)
    requires l != [] && FindCrlf(p) == Some(|l|) && l == p[..|l|] && after == p[|l| + 2..] && headers.fields == acc
    modifies headers
    ensures done ==> FieldsRead(ParseBlock(p, acc), r, headers.fields, p, after)
    ensures !done ==> ParseBlock(p, acc) == After(ParseBlock(after, headers.fields), |l| + 2)
  {
    var parsed := headers.ParseOneFromLine(l);
    if parsed.Err? {
      BlockRefused(p, acc, |l|);
      return true, Err(HeaderErr(parsed.error));
    }
    BlockGoesOn(p, acc, |l|);
    assert headers.fields == MapAdd(acc, FieldOf(l).value.name, FieldOf(l).value.value);
    return false, Ok(());
  }

  /** One pass of the field loop, placed in the block of `whole`: it ends, or goes on with fewer bytes pending. */
  method FieldsStep(sr: StreamReader, headers: Headers, ghost target: Result<Option<(FieldMap, nat)>, HeadersError>,
                    ghost whole: Bytes, ghost used: nat)
    returns (done: bool, r: Result<(), RequestError>, ghost used': nat)
    requires sr.Valid() && BlockAhead(target, whole, sr.Pending(), headers.fields, used)
    modifies sr, sr.buf, sr.reader, headers
    ensures sr.Valid()
    ensures done ==> FieldsRead(target, r, headers.fields, whole, sr.Pending())
    ensures !done ==> |sr.Pending()| < old(|sr.Pending()|) && BlockAhead(target, whole, sr.Pending(), headers.fields, used')
  {
    ghost var p := sr.Pending();
    ghost var block := ParseBlock(p, headers.fields);
    ghost var k;
    done, r, k := FieldPass(sr, headers);
    used' := used + k;
    if done {
      BlockRead(target, block, used, whole, p, r, headers.fields, sr.Pending());
    } else {
      AheadMoves(target, whole, p, block, sr.Pending(), headers.fields, used, k, used');
    }
  }

  /**
   * The field loop of `read`: lines are read until the empty one, and each
   * other line goes to `parse_one_from_line`.
   */
  method ReadFields(sr: StreamReader, headers: Headers) returns (r: Result<(), RequestError>)
    requires sr.Valid()
    modifies sr, sr.buf, sr.reader, headers
    ensures sr.Valid()
    ensures FieldsRead(ParseBlock(old(sr.Pending()), old(headers.fields)), r, headers.fields, old(sr.Pending()), sr.Pending())
  {
    ghost var whole := sr.Pending();
    ghost var target := ParseBlock(whole, headers.fields);
    ghost var used: nat := 0;
    assert whole[0..] == whole;
    while true
      invariant sr.Valid()
      invariant BlockAhead(target, whole, sr.Pending(), headers.fields, used)
      decreases |sr.Pending()|
    {
      var done;
      done, r, used := FieldsStep(sr, headers, target, whole, used);
      if done {
        return;
      }
    }
  }

  /** The block `target` of `whole` is what is left of it in `p`, `used` bytes on. */
  ghost predicate BlockAhead(target: Result<Option<(FieldMap, nat)>, HeadersError>, whole: Bytes, p: Bytes, fields: FieldMap, used: nat) {
    used <= |whole| && p == whole[used..] && target == After(ParseBlock(p, fields), used)
  }

  /**
   * What `read` may give for the bytes `s` to come: a request is the one
   * `RequestFrom` finds, and exactly the bytes it spans are gone; an error
   * is the one `RequestFrom` finds, except that a body cut short may show
   * as `UnexpectedEof` in place of a decoding error, and a chunked body
   * may end that way when the buffer is `full`.
   */
  predicate RequestRead(s: Bytes, r: Result<Request, RequestError>, after: Bytes, full: bool) {
    var f := RequestFrom(s);
    (r.Ok? ==> f.Ok? && r.value == f.value.0 && after == s[f.value.1..]) &&
    (r.Err? && r.error != BodyErr(UnexpectedEof) ==> f == Err(r.error)) &&
    (r == Err(BodyErr(UnexpectedEof)) ==> (f.Err? && f.error.BodyErr?) || full)
  }

  /** The body half of `RequestFrom`, read against what `parse_body` gave. */
  lemma FramingRead(l: RequestLine, fields: FieldMap, s: Bytes, k: nat, r: Result<Bytes, BodyError>,
                    after: Bytes, fieldsNow: FieldMap, full: bool)
    requires EncodingFor(fields).Ok? ==> BodyOutcome(EncodingFor(fields).value, s, fields, r, after, fieldsNow, full)
    requires EncodingFor(fields).Err? ==> r == Err(EncodingFor(fields).error)
    ensures var f := FromFraming(l, fields, EncodingFor(fields), s, k);
      (r.Ok? ==> f.Ok? && f.value.0 == Request(l, fieldsNow, r.value) && f.value.1 >= k && after == s[f.value.1 - k..]) &&
      (r.Err? && r.error != UnexpectedEof ==> f == Err(BodyErr(r.error))) &&
      (r == Err(UnexpectedEof) ==> (f.Err? && f.error.BodyErr?) || full)
  {
  }

  /**
   * What reading the head (request line and field lines) may give for the
   * bytes `s`: an error is `HeadFrom`'s, and a request line leaves the
   * fields read and the `k` bytes of the head behind, the body still to come.
   */
  predicate HeadRead(s: Bytes, r: Result<RequestLine, RequestError>, fields: FieldMap, k: int, after: Bytes) {
    var h := HeadFrom(s);
    (r.Err? ==> h.Err? && h.error == r.error) &&
    (r.Ok? ==> h.Ok? && h.value.line == r.value && h.value.fields == fields && h.value.size == k && after == s[k..])
  }

  /** Bytes without a CRLF hold no request line. */
  lemma HeadCutShort(s: Bytes, fields: FieldMap, k: int, after: Bytes)
    requires FindCrlf(s).None?
    ensures HeadRead(s, Err(StreamErr(Eof)), fields, k, after)
  {
  }

  /** A request line that does not parse is the request's error. */
  lemma LineRefused(s: Bytes, i: nat, fields: FieldMap, k: int, after: Bytes)
    requires FindCrlf(s) == Some(i) && FromLine(s[..i]).Err?
    ensures HeadRead(s, Err(RequestLineErr(FromLine(s[..i]).error)), fields, k, after)
  {
  }

  /** After a good request line, `HeadFrom` goes on to the field block. */
  lemma LineTaken(s: Bytes, i: nat, l: RequestLine)
    requires FindCrlf(s) == Some(i) && FromLine(s[..i]) == Ok(l)
    ensures HeadFrom(s) == FromFieldBlock(l, ParseBlock(s[i + 2..], map[]), i + 2)
  {
    var p := s[i + 2..];
    calc {
      HeadFrom(s);
      FromRequestLine(FromLine(s[..i]), p, i + 2);
      FromFieldBlock(l, ParseBlock(p, map[]), i + 2);
    }
  }

  /** What the field loop gave, read against the rest of `HeadFrom`. */
  lemma BlockTaken(l: RequestLine, block: Result<Option<(FieldMap, nat)>, HeadersError>, p: Bytes, k: nat,
                   r: Result<(), RequestError>, fields: FieldMap, after: Bytes)
    requires FieldsRead(block, r, fields, p, after)
    ensures r.Err? ==> FromFieldBlock(l, block, k) == Err(r.error)
    ensures r.Ok? ==>
      |after| <= |p| && after == p[|p| - |after|..] && FromFieldBlock(l, block, k) == Ok(Head(l, fields, k + |p| - |after|))
  {
  }

  /** The field loop after a good request line ends the head. */
  lemma HeadEnds(s: Bytes, i: nat, l: RequestLine, r: Result<(), RequestError>, fields: FieldMap, after: Bytes)
    requires FindCrlf(s) == Some(i) && FromLine(s[..i]) == Ok(l)
    requires FieldsRead(ParseBlock(s[i + 2..], map[]), r, fields, s[i + 2..], after)
    ensures HeadRead(s, if r.Err? then Err(r.error) else Ok(l), fields, |s| - |after|, after)
  {
    if r.Err? {
      HeadFails(s, i, l, r, fields, after);
    } else {
      HeadHolds(s, i, l, r, fields, after);
    }
  }

  /** A field loop that failed fails the head. */
  lemma HeadFails(s: Bytes, i: nat, l: RequestLine, r: Result<(), RequestError>, fields: FieldMap, after: Bytes)
    requires FindCrlf(s) == Some(i) && FromLine(s[..i]) == Ok(l) && r.Err?
    requires FieldsRead(ParseBlock(s[i + 2..], map[]), r, fields, s[i + 2..], after)
    ensures HeadFrom(s).Err? && HeadFrom(s).error == r.error
  {
    LineTaken(s, i, l);
    BlockTaken(l, ParseBlock(s[i + 2..], map[]), s[i + 2..], i + 2, r, fields, after);
  }

  /** A field loop that ended the block ends the head there, the bytes after it left. */
  lemma HeadHolds(s: Bytes, i: nat, l: RequestLine, r: Result<(), RequestError>, fields: FieldMap, after: Bytes)
    requires FindCrlf(s) == Some(i) && FromLine(s[..i]) == Ok(l) && r.Ok?
    requires FieldsRead(ParseBlock(s[i + 2..], map[]), r, fields, s[i + 2..], after)
    ensures HeadFrom(s).Ok? && HeadFrom(s).value.line == l && HeadFrom(s).value.fields == fields
    ensures |after| <= |s| && HeadFrom(s).value.size == |s| - |after| && after == s[|s| - |after|..]
  {
    AfterBlock(s, i + 2, r, fields, after);
    HeadSize(s, i, l, fields, |after|);
  }

  /** A whole field block from `j` on, read into `fields`, leaves the bytes after it. */
  lemma AfterBlock(s: Bytes, j: nat, r: Result<(), RequestError>, fields: FieldMap, after: Bytes)
    requires j <= |s| && r.Ok? && FieldsRead(ParseBlock(s[j..], map[]), r, fields, s[j..], after)
    ensures ParseBlock(s[j..], map[]).Ok? && ParseBlock(s[j..], map[]).value.Some?
    ensures ParseBlock(s[j..], map[]).value.value.0 == fields
    ensures ParseBlock(s[j..], map[]).value.value.1 == |s| - j - |after|
    ensures |after| <= |s| - j && after == s[|s| - |after|..]
  {
    var n := ParseBlock(s[j..], map[]).value.value.1;
    SliceOfSlice(s, j, n);
    assert |s| - |after| == j + n;
  }

  /** A request line, then a whole field block that leaves `rest` bytes, make a head of all the other bytes. */
  lemma HeadSize(s: Bytes, i: nat, l: RequestLine, fields: FieldMap, rest: nat)
    requires FindCrlf(s) == Some(i) && FromLine(s[..i]) == Ok(l) && rest <= |s| - (i + 2)
    requires ParseBlock(s[i + 2..], map[]).Ok? && ParseBlock(s[i + 2..], map[]).value.Some?
    requires ParseBlock(s[i + 2..], map[]).value.value.0 == fields
    requires ParseBlock(s[i + 2..], map[]).value.value.1 == |s| - (i + 2) - rest
    ensures HeadFrom(s).Ok? && HeadFrom(s).value.line == l && HeadFrom(s).value.fields == fields
    ensures HeadFrom(s).value.size == |s| - rest
  {
    LineTaken(s, i, l);
  }

  /** The request line and the field lines of `read`, into a new map. */
  method ReadHead(sr: StreamReader) returns (r: Result<RequestLine, RequestError>, headers: Headers)
    requires sr.Valid()
    modifies sr, sr.buf, sr.reader
    ensures sr.Valid() && fresh(headers)
    ensures HeadRead(old(sr.Pending()), r, headers.fields, |old(sr.Pending())| - |sr.Pending()|, sr.Pending())
  {
    ghost var s := sr.Pending();
    headers := new Headers();
    var first := sr.ReadLine();
    if first.Err? {
      HeadCutShort(s, headers.fields, |s| - |sr.Pending()|, sr.Pending());
      return Err(StreamErr(Eof)), headers;
    }
    ghost var i := |first.value|;
    var line := FromLine(first.value);
    if line.Err? {
      LineRefused(s, i, headers.fields, |s| - |sr.Pending()|, sr.Pending());
      return Err(RequestLineErr(line.error)), headers;
    }
    r := FieldsOfHead(sr, headers, line.value, s, i);
  }

  /**
   * The field lines of `read` after the request line `l`, which took the
   * first `i + 2` bytes of `s`: the head ends as `RequestFrom` reads it.
   */
  method FieldsOfHead(sr: StreamReader, headers: Headers, l: RequestLine, ghost s: Bytes, ghost i: nat)
    returns (r: Result<RequestLine, RequestError>)
    requires sr.Valid() && headers.fields == map[]
    requires FindCrlf(s) == Some(i) && FromLine(s[..i]) == Ok(l) && sr.Pending() == s[i + 2..]
    modifies sr, sr.buf, sr.reader, headers
    ensures sr.Valid()
    ensures HeadRead(s, r, headers.fields, |s| - |sr.Pending()|, sr.Pending())
  {
    var fieldsRead := ReadFields(sr, headers);
    HeadEnds(s, i, l, fieldsRead, headers.fields, sr.Pending());
    r := if fieldsRead.Err? then Err(fieldsRead.error) else Ok(l);
  }

  /** The body read after a head puts together what `RequestFrom` finds. */
  lemma RequestAfterHead(s: Bytes, l: RequestLine, fields: FieldMap, k: int, after: Bytes, body: Result<Bytes, BodyError>,
                         rest: Bytes, fieldsNow: FieldMap, full: bool, r: Result<Request, RequestError>)
    requires HeadRead(s, Ok(l), fields, k, after)
    requires EncodingFor(fields).Ok? ==> BodyOutcome(EncodingFor(fields).value, after, fields, body, rest, fieldsNow, full)
    requires EncodingFor(fields).Err? ==> body == Err(EncodingFor(fields).error)
    requires r == if body.Err? then Err(BodyErr(body.error)) else Ok(Request(l, fieldsNow, body.value))
    ensures RequestRead(s, r, rest, full)
  {
    FramingRead(l, fields, after, k, body, rest, fieldsNow, full);
    if body.Ok? {
      var f := FromFraming(l, fields, EncodingFor(fields), after, k);
      assert rest == s[f.value.1..];
    }
  }

  /** A head that fails is the request's error, wherever the stream reader stands. */
  lemma HeadErrRead(s: Bytes, r: Result<Request, RequestError>, fields: FieldMap, k: int, after: Bytes, full: bool)
    requires r.Err? && HeadRead(s, Err(r.error), fields, k, after)
    ensures RequestRead(s, r, after, full)
  {
  }

  /** A request that the bytes hold in full is read, unless a chunk outgrew a full buffer. */
  lemma ReadSucceeds(s: Bytes, r: Result<Request, RequestError>, after: Bytes, full: bool)
    requires RequestRead(s, r, after, full) && RequestFrom(s).Ok? && !full
    ensures r == Ok(RequestFrom(s).value.0) && after == s[RequestFrom(s).value.1..]
  {
  }

  /** Bytes that hold no whole request never read as one. */
  lemma ReadFails(s: Bytes, r: Result<Request, RequestError>, after: Bytes, full: bool)
    requires RequestRead(s, r, after, full) && RequestFrom(s).Err?
    ensures r.Err? && (r.error != BodyErr(UnexpectedEof) ==> r.error == RequestFrom(s).error)
  {
  }

  /** Without `Transfer-Encoding` or `Content-Length` the body is empty and nothing past the head is used. */
  lemma NoFramingEmptyRequest(l: RequestLine, fields: FieldMap, s: Bytes, k: nat)
    requires Lookup(fields, TransferEncoding).None? && Lookup(fields, ContentLength).None?
    ensures FromFraming(l, fields, EncodingFor(fields), s, k) == Ok((Request(l, fields, []), k))
  {
    assert BodyFrom(Nothing(0), s) == Complete([], 0);
  }

  /** A `Content-Length` longer than what is left ends the read with `UnexpectedEof`. */
  lemma ShortBodyRefused(l: RequestLine, fields: FieldMap, s: Bytes, k: nat, n: nat)
    requires EncodingFor(fields) == Ok(Nothing(n)) && |s| < n
    ensures FromFraming(l, fields, EncodingFor(fields), s, k) == Err(BodyErr(UnexpectedEof))
  {
  }

  /**
   * A connection that reads requests and sends responses: a stream reader
   * over the peer's bytes, and the bytes written to the peer so far.
   */
  class Connection {
    const reader: StreamReader
    var written: Bytes

    predicate Valid()
      reads this, reader, reader.reader
    {
      reader.Valid()
    }

    /** `new`: a stream reader around the source, nothing written yet. */
    constructor (source: ChunkReader)
      requires source.Valid()
      ensures Valid() && fresh(reader) && reader.reader == source
      ensures reader.Pending() == source.Remaining() && written == []
    {
      reader := new StreamReader(source);
      written := [];
    }

    /**
     * `read`: the request line, the field lines into a new map, then the
     * body; the request is the one `RequestFrom` finds in the bytes to come.
     */
    method Read() returns (r: Result<Request, RequestError>)
      requires Valid()
      modifies reader, reader.buf, reader.reader
      ensures Valid()
      ensures RequestRead(old(reader.Pending()), r, reader.Pending(), reader.read == BufferSize)
    {
      ghost var s := reader.Pending();
      var line, headers := ReadHead(reader);
      if line.Err? {
        r := Err(line.error);
        HeadErrRead(s, r, headers.fields, |s| - |reader.Pending()|, reader.Pending(), reader.read == BufferSize);
        return;
      }
      ghost var after := reader.Pending();
      ghost var fields := headers.fields;
      var body := ReadBody(reader, headers);
      r := if body.Err? then Err(BodyErr(body.error)) else Ok(Request(line.value, headers.fields, body.value));
      RequestAfterHead(s, line.value, fields, |s| - |after|, after, body, reader.Pending(), headers.fields,
                       reader.read == BufferSize, r);
    }

    /**
     * `respond`: the response's `write_to` goes to the peer, framing its
     * body with `Content-Length`; flushing adds nothing.
     */
    method Respond(response: Response)
      requires Valid()
      modifies this, response.headers
      ensures Valid()
      ensures written == old(written) + Wire(response.statusLine, old(response.headers.fields), response.body)
      ensures response.headers.fields == Responses.Framed(old(response.headers.fields), response.body)
    {
      var out := response.WriteTo();
      written := written + out;
    }
  }

  // ---------------------------------------------------------------------------
  // The chunked grammar reads back the chunked coding
  // ---------------------------------------------------------------------------

  /** A size line holding `n`, then `n` bytes of data and a CRLF: the data comes first, whatever follows. */
  lemma OneChunkRead(line: Bytes, chunk: Bytes, tail: Bytes)
    requires 0 < |chunk| && ParseHex(line) == Some(|chunk|) && CR !in line
    ensures ChunksFrom(line + CRLF + chunk + CRLF + tail) == Prepend(chunk, |line| + |chunk| + 4, ChunksFrom(tail))
  {
    var rest := chunk + CRLF + tail;
    JoinLastThree(line, CRLF, chunk, CRLF, tail);
    ChunkHeadRead(line, |chunk|, rest);
    ChunkDataRead(chunk, tail);
    PrependPrepend([], |line| + 2, chunk, |chunk| + 2, ChunksFrom(tail));
  }

  /** A size line holding `n > 0` opens a chunk of `n` bytes, whatever follows. */
  lemma ChunkHeadRead(line: Bytes, n: nat, rest: Bytes)
    requires 0 < n && ParseHex(line) == Some(n) && CR !in line
    ensures ChunksFrom(line + CRLF + rest) == Prepend([], |line| + 2, ChunkDataFrom(n, rest))
  {
    var s := line + CRLF + rest;
    SizeLineFound(line, rest);
    SizeLineRead(s, |line|, n);
    assert s[|line| + 2..] == rest;
  }

  /** A chunk's data followed by CRLF closes the chunk, whatever follows. */
  lemma ChunkDataRead(chunk: Bytes, tail: Bytes)
    ensures ChunkDataFrom(|chunk|, chunk + CRLF + tail) == Prepend(chunk, |chunk| + 2, ChunksFrom(tail))
  {
    var rest := chunk + CRLF + tail;
    assert rest[..|chunk|] == chunk && rest[|chunk| + 2..] == tail;
    ChunkEndRead(|chunk|, rest);
  }

  /** A size line holding 0 ends the body after its CRLF, whatever follows. */
  lemma LastChunkRead(line: Bytes, tail: Bytes)
    requires ParseHex(line) == Some(0) && CR !in line
    ensures ChunksFrom(line + CRLF + tail) == Complete([], |line| + 2)
  {
    SizeLineFound(line, tail);
    SizeLineRead(line + CRLF + tail, |line|, 0);
  }

  /** A line without CR is cut at the CRLF after it. */
  lemma SizeLineFound(line: Bytes, rest: Bytes)
    requires CR !in line
    ensures FindCrlf(line + CRLF + rest) == Some(|line|) && (line + CRLF + rest)[..|line|] == line
  {
    NoCrCrlfFree(line);
    if |line| > 0 {
      assert line[|line| - 1] in line;
    }
    FindCrlfOfLine(line, rest);
  }

  /**
   * The chunked coding of non-empty chunks, then the last chunk, reads as
   * the chunks joined together, spanning exactly the coding.
   */
  lemma {:induction false} ChunksFromCoding(chunks: seq<Bytes>, rest: Bytes)
    requires forall k :: 0 <= k < |chunks| ==> 0 < |chunks[k]| <= USIZE_MAX
    ensures ChunksFrom(ChunkedCoding(chunks) + LastChunk + rest) == Complete(Concat(chunks), |ChunkedCoding(chunks)| + 3)
    decreases |chunks|
  {
    if |chunks| == 0 {
      NoChunksRead(chunks, rest);
    } else {
      ChunksFromCoding(chunks[1..], rest);
      ChunkConsRead(chunks, rest);
    }
  }

  /** The coding of no chunks is the last chunk alone, which reads as the empty body. */
  lemma NoChunksRead(chunks: seq<Bytes>, rest: Bytes)
    requires |chunks| == 0
    ensures ChunksFrom(ChunkedCoding(chunks) + LastChunk + rest) == Complete(Concat(chunks), |ChunkedCoding(chunks)| + 3)
  {
    assert ChunkedCoding(chunks) + LastChunk + rest == ['0'] + CRLF + rest;
    DigitsHaveNoCr(['0'], 10);
    LastChunkRead(['0'], rest);
  }

  /** One more chunk in front of a coding that reads whole reads whole, the chunk joined in front. */
  lemma ChunkConsRead(chunks: seq<Bytes>, rest: Bytes)
    requires |chunks| > 0 && forall k :: 0 <= k < |chunks| ==> 0 < |chunks[k]| <= USIZE_MAX
    requires ChunksFrom(ChunkedCoding(chunks[1..]) + LastChunk + rest) ==
      Complete(Concat(chunks[1..]), |ChunkedCoding(chunks[1..])| + 3)
    ensures ChunksFrom(ChunkedCoding(chunks) + LastChunk + rest) == Complete(Concat(chunks), |ChunkedCoding(chunks)| + 3)
  {
    var c := chunks[0];
    var line := NatToHex(|c|);
    var tail := ChunkedCoding(chunks[1..]) + LastChunk + rest;
    FirstChunkLayout(chunks, rest);
    DigitsHaveNoCr(line, 16);
    HexRoundTrip(|c|);
    OneChunkRead(line, c, tail);
  }

  // ---------------------------------------------------------------------------
  // The bodies of the connection tests
  // ---------------------------------------------------------------------------

  /** Two non-empty chunks and the last chunk, whatever their size lines' spelling, read as the two joined. */
  lemma TwoChunksRead(line1: Bytes, chunk1: Bytes, line2: Bytes, chunk2: Bytes, last: Bytes, tail: Bytes)
    requires 0 < |chunk1| && ParseHex(line1) == Some(|chunk1|) && CR !in line1
    requires 0 < |chunk2| && ParseHex(line2) == Some(|chunk2|) && CR !in line2
    requires ParseHex(last) == Some(0) && CR !in last
    ensures ChunksFrom(line1 + CRLF + chunk1 + CRLF + (line2 + CRLF + chunk2 + CRLF + (last + CRLF + tail))) ==
      Complete(chunk1 + chunk2, |line1| + |chunk1| + |line2| + |chunk2| + |last| + 10)
  {
    var t2 := last + CRLF + tail;
    var t1 := line2 + CRLF + chunk2 + CRLF + t2;
    LastChunkRead(last, tail);
    OneChunkRead(line2, chunk2, t2);
    OneChunkRead(line1, chunk1, t1);
    assert chunk2 + [] == chunk2;
  }

  /**
   * Two chunks read in turn: "AB" and ten digits (size "A"), then the last
   * chunk; the CRLF after the last chunk is not part of what is read.
   */
  lemma ChunkedExample(s: Bytes)
    requires s == "2\r\nAB\r\nA\r\n1234567890\r\n0\r\n\r\n"
    ensures ChunksFrom(s) == Complete("AB1234567890", 25)
  {
    var two: Bytes, ten: Bytes, zero: Bytes := ['2'], ['A'], ['0'];
    var first: Bytes, second: Bytes := "AB", "1234567890";
    ChunkedExampleLayout(s, two, first, ten, second, zero);
    ChunkedExampleParts(two, first, ten, second, zero);
  }

  lemma ChunkedExampleParts(two: Bytes, first: Bytes, ten: Bytes, second: Bytes, zero: Bytes)
    requires two == ['2'] && first == "AB" && ten == ['A'] && second == "1234567890" && zero == ['0']
    ensures ChunksFrom(two + CRLF + first + CRLF + (ten + CRLF + second + CRLF + (zero + CRLF + CRLF))) ==
      Complete("AB1234567890", 25)
  {
    HexDigitLine(two, '2');
    HexDigitLine(ten, 'A');
    HexDigitLine(zero, '0');
    TwoChunksRead(two, first, ten, second, zero, CRLF);
    JoinedExample(first, second);
  }

  lemma ChunkedExampleLayout(s: Bytes, two: Bytes, first: Bytes, ten: Bytes, second: Bytes, zero: Bytes)
    requires s == "2\r\nAB\r\nA\r\n1234567890\r\n0\r\n\r\n"
    requires two == ['2'] && first == "AB" && ten == ['A'] && second == "1234567890" && zero == ['0']
    ensures s == two + CRLF + first + CRLF + (ten + CRLF + second + CRLF + (zero + CRLF + CRLF))
  {
  }

  lemma JoinedExample(first: Bytes, second: Bytes)
    requires first == "AB" && second == "1234567890"
    ensures first + second == "AB1234567890"
  {
  }

  /** A CRLF inside chunk data is data: chunks "AB" and "1\r\n1" give "AB1\r\n1". */
  lemma ChunkedCrlfExample(s: Bytes)
    requires s == "2\r\nAB\r\n4\r\n1\r\n1\r\n0\r\n\r\n"
    ensures ChunksFrom(s) == Complete("AB1\r\n1", 19)
  {
    var two: Bytes, four: Bytes, zero: Bytes := ['2'], ['4'], ['0'];
    var first: Bytes, second: Bytes := "AB", "1\r\n1";
    ChunkedCrlfLayout(s, two, first, four, second, zero);
    ChunkedCrlfParts(two, first, four, second, zero);
  }

  lemma ChunkedCrlfParts(two: Bytes, first: Bytes, four: Bytes, second: Bytes, zero: Bytes)
    requires two == ['2'] && first == "AB" && four == ['4'] && second == "1\r\n1" && zero == ['0']
    ensures ChunksFrom(two + CRLF + first + CRLF + (four + CRLF + second + CRLF + (zero + CRLF + CRLF))) ==
      Complete("AB1\r\n1", 19)
  {
    HexDigitLine(two, '2');
    HexDigitLine(four, '4');
    HexDigitLine(zero, '0');
    TwoChunksRead(two, first, four, second, zero, CRLF);
    JoinedCrlfExample(first, second);
  }

  lemma ChunkedCrlfLayout(s: Bytes, two: Bytes, first: Bytes, four: Bytes, second: Bytes, zero: Bytes)
    requires s == "2\r\nAB\r\n4\r\n1\r\n1\r\n0\r\n\r\n"
    requires two == ['2'] && first == "AB" && four == ['4'] && second == "1\r\n1" && zero == ['0']
    ensures s == two + CRLF + first + CRLF + (four + CRLF + second + CRLF + (zero + CRLF + CRLF))
  {
  }

  lemma JoinedCrlfExample(first: Bytes, second: Bytes)
    requires first == "AB" && second == "1\r\n1"
    ensures first + second == "AB1\r\n1"
  {
  }

  /** A chunk whose data is not followed by CRLF where its size line says makes the body malformed. */
  lemma ChunkOverrunRead(line: Bytes, n: nat, rest: Bytes)
    requires 0 < n && ParseHex(line) == Some(n) && CR !in line
    requires |rest| >= n + 2 && !CrlfAt(rest, n)
    ensures ChunksFrom(line + CRLF + rest) == Malformed(MalformedChunkedBody)
  {
    ChunkHeadRead(line, n, rest);
    ChunkEndRefused(n, rest);
  }

  /** Chunk data longer than its size line says ("ABC" for 2) is a malformed body. */
  lemma ChunkedOverrunExample(s: Bytes)
    requires s == "2\r\nABC\r\n4\r\n1234\r\n0\r\n\r\n"
    ensures ChunksFrom(s) == Malformed(MalformedChunkedBody)
  {
    var two: Bytes := ['2'];
    var rest: Bytes := "ABC\r\n4\r\n1234\r\n0\r\n\r\n";
    OverrunLayout(s, two, rest);
    HexDigitLine(two, '2');
    ChunkOverrunRead(two, 2, rest);
  }

  lemma OverrunLayout(s: Bytes, two: Bytes, rest: Bytes)
    requires s == "2\r\nABC\r\n4\r\n1234\r\n0\r\n\r\n"
    requires two == ['2'] && rest == "ABC\r\n4\r\n1234\r\n0\r\n\r\n"
    ensures s == two + CRLF + rest && |rest| >= 4 && !CrlfAt(rest, 2)
  {
    assert rest[2] == 'C';
  }

  /** A one-digit size line: its value is the digit's, and it holds no CR. */
  lemma HexDigitLine(line: Bytes, d: Byte)
    requires line == [d] && IsHexDigit(d)
    ensures ParseHex(line) == Some(HexDigitValue(d)) && CR !in line
  {
    assert line[..0] == [];
    assert AllDigits(line, 16);
    assert DigitsValue(line, 16) == DigitsValue([], 16) * 16 + HexDigitValue(d);
  }

  /** Content-Length 1 with "A" to come: the body is "A". */
  lemma FixedExample()
    ensures FixedFrom(1, "A") == Complete("A", 1)
    ensures FixedFrom(2, "A") == Incomplete
  {
  }
}
