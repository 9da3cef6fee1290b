/**
 * `RequestParser`: the incremental parser behind `request_from_reader`. It
 * is fed the bytes buffered so far, consumes what it can (the request line,
 * then one field line at a time, then the body) and reports how much it
 * used; the caller keeps the rest and feeds it again with more.
 */
module Request {
  import opened Wrappers
  import opened Bytes
  import opened Errors
  import opened HeaderMap
  import opened RequestLine
  import Body
  import opened Reader

  /** Where the parser stands. `Error` is declared but never entered. */
  datatype ParserState = Done | AtRequestLine | AtHeaders | AtBody | Error

  /** A parsed request: its line, its fields (names folded) and its body. */
  datatype Request = Request(line: RequestLine, fields: FieldMap, body: Bytes)

  /** Everything the parser holds: the request so far, its state and the body length once known. */
  datatype Parsing = Parsing(request: Request, state: ParserState, bodyLen: Option<nat>)

  /** The order in which the states are passed through. */
  function Rank(s: ParserState): nat {
    match s
    case AtRequestLine => 0
    case AtHeaders => 1
    case AtBody => 2
    case Done => 3
    case Error => 4
  }

  /** The parser `request_from_reader` starts with. */
  function Initial(): (p: Parsing)
    ensures p.state == AtRequestLine && p.bodyLen.None?
    ensures p.request.fields == map[] && p.request.body == []
  {
    Parsing(Request(Default(), map[], []), AtRequestLine, None)
  }

  // ---------------------------------------------------------------------------
  // The body length (`find_body_len`)
  // ---------------------------------------------------------------------------

  /**
   * The body length `find_body_len` settles on: the one already known;
   * otherwise 0 without a Content-Length field; otherwise that field read
   * as a decimal, or as a comma-list of one and the same decimal. (The
   * source looks the field up as "Content-Length", which `get` folds to
   * the stored name.)
   */
  function BodyLen(known: Option<nat>, fields: FieldMap): Result<nat, RequestError> {
    if known.Some? then Ok(known.value)
    else match Body.Lookup(fields, Body.ContentLength)
      case None => Ok(0)
      case Some(c) =>
        match Body.ParseContentLength(c)
        case Length(n) => Ok(n)
        case Mismatch => Err(RequestError.InvalidContentLength)
        case NotANumber => Err(RequestError.InvalidContentLength)
  }

  /**
   * Without Transfer-Encoding, the request parser and the body parser read
   * Content-Length alike: the same length, and refusal exactly when the
   * body parser refuses.
   */
  lemma BodyLenAgreesWithFraming(fields: FieldMap)
    requires Body.TransferEncoding !in fields
    ensures BodyLen(None, fields).Ok? <==> Body.EncodingFor(fields).Ok?
    ensures BodyLen(None, fields).Ok? ==> Body.EncodingFor(fields) == Ok(Body.Nothing(BodyLen(None, fields).value))
  {
    Body.FramingNamesFolded();
  }

  /** A known length is kept, whatever the fields say. */
  lemma BodyLenSettled(n: nat, fields: FieldMap)
    ensures BodyLen(Some(n), fields) == Ok(n)
  {
  }

  /** A printed length is read back as itself. */
  lemma BodyLenOfDecimal(fields: FieldMap, n: nat)
    requires n <= USIZE_MAX && MapGet(fields, "Content-Length") == Some(NatToDecimal(n))
    ensures BodyLen(None, fields) == Ok(n)
  {
    Body.FramingNamesFolded();
    Body.ContentLengthOfDecimal(n);
  }

  // ---------------------------------------------------------------------------
  // The parse loop, as a function of the bytes it is given
  // ---------------------------------------------------------------------------

  /** What `parse` gives: the new parser and the bytes used, or the error. */
  type Outcome = (Parsing, Result<nat, RequestError>)

  /** A result `k` bytes further on. */
  function Shift(k: nat, r: Outcome): Outcome {
    (r.0, if r.1.Ok? then Ok(k + r.1.value) else r.1)
  }

  /** One pass of the loop in `parse`: it either ends the call or moves on `used` bytes as `next`. */
  datatype Pass = Stop(outcome: Outcome) | Next(next: Parsing, used: nat)

  /**
   * The body of the loop in `parse`. The request line and each field line
   * are taken whole once their CRLF is there, and nothing is taken while it
   * is not; the empty line ends the fields. A done parser stops at once.
   */
  function Iterate(p: Parsing, bytes: Bytes): (s: Pass)
    requires p.state != Error
    ensures s.Next? ==> 0 < s.used <= |bytes| && s.next.state != Error && Rank(p.state) <= Rank(s.next.state)
    ensures s.Stop? ==> s.outcome.0.state != Error && Rank(p.state) <= Rank(s.outcome.0.state)
    ensures s.Stop? && s.outcome.1.Ok? ==> s.outcome.1.value <= |bytes|
    ensures s.Stop? && s.outcome.1.Err? ==> s.outcome.0.state != Done
  {
    match p.state
    case Done => Stop((p, Ok(0)))
    case AtRequestLine => LinePass(p, ParseLine(bytes))
    case AtHeaders => FieldPass(p, ParseFieldLine(bytes))
    case AtBody => Stop(BodyStep(p, bytes))
  }

  /** The request-line state, given what `RequestLine::parse` made of the bytes. */
  function LinePass(p: Parsing, line: Result<Option<(RequestLine, nat)>, RequestLineError>): Pass {
    match line
    case Err(e) => Stop((p, Err(RequestLineErr(e))))
    case Ok(None) => Stop((p, Ok(0)))
    case Ok(Some((rl, size))) => Next(p.(request := p.request.(line := rl), state := AtHeaders), size)
  }

  /** The field-line state, given what `Headers::parse` made of the bytes. */
  function FieldPass(p: Parsing, field: Result<FieldLine, HeadersError>): Pass {
    match field
    case Err(e) => Stop((p, Err(HeaderErr(e))))
    case Ok(NeedMore) => Stop((p, Ok(0)))
    case Ok(Blank) => Next(p.(state := AfterFields(p.request.fields)), 2)
    case Ok(Field(name, value, size)) =>
      Next(p.(request := p.request.(fields := MapAdd(p.request.fields, name, value))), size)
  }

  /** After the empty line: a body exactly when the fields hold Content-Length (under its folded name). */
  function AfterFields(fields: FieldMap): ParserState {
    if Body.Lookup(fields, Body.ContentLength).None? then Done else AtBody
  }

  /**
   * The body state: every byte given joins the body, which is done at the
   * length and too long past it; the call then reports all bytes used.
   */
  function BodyStep(p: Parsing, bytes: Bytes): (r: Outcome)
    requires p.state == AtBody
    ensures r.0.state != Error && Rank(p.state) <= Rank(r.0.state)
    ensures r.1.Ok? ==> r.1.value <= |bytes|
    ensures r.1.Err? ==> r.0.state != Done
  {
    match BodyLen(p.bodyLen, p.request.fields)
    case Err(e) => (p, Err(e))
    case Ok(len) =>
      var q := p.(request := p.request.(body := p.request.body + bytes), bodyLen := Some(len));
      if |q.request.body| > len then (q, Err(BodyTooLong))
      else if |q.request.body| == len then (q.(state := Done), Ok(|bytes|))
      else (q, Ok(|bytes|))
  }

  /**
   * `parse(bytes)`: passes of the loop until one ends the call. The loop is
   * two functions, this one and `Passes`, so that a recursion step unfolds
   * the loop's body only where a proof asks for it (`Unroll`).
   */
  function ParseFrom(p: Parsing, bytes: Bytes): (r: Outcome)
    requires p.state != Error
    ensures r.0.state != Error && Rank(p.state) <= Rank(r.0.state)
    ensures r.1.Ok? ==> r.1.value <= |bytes|
    ensures r.1.Err? ==> r.0.state != Done
    ensures p.state == Done ==> r == (p, Ok(0))
    decreases |bytes|, 1
  {
    Passes(p, bytes)
  }

  /** The loop of `parse` from its next pass on. */
  function Passes(p: Parsing, bytes: Bytes): (r: Outcome)
    requires p.state != Error
    ensures r.0.state != Error && Rank(p.state) <= Rank(r.0.state)
    ensures r.1.Ok? ==> r.1.value <= |bytes|
    ensures r.1.Err? ==> r.0.state != Done
    ensures p.state == Done ==> r == (p, Ok(0))
    decreases |bytes|, 0
  {
    match Iterate(p, bytes)
    case Stop(outcome) => outcome
    case Next(q, n) => Shift(n, ParseFrom(q, bytes[n..]))
  }

  /** One pass of `parse`, and then the rest of the loop. */
  lemma Unroll(p: Parsing, bytes: Bytes)
    requires p.state != Error
    ensures Iterate(p, bytes).Stop? ==> ParseFrom(p, bytes) == Iterate(p, bytes).outcome
    ensures Iterate(p, bytes).Next? ==>
      ParseFrom(p, bytes) == Shift(Iterate(p, bytes).used, ParseFrom(Iterate(p, bytes).next, bytes[Iterate(p, bytes).used..]))
  {
  }

  // ---------------------------------------------------------------------------
  // Feeding the bytes in pieces
  // ---------------------------------------------------------------------------

  /** A request line whose CRLF is already there is read the same once more bytes arrive. */
  lemma ParseLineExtend(a: Bytes, b: Bytes)
    requires FindCrlf(a).Some?
    ensures ParseLine(a + b) == ParseLine(a)
  {
    var i := FindCrlf(a).value;
    FindCrlfExtend(a, b);
    LineAt(a, i);
    LineAt(a + b, i);
    assert (a + b)[..i] == a[..i];
  }

  /** `RequestLine::parse` on bytes whose first CRLF is at `i`, by what precedes it. */
  lemma LineAt(x: Bytes, i: nat)
    requires FindCrlf(x) == Some(i)
    ensures ParseLine(x) == LineOf(FromLine(x[..i]), i)
  {
  }

  /** Likewise a field line. */
  lemma FieldLineExtend(a: Bytes, b: Bytes)
    requires FindCrlf(a).Some?
    ensures ParseFieldLine(a + b) == ParseFieldLine(a)
  {
    var i := FindCrlf(a).value;
    FindCrlfExtend(a, b);
    assert (a + b)[..i] == a[..i];
  }

  /**
   * Before the body, a pass that moves on or fails does the same once more
   * bytes arrive; one that ends the call without failing took nothing and
   * changed nothing.
   */
  lemma IteratePrefix(p: Parsing, b: Bytes, more: Bytes)
    requires p.state != Error && p.state != AtBody
    ensures Iterate(p, b).Next? ==> Iterate(p, b + more) == Iterate(p, b)
    ensures Iterate(p, b).Stop? && Iterate(p, b).outcome.1.Err? ==> Iterate(p, b + more) == Iterate(p, b)
    ensures Iterate(p, b).Stop? && Iterate(p, b).outcome.1.Ok? ==> Iterate(p, b).outcome == (p, Ok(0))
  {
    if p.state == AtRequestLine {
      LinePrefix(p, b, more);
    } else if p.state == AtHeaders {
      FieldPrefix(p, b, more);
    }
  }

  lemma LinePrefix(p: Parsing, b: Bytes, more: Bytes)
    requires p.state == AtRequestLine
    ensures ParseLine(b) != Ok(None) ==> ParseLine(b + more) == ParseLine(b)
    ensures LinePass(p, ParseLine(b)).Stop? && LinePass(p, ParseLine(b)).outcome.1.Ok? ==> ParseLine(b) == Ok(None)
  {
    if FindCrlf(b).Some? {
      ParseLineExtend(b, more);
    }
  }

  lemma FieldPrefix(p: Parsing, b: Bytes, more: Bytes)
    requires p.state == AtHeaders
    ensures ParseFieldLine(b) != Ok(NeedMore) ==> ParseFieldLine(b + more) == ParseFieldLine(b)
    ensures FieldPass(p, ParseFieldLine(b)).Stop? && FieldPass(p, ParseFieldLine(b)).outcome.1.Ok? ==> ParseFieldLine(b) == Ok(NeedMore)
  {
    if FindCrlf(b).Some? {
      FieldLineExtend(b, more);
    }
  }

  lemma ShiftShift(a: nat, b: nat, r: Outcome)
    ensures Shift(a, Shift(b, r)) == Shift(a + b, r)
  {
  }

  /**
   * Parsing `b` and then, from where that left off, the unused rest of `b`
   * followed by `more`, ends as parsing `b + more` at once — whenever the
   * latter succeeds. This is what lets the reader deliver a request in any
   * pieces.
   */
  lemma {:induction false} Resume(p: Parsing, b: Bytes, more: Bytes)
    requires p.state != Error && ParseFrom(p, b + more).1.Ok?
    ensures ParseFrom(p, b).1.Ok?
    ensures ParseFrom(p, b + more)
         == Shift(ParseFrom(p, b).1.value, ParseFrom(ParseFrom(p, b).0, b[ParseFrom(p, b).1.value..] + more))
    decreases |b|, 1
  {
    if p.state == AtBody {
      ResumeInBody(p, b, more);
    } else {
      IteratePrefix(p, b, more);
      match Iterate(p, b) {
        case Next(q, n) => ResumeNext(p, b, more, q, n);
        case Stop(outcome) =>
          if outcome.1.Ok? {
            ResumeStopped(p, b, more);
          }
      }
    }
  }

  /** `Resume` after a pass that moved on `n` bytes, the same with or without `more`. */
  lemma {:induction false} ResumeNext(p: Parsing, b: Bytes, more: Bytes, q: Parsing, n: nat)
    requires p.state != Error && Iterate(p, b) == Next(q, n) && Iterate(p, b + more) == Next(q, n)
    requires ParseFrom(p, b + more).1.Ok?
    ensures ParseFrom(p, b).1.Ok?
    ensures ParseFrom(p, b + more)
         == Shift(ParseFrom(p, b).1.value, ParseFrom(ParseFrom(p, b).0, b[ParseFrom(p, b).1.value..] + more))
    decreases |b|, 0
  {
    var x := b[n..];
    UnfoldNext(p, b, more, q, n);
    Resume(q, x, more);
    var r := ParseFrom(q, x);
    var tail := ParseFrom(r.0, x[r.1.value..] + more);
    var part := ParseFrom(p, b);
    Chain(ParseFrom(p, b + more), part, r, tail, n, b, x);
  }

  /** One pass that moves on `n` bytes, with or without `more` behind `b`. */
  lemma UnfoldNext(p: Parsing, b: Bytes, more: Bytes, q: Parsing, n: nat)
    requires p.state != Error && Iterate(p, b) == Next(q, n) && Iterate(p, b + more) == Next(q, n)
    ensures ParseFrom(p, b + more) == Shift(n, ParseFrom(q, b[n..] + more))
    ensures ParseFrom(p, b) == Shift(n, ParseFrom(q, b[n..]))
  {
    assert (b + more)[n..] == b[n..] + more;
  }

  lemma SliceOfSlice(b: Bytes, n: nat, k: nat)
    requires n <= |b| && k <= |b| - n
    ensures b[n..][k..] == b[n + k..]
  {
  }

  /** Two shifts of the same tail, regrouped. */
  lemma Chain(whole: Outcome, part: Outcome, r: Outcome, tail: Outcome, n: nat, b: Bytes, x: Bytes)
    requires n <= |b| && x == b[n..] && r.1.Ok? && r.1.value <= |x|
    requires part == Shift(n, r) && whole == Shift(n, Shift(r.1.value, tail))
    ensures part.1.Ok? && part.0 == r.0 && b[part.1.value..] == x[r.1.value..]
    ensures whole == Shift(part.1.value, tail)
  {
    ShiftShift(n, r.1.value, tail);
    SliceOfSlice(b, n, r.1.value);
  }

  /** `Resume` when the first pass ends the call having taken nothing. */
  lemma ResumeStopped(p: Parsing, b: Bytes, more: Bytes)
    requires p.state != Error && Iterate(p, b) == Stop((p, Ok(0)))
    ensures ParseFrom(p, b).1.Ok?
    ensures ParseFrom(p, b + more)
         == Shift(ParseFrom(p, b).1.value, ParseFrom(ParseFrom(p, b).0, b[ParseFrom(p, b).1.value..] + more))
  {
    assert ParseFrom(p, b) == (p, Ok(0));
    assert b[0..] + more == b + more;
    ShiftNone(ParseFrom(p, b + more));
  }

  lemma ShiftNone(r: Outcome)
    ensures Shift(0, r) == r
  {
  }

  /** `Resume` in the body state. */
  lemma ResumeInBody(p: Parsing, b: Bytes, more: Bytes)
    requires p.state == AtBody && ParseFrom(p, b + more).1.Ok?
    ensures ParseFrom(p, b).1.Ok?
    ensures ParseFrom(p, b + more)
         == Shift(ParseFrom(p, b).1.value, ParseFrom(ParseFrom(p, b).0, b[ParseFrom(p, b).1.value..] + more))
  {
    assert ParseFrom(p, b) == BodyStep(p, b) && ParseFrom(p, b + more) == BodyStep(p, b + more);
    ResumeBody(p, b, more);
    assert b[|b|..] + more == more;
  }

  /** `Resume` in the body state, where each piece joins the body. */
  lemma ResumeBody(p: Parsing, b: Bytes, more: Bytes)
    requires p.state == AtBody && BodyStep(p, b + more).1.Ok?
    ensures BodyStep(p, b).1 == Ok(|b|)
    ensures BodyStep(p, b + more) == Shift(|b|, ParseFrom(BodyStep(p, b).0, more))
  {
    var len := BodyLen(p.bodyLen, p.request.fields).value;
    assert p.request.body + (b + more) == p.request.body + b + more;
    var q := BodyStep(p, b).0;
    if more == [] {
      assert b + more == b;
    } else {
      assert q.state == AtBody;
      assert BodyStep(q, more).0.request.body == p.request.body + (b + more);
    }
  }

  /**
   * What a successful parse leaves unused it could not use: fed again with
   * nothing more, the parser takes nothing and stays as it is, unless it
   * is done.
   */
  lemma {:induction false} Saturated(p: Parsing, b: Bytes)
    requires p.state != Error && ParseFrom(p, b).1.Ok? && ParseFrom(p, b).0.state != Done
    ensures ParseFrom(ParseFrom(p, b).0, b[ParseFrom(p, b).1.value..]) == (ParseFrom(p, b).0, Ok(0))
    decreases |b|, 1
  {
    if p.state == AtBody {
      SaturatedBody(p, b);
    } else {
      IteratePrefix(p, b, []);
      match Iterate(p, b) {
        case Next(q, n) => SaturatedNext(p, b, q, n);
        case Stop(outcome) => assert b[0..] == b;
      }
    }
  }

  /** The inductive step of `Saturated`, after a pass that moved on `n` bytes. */
  lemma {:induction false} SaturatedNext(p: Parsing, b: Bytes, q: Parsing, n: nat)
    requires p.state != Error && Iterate(p, b) == Next(q, n)
    requires ParseFrom(p, b).1.Ok? && ParseFrom(p, b).0.state != Done
    ensures ParseFrom(ParseFrom(p, b).0, b[ParseFrom(p, b).1.value..]) == (ParseFrom(p, b).0, Ok(0))
    decreases |b|, 0
  {
    var x := b[n..];
    assert ParseFrom(p, b) == Shift(n, ParseFrom(q, x));
    Saturated(q, x);
    SaturatedLift(q, x, b, n, ParseFrom(p, b));
  }

  /** A saturated parse of `b[n..]`, seen from `b`. */
  lemma SaturatedLift(q: Parsing, x: Bytes, b: Bytes, n: nat, part: Outcome)
    requires q.state != Error && n <= |b| && x == b[n..]
    requires ParseFrom(q, x).1.Ok? && part == Shift(n, ParseFrom(q, x))
    requires ParseFrom(ParseFrom(q, x).0, x[ParseFrom(q, x).1.value..]) == (ParseFrom(q, x).0, Ok(0))
    ensures part.1.Ok? && n + ParseFrom(q, x).1.value <= |b|
    ensures part.0.state != Error && ParseFrom(part.0, b[part.1.value..]) == (part.0, Ok(0))
  {
    var r := ParseFrom(q, x);
    assert part.0 == r.0 && part.1.value == n + r.1.value;
    SliceOfSlice(b, n, r.1.value);
    assert b[part.1.value..] == x[r.1.value..];
  }

  /** `Saturated` in the body state: an unfinished body has used every byte. */
  lemma SaturatedBody(p: Parsing, b: Bytes)
    requires p.state == AtBody && BodyStep(p, b).1.Ok? && BodyStep(p, b).0.state != Done
    ensures BodyStep(p, b).1 == Ok(|b|) && b[|b|..] == []
    ensures ParseFrom(BodyStep(p, b).0, []) == (BodyStep(p, b).0, Ok(0))
  {
    var q := BodyStep(p, b).0;
    assert q.request.body + [] == q.request.body;
  }

  /**
   * When a parse of `b` leaves the request unfinished, parsing `b + more`
   * at once is that parse followed by a parse, from where it left off, of
   * the unused rest of `b` and then `more`: what `request_from_reader` does
   * between two reads.
   */
  lemma {:induction false} Continue(p: Parsing, b: Bytes, more: Bytes)
    requires p.state != Error && ParseFrom(p, b).1.Ok? && ParseFrom(p, b).0.state != Done
    ensures ParseFrom(p, b + more)
         == Shift(ParseFrom(p, b).1.value, ParseFrom(ParseFrom(p, b).0, b[ParseFrom(p, b).1.value..] + more))
    decreases |b|, 1
  {
    if p.state == AtBody {
      ContinueInBody(p, b, more);
    } else {
      IteratePrefix(p, b, more);
      match Iterate(p, b) {
        case Next(q, n) => ContinueNext(p, b, more, q, n);
        case Stop(outcome) => ResumeStopped(p, b, more);
      }
    }
  }

  /** `Continue` after a pass that moved on `n` bytes, the same with or without `more`. */
  lemma {:induction false} ContinueNext(p: Parsing, b: Bytes, more: Bytes, q: Parsing, n: nat)
    requires p.state != Error && Iterate(p, b) == Next(q, n) && Iterate(p, b + more) == Next(q, n)
    requires ParseFrom(p, b).1.Ok? && ParseFrom(p, b).0.state != Done
    ensures ParseFrom(p, b + more)
         == Shift(ParseFrom(p, b).1.value, ParseFrom(ParseFrom(p, b).0, b[ParseFrom(p, b).1.value..] + more))
    decreases |b|, 0
  {
    var x := b[n..];
    UnfoldNext(p, b, more, q, n);
    Continue(q, x, more);
    var r := ParseFrom(q, x);
    var tail := ParseFrom(r.0, x[r.1.value..] + more);
    var part := ParseFrom(p, b);
    Chain(ParseFrom(p, b + more), part, r, tail, n, b, x);
  }

  /** `Continue` in the body state: the bytes of an unfinished body and the next ones join it alike. */
  lemma ContinueInBody(p: Parsing, b: Bytes, more: Bytes)
    requires p.state == AtBody && BodyStep(p, b).1.Ok? && BodyStep(p, b).0.state != Done
    ensures ParseFrom(p, b + more) == Shift(BodyStep(p, b).1.value, ParseFrom(BodyStep(p, b).0, b[BodyStep(p, b).1.value..] + more))
  {
    var q := BodyStep(p, b).0;
    assert BodyStep(p, b).1 == Ok(|b|);
    assert b[|b|..] + more == more;
    assert p.request.body + (b + more) == q.request.body + more;
  }

  // ---------------------------------------------------------------------------
  // The parser object
  // ---------------------------------------------------------------------------

  /**
   * `ParseFrom` once more, under a name of its own: a definition that is not
   * recursive, so that a goal stated with it leaves the parse folded.
   */
  function Resumed(p: Parsing, rest: Bytes): (r: Outcome)
    requires p.state != Error
    ensures r.0.state != Error && Rank(p.state) <= Rank(r.0.state)
    ensures r.1.Ok? ==> r.1.value <= |rest|
    ensures r.1.Err? ==> r.0.state != Done
  {
    ParseFrom(p, rest)
  }

  /** `parse` has used `read` bytes, stands at `p` with `rest` unused, and will end at `whole`. */
  predicate Leaves(whole: Outcome, read: nat, p: Parsing, rest: Bytes)
    requires p.state != Error
  {
    whole == Shift(read, Resumed(p, rest))
  }

  /** `ParseFrom` from `p` over `bytes` ends at `q` with `r`. */
  predicate Parsed(p: Parsing, bytes: Bytes, q: Parsing, r: Result<nat, RequestError>)
    requires p.state != Error
  {
    Resumed(p, bytes) == (q, r)
  }

  /** A pass that ends the call with `o` ends the whole parse. */
  lemma Ends(whole: Outcome, read: nat, p: Parsing, rest: Bytes, o: Outcome)
    requires p.state != Error && Leaves(whole, read, p, rest) && Iterate(p, rest) == Stop(o)
    ensures whole == Shift(read, o)
  {
    Unroll(p, rest);
  }

  /** A done parser takes nothing more. */
  lemma DoneEnds(whole: Outcome, read: nat, p: Parsing, rest: Bytes)
    requires p.state == Done && Leaves(whole, read, p, rest)
    ensures whole == (p, Ok(read))
  {
  }

  /** A pass that moves on `n` bytes as `q` moves the parse on as well. */
  lemma MovesOn(whole: Outcome, read: nat, p: Parsing, rest: Bytes, q: Parsing, n: nat)
    requires p.state != Error && Leaves(whole, read, p, rest) && Iterate(p, rest) == Next(q, n)
    ensures q.state != Error && n <= |rest| && Leaves(whole, read + n, q, rest[n..])
  {
    Unroll(p, rest);
    ShiftShift(read, n, ParseFrom(q, rest[n..]));
  }

  /**
   * One pass of `parse` read against the whole parse: a pass that ends the
   * call gives the whole outcome, with the bytes used before it counted; a
   * pass that moves on leaves a parser past its request line, still on
   * course to `whole`.
   */
  lemma StepOutcome(whole: Outcome, read: nat, p: Parsing, rest: Bytes, q: Parsing, r: Result<nat, RequestError>, n: nat,
                    stop: bool, out: Result<nat, RequestError>)
    requires p.state != Error && Leaves(whole, read, p, rest)
    requires Iterate(p, rest) == if n == 0 then Stop((q, r)) else Next(q, n)
    requires stop == (n == 0) && out == if !stop then Ok(n) else if r.Err? then r else Ok(read + r.value)
    ensures stop ==> whole == (q, out)
    ensures !stop ==> 0 < n <= |rest| && q.state != Error && q.state != AtRequestLine
    ensures !stop ==> Leaves(whole, read + n, q, rest[n..])
  {
    if n == 0 {
      Ends(whole, read, p, rest, (q, r));
    } else {
      MovesOn(whole, read, p, rest, q, n);
    }
  }

  // ---------------------------------------------------------------------------
  // Reading a request (`request_from_reader`)
  // ---------------------------------------------------------------------------

  /** Nothing delivered yet: the fresh parser takes nothing. */
  lemma NothingDelivered()
    ensures Resumed(Initial(), []) == (Initial(), Ok(0))
  {
    Unroll(Initial(), []);
  }

  /**
   * One more read: the parser left by the bytes `d` so far, with `k` of them
   * used, is fed the unused ones and the new bytes `x`; what it ends at is
   * where parsing `d + x` at once ends.
   */
  lemma FedMore(d: Bytes, x: Bytes, k: nat, q: Parsing, out: Outcome)
    requires Resumed(Initial(), d) == (q, Ok(k)) && q.state != Done
    requires Resumed(q, d[k..] + x) == out
    ensures Resumed(Initial(), d + x) == Shift(k, out)
  {
    Continue(Initial(), d, x);
  }

  /**
   * A stream that parses to a complete request at once gives the same
   * request read in pieces: every prefix `d` of it parses without error,
   * and one that already completes the request has the same request.
   */
  lemma PrefixAgrees(s: Bytes, d: Bytes, more: Bytes)
    requires s == d + more && Resumed(Initial(), s).1.Ok? && Resumed(Initial(), s).0.state == Done
    ensures Resumed(Initial(), d).1.Ok?
    ensures Resumed(Initial(), d).0.state == Done ==> Resumed(Initial(), d).0 == Resumed(Initial(), s).0
    ensures more == [] ==> Resumed(Initial(), d) == Resumed(Initial(), s)
  {
    Resume(Initial(), d, more);
    if more == [] {
      assert d == s;
    }
  }
}
