/**
 * The connection loop of the server: read a request, hand it to the
 * handler, write the response, and decide whether the connection stays
 * open (section 9.3 of RFC 9112). The stream is a reader of chunks for
 * what comes in and a byte sequence for what goes out.
 */
module Serving {
  import opened Wrappers
  import opened Bytes
  import opened Errors
  import opened HeaderMap
  import opened Version
  import opened Status
  import opened Responses
  import opened ResponseBuilding
  import opened Request
  import opened Reader
  import opened RequestParsing
  import Body

  // ---------------------------------------------------------------------------
  // Closing the connection
  // ---------------------------------------------------------------------------

  /**
   * `field_contains_value`, which is not part of this model: the named
   * field is present, and its value split at commas and trimmed has
   * `value` as one of its items, byte for byte.
   */
  predicate FieldContainsValue(m: FieldMap, name: Bytes, value: Bytes) {
    MapGet(m, name).Some? && value in Body.TrimEach(Split(MapGet(m, name).value, ','))
  }

  /** `req.line.version == "1.0"`, taken to mean the version that displays as "1.0". */
  predicate IsHttp10(v: HttpVersion) {
    Display(v) == "1.0"
  }

  /** `should_close`, given the request and the fields of the response as written. */
  function ShouldClose(req: Request, resp: FieldMap): bool {
    if IsHttp10(req.line.version) && !FieldContainsValue(req.fields, "Connection", "keep-alive") then true
    else if FieldContainsValue(req.fields, "Connection", "close") then true
    else if FieldContainsValue(resp, "Connection", "close") then true
    else false
  }

  /** An HTTP/1.0 request that does not ask for keep-alive closes the connection. */
  lemma Http10Closes(req: Request, resp: FieldMap)
    requires EqTuple(req.line.version, (1, 0)) && !FieldContainsValue(req.fields, "Connection", "keep-alive")
    ensures ShouldClose(req, resp)
  {
  }

  /** A request that lists "close" in its Connection field closes the connection. */
  lemma RequestCloses(req: Request, resp: FieldMap)
    requires FieldContainsValue(req.fields, "Connection", "close")
    ensures ShouldClose(req, resp)
  {
  }

  /** A response that lists "close" in its Connection field closes the connection. */
  lemma ResponseCloses(req: Request, resp: FieldMap)
    requires FieldContainsValue(resp, "Connection", "close")
    ensures ShouldClose(req, resp)
  {
  }

  /** Otherwise it stays open: an HTTP/1.1 exchange with no Connection field on either side keeps the connection. */
  lemma Http11StaysOpen(req: Request, resp: FieldMap)
    requires EqTuple(req.line.version, (1, 1))
    requires MapGet(req.fields, "Connection").None? && MapGet(resp, "Connection").None?
    ensures !ShouldClose(req, resp)
  {
  }

  /** Conversely, a connection closes only for one of the three reasons. */
  lemma CloseHasAReason(req: Request, resp: FieldMap)
    requires ShouldClose(req, resp)
    ensures (EqTuple(req.line.version, (1, 0)) && !FieldContainsValue(req.fields, "Connection", "keep-alive"))
      || FieldContainsValue(req.fields, "Connection", "close")
      || FieldContainsValue(resp, "Connection", "close")
  {
    if IsHttp10(req.line.version) {
      assert Display(req.line.version) == "1.0";
      assert req.line.version == HttpVersion(1, 0);
    }
  }

  /** A value with no comma whose trimmed form is `value` is found as the only item of its field. */
  lemma SingleItem(m: FieldMap, name: Bytes, value: Bytes)
    requires MapGet(m, name).Some? && ',' !in MapGet(m, name).value && Trim(MapGet(m, name).value) == value
    ensures FieldContainsValue(m, name, value)
  {
    var v := MapGet(m, name).value;
    assert IndexOf(v, ',').None?;
    assert Split(v, ',') == [v];
    assert Body.TrimEach([v])[0] == value;
  }

  /** "close" is its own trimmed form. */
  lemma CloseTrimmed(v: Bytes)
    requires v == "close"
    ensures ',' !in v && Trim(v) == v
  {
    TrimUnchanged(v, Whitespace);
  }

  /**
   * Every response that keeps the default fields carries "connection:
   * close", whatever its body, so the connection closes after it.
   */
  lemma DefaultFieldsClose(req: Request, body: Bytes)
    ensures ShouldClose(req, Framed(DefaultFields, body))
  {
    var m := Framed(DefaultFields, body);
    assert ToLower("Connection") == "connection";
    assert MapGet(DefaultFields, "Connection") == Some("close");
    CloseTrimmed("close");
    SingleItem(m, "Connection", "close");
  }

  // ---------------------------------------------------------------------------
  // One turn of the loop
  // ---------------------------------------------------------------------------

  /** What a handler gives back, as a value: the status line, the fields and the body of a response. */
  datatype Reply = Reply(statusLine: StatusLine, fields: FieldMap, body: Bytes)

  /** What one turn of the loop writes, and whether the loop goes round again. */
  datatype Turn = Turn(written: Bytes, again: bool)

  /** The bytes `internal_error` writes: a 500 response from a fresh builder. */
  function InternalErrorBytes(): Bytes {
    Wire(New(InternalServerError), DefaultFields, [])
  }

  /**
   * A turn: the end of the input (`MalformedRequest`) ends the loop and
   * writes nothing; any other parse error, or a handler error, writes the
   * 500 response and ends it; otherwise the handler's response is written
   * and the loop goes on unless the connection should close.
   */
  function TurnOf(parsed: Result<Request, RequestError>, handler: Request -> Result<Reply, ServerError>): Turn {
    match parsed
    case Err(MalformedRequest) => Turn([], false)
    case Err(_) => Turn(InternalErrorBytes(), false)
    case Ok(req) =>
      match handler(req)
      case Err(_) => Turn(InternalErrorBytes(), false)
      case Ok(reply) =>
        Turn(Wire(reply.statusLine, reply.fields, reply.body), !ShouldClose(req, Framed(reply.fields, reply.body)))
  }

  /** Everything the turns write, in order. */
  function Replies(parses: seq<Result<Request, RequestError>>, handler: Request -> Result<Reply, ServerError>): Bytes {
    if |parses| == 0 then [] else Replies(parses[..|parses| - 1], handler) + TurnOf(parses[|parses| - 1], handler).written
  }

  /** `request_from_reader`'s promise about the bytes `d` it took from the stream and the result `r` it gave. */
  predicate Received(d: Bytes, r: Result<Request, RequestError>) {
    var whole := Resumed(Initial(), d);
    (r.Ok? ==> whole.1.Ok? && whole.0.state == Done && r.value == whole.0.request)
    && (r.Err? ==> whole.1 == Err(r.error) || r.error == MalformedRequest)
  }

  /** `internal_error`: a builder set to 500, built and written. */
  method InternalError() returns (written: Bytes)
    ensures written == InternalErrorBytes()
  {
    var builder := new ResponseBuilder();
    builder.SetStatusCode(InternalServerError);
    var response := builder.Build();
    written := response.WriteTo();
  }

  /**
   * One turn after the read: the 500 response on a parse error other than
   * the end of the input or on a handler error, else the handler's
   * response written out and the close decision on the fields it went out
   * with.
   */
  method Respond(request: Result<Request, RequestError>, handler: Request -> Result<Reply, ServerError>)
    returns (written: Bytes, again: bool)
    ensures Turn(written, again) == TurnOf(request, handler)
  {
    if request.Err? {
      written := [];
      if request.error != MalformedRequest {
        written := InternalError();
      }
      return written, false;
    }
    var req := request.value;
    var response := handler(req);
    if response.Err? {
      written := InternalError();
      return written, false;
    }
    var reply := response.value;
    var headers := new Headers();
    headers.fields := reply.fields;
    var resp := new Response.FromParts(reply.statusLine, headers, reply.body);
    written := resp.WriteTo();
    again := !ShouldClose(req, resp.headers.fields);
  }

  /** The turns so far followed by one more write what they wrote, then what it writes. */
  lemma RepliesSnoc(parses: seq<Result<Request, RequestError>>, p: Result<Request, RequestError>, handler: Request -> Result<Reply, ServerError>)
    ensures Replies(parses + [p], handler) == Replies(parses, handler) + TurnOf(p, handler).written
  {
    assert (parses + [p])[..|parses|] == parses;
  }

  /** The bytes taken so far, then those of one more read, then what is left, are the whole input. */
  lemma TakenInTurn(whole: Bytes, delivered: seq<Bytes>, before: Bytes, d: Bytes, after: Bytes)
    requires whole == Concat(delivered) + before && before == d + after
    ensures whole == Concat(delivered + [d]) + after
  {
    ConcatAppend(delivered, [d]);
    assert Concat([d]) == d + Concat([]);
  }

  /** A read that gave a request took at least one byte. */
  lemma RequestTakesBytes(d: Bytes, r: Result<Request, RequestError>)
    requires Received(d, r) && r.Ok?
    ensures d != []
  {
    NothingDelivered();
  }

  /** Every read so far kept its promise, and so did one more. */
  lemma ReceivedSnoc(delivered: seq<Bytes>, parses: seq<Result<Request, RequestError>>, d: Bytes, r: Result<Request, RequestError>)
    requires |parses| == |delivered| && Received(d, r)
    requires forall i :: 0 <= i < |parses| ==> Received(delivered[i], parses[i])
    ensures forall i :: 0 <= i < |parses| + 1 ==> Received((delivered + [d])[i], (parses + [r])[i])
  {
  }

  /** Every turn so far went on, and so did one more. */
  lemma AgainSnoc(parses: seq<Result<Request, RequestError>>, r: Result<Request, RequestError>, handler: Request -> Result<Reply, ServerError>)
    requires forall i :: 0 <= i < |parses| ==> TurnOf(parses[i], handler).again
    requires TurnOf(r, handler).again
    ensures forall i :: 0 <= i < |parses| + 1 ==> TurnOf((parses + [r])[i], handler).again
  {
  }

  /**
   * One turn of the loop in `handle_connection`: a request is read, taking
   * the bytes `d`, and answered; a turn that goes on has taken some bytes.
   */
  method ServeOne(reader: ChunkReader, handler: Request -> Result<Reply, ServerError>)
    returns (request: Result<Request, RequestError>, written: Bytes, again: bool, ghost d: Bytes)
    requires reader.Valid()
    modifies reader
    ensures reader.Valid() && old(reader.Remaining()) == d + reader.Remaining()
    ensures Received(d, request)
    ensures Turn(written, again) == TurnOf(request, handler)
    ensures again ==> d != []
  {
    request, d := RequestFromReader(reader);
    written, again := Respond(request, handler);
    if again {
      RequestTakesBytes(d, request);
    }
  }

  /**
   * `handle_connection`: turns until one ends the loop. `parses` are the
   * results of the reads, `delivered` the bytes each read took; the bytes
   * read past the end of a request are not carried into the next turn.
   */
  method HandleConnection(reader: ChunkReader, handler: Request -> Result<Reply, ServerError>)
    returns (out: Bytes, ghost parses: seq<Result<Request, RequestError>>, ghost delivered: seq<Bytes>)
    requires reader.Valid()
    modifies reader
    ensures reader.Valid() && |parses| == |delivered| && |parses| >= 1
    ensures old(reader.Remaining()) == Concat(delivered) + reader.Remaining()
    ensures forall i :: 0 <= i < |parses| ==> Received(delivered[i], parses[i])
    ensures forall i :: 0 <= i < |parses| - 1 ==> TurnOf(parses[i], handler).again
    ensures !TurnOf(parses[|parses| - 1], handler).again
    ensures out == Replies(parses, handler)
  {
    out := [];
    parses := [];
    delivered := [];
    while true
      invariant reader.Valid() && |parses| == |delivered|
      invariant old(reader.Remaining()) == Concat(delivered) + reader.Remaining()
      invariant forall i :: 0 <= i < |parses| ==> Received(delivered[i], parses[i])
      invariant forall i :: 0 <= i < |parses| ==> TurnOf(parses[i], handler).again
      invariant out == Replies(parses, handler)
      decreases |reader.Remaining()|
    {
      ghost var before := reader.Remaining();
      var request, written, again, d := ServeOne(reader, handler);
      ghost var parses', delivered' := parses + [request], delivered + [d];
      var out' := out + written;
      TurnServed(old(reader.Remaining()), parses, delivered, before, out, request, d, reader.Remaining(), written, again,
                 handler, parses', delivered', out');
      parses, delivered, out := parses', delivered', out';
      if !again {
        return;
      }
    }
  }

  /** One more turn, served, extends every loop invariant of `handle_connection` by that turn. */
  lemma TurnServed(whole: Bytes, parses: seq<Result<Request, RequestError>>, delivered: seq<Bytes>, before: Bytes, out: Bytes,
                   request: Result<Request, RequestError>, d: Bytes, after: Bytes, written: Bytes, again: bool,
                   handler: Request -> Result<Reply, ServerError>,
                   parses': seq<Result<Request, RequestError>>, delivered': seq<Bytes>, out': Bytes)
    requires |parses| == |delivered| && whole == Concat(delivered) + before && before == d + after
    requires forall i :: 0 <= i < |parses| ==> Received(delivered[i], parses[i])
    requires forall i :: 0 <= i < |parses| ==> TurnOf(parses[i], handler).again
    requires out == Replies(parses, handler)
    requires Received(d, request) && Turn(written, again) == TurnOf(request, handler)
    requires parses' == parses + [request] && delivered' == delivered + [d] && out' == out + written
    ensures |parses'| == |delivered'| && whole == Concat(delivered') + after
    ensures forall i :: 0 <= i < |parses'| ==> Received(delivered'[i], parses'[i])
    ensures forall i :: 0 <= i < |parses'| - 1 ==> TurnOf(parses'[i], handler).again
    ensures again <==> TurnOf(parses'[|parses'| - 1], handler).again
    ensures again ==> forall i :: 0 <= i < |parses'| ==> TurnOf(parses'[i], handler).again
    ensures out' == Replies(parses', handler)
  {
    RepliesSnoc(parses, request, handler);
    TakenInTurn(whole, delivered, before, d, after);
    ReceivedSnoc(delivered, parses, d, request);
    if again {
      AgainSnoc(parses, request, handler);
    }
  }

  // ---------------------------------------------------------------------------
  // What the tests of the loop expect
  // ---------------------------------------------------------------------------

  /** The 500 response: its status line, the default field and the empty line. */
  lemma InternalErrorExample()
    ensures InternalErrorBytes() ==
      "HTTP/1.1 500 Internal Server Error\r\n" + "connection: close\r\n" + "\r\n"
  {
    WriteToInternalError();
    DefaultBlock(DefaultFields, "connection");
    WireParts(New(InternalServerError), DefaultFields, [], "HTTP/1.1 500 Internal Server Error\r\n",
              "connection: close\r\n" + "\r\n");
  }

  lemma DefaultBlock(m: FieldMap, k: Bytes)
    requires k == "connection" && m == map[k := "close"]
    ensures FieldBlock(m) == "connection: close\r\n" + "\r\n"
  {
    assert m.Keys == {k};
    SingleKey(k);
    assert Lines([k], m) == FieldLineBytes(k, m[k]) + Lines([], m);
  }

  /**
   * A handler whose response keeps the default fields writes that one
   * response and then ends the loop, whatever the request: with the
   * default "connection: close" no second request on the same connection
   * is read.
   */
  lemma DefaultResponseEndsLoop(req: Request, handler: Request -> Result<Reply, ServerError>)
    requires handler(req).Ok? && handler(req).value.fields == DefaultFields
    ensures var reply := handler(req).value;
      TurnOf(Result.Ok(req), handler) == Turn(Wire(reply.statusLine, DefaultFields, reply.body), false)
  {
    DefaultFieldsClose(req, handler(req).value.body);
  }

  /** A turn that keeps the loop going has served a request with the handler's own response. */
  lemma AgainMeansServed(parsed: Result<Request, RequestError>, handler: Request -> Result<Reply, ServerError>)
    requires TurnOf(parsed, handler).again
    ensures parsed.Ok? && handler(parsed.value).Ok?
    ensures var reply := handler(parsed.value).value;
      TurnOf(parsed, handler).written == Wire(reply.statusLine, reply.fields, reply.body)
      && !ShouldClose(parsed.value, Framed(reply.fields, reply.body))
  {
  }
}
