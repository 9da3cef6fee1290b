/** `ResponseBuilder`: a response assembled step by step, then moved into a `Response`. */
module ResponseBuilding {
  import opened Wrappers
  import opened Bytes
  import opened Errors
  import opened HeaderMap
  import opened Status
  import opened Responses

  class ResponseBuilder {
    var statusLine: StatusLine
    var headers: Headers
    var body: Bytes

    /** `new`: status 200, the default fields, an empty body. */
    constructor ()
      ensures statusLine == New(StatusCode.Ok) && body == []
      ensures fresh(headers) && headers.fields == DefaultFields
    {
      statusLine := New(StatusCode.Ok);
      headers := new Headers.WithDefault();
      body := [];
    }

    /** `set_status_code`: a new HTTP/1.1 status line; fields and body stay. */
    method SetStatusCode(c: StatusCode)
      modifies this
      ensures statusLine == New(c) && headers == old(headers) && body == old(body)
    {
      statusLine := New(c);
    }

    /** `add_header`: goes through `set`, so an earlier value of the name is replaced. */
    method AddHeader(name: Bytes, value: Bytes)
      modifies headers
      ensures headers.fields == MapSet(old(headers.fields), name, value)
    {
      headers.Set(name, value);
    }

    /** `add_to_body`: appends; writing into a growable buffer does not fail. */
    method AddToBody(b: Bytes) returns (r: Result<(), ServerError>)
      modifies this
      ensures body == old(body) + b && r.Ok?
      ensures statusLine == old(statusLine) && headers == old(headers)
    {
      body := body + b;
      r := Result.Ok(());
    }

    /** `build`: the parts move into a response unchanged. */
    method Build() returns (resp: Response)
      ensures fresh(resp)
      ensures resp.statusLine == statusLine && resp.headers == headers && resp.body == body
    {
      resp := new Response.FromParts(statusLine, headers, body);
    }
  }

  /** The builder test: status 200, "AA: BB" set, nothing in the body. */
  method BuilderExample() returns (resp: Response)
    ensures resp.body == [] && resp.statusLine.statusCode == StatusCode.Ok
    ensures resp.headers.Get("AA") == Some("BB")
    ensures resp.headers.Get("Connection") == Some("close")
  {
    var builder := new ResponseBuilder();
    builder.SetStatusCode(StatusCode.Ok);
    builder.AddHeader("AA", "BB");
    resp := builder.Build();
    BuilderExampleFields(resp.headers.fields);
  }

  lemma BuilderExampleFields(m: FieldMap)
    requires m == MapSet(DefaultFields, "AA", "BB")
    ensures MapGet(m, "AA") == Some("BB") && MapGet(m, "Connection") == Some("close")
  {
    assert ToLower("AA") == "aa";
    assert ToLower("Connection") == "connection";
  }

  /** A later `add_header` of the same name, in any case, wins. */
  lemma AddHeaderOverwrites(m: FieldMap, name: Bytes, v1: Bytes, other: Bytes, v2: Bytes)
    requires ToLower(other) == ToLower(name)
    ensures MapGet(MapSet(MapSet(m, name, v1), other, v2), name) == Some(v2)
  {
    GetAfterSet(MapSet(m, name, v1), other, v2, name);
  }
}
