/**
 * `RequestBuilder`: a request assembled by value. Every step takes the
 * builder and hands back a new one, so it is modelled as a datatype and
 * functions over it.
 */
module RequestBuilding {
  import opened Wrappers
  import opened Bytes
  import opened HttpMethod
  import opened Version
  import opened HeaderMap
  import opened RequestLine
  import opened Request

  datatype RequestBuilder = RequestBuilder(requestLine: RequestLine, fields: FieldMap, body: Bytes)

  /** `new`: the method and target given, the default version HTTP/1.1, no fields, no body. */
  function New(m: Method, url: Bytes): (b: RequestBuilder)
    ensures b.requestLine.httpMethod == m && b.requestLine.url == url
    ensures EqTuple(b.requestLine.version, (1, 1))
    ensures b.fields == map[] && b.body == []
  {
    RequestBuilder(FromParts(m, url, Version.Default()), map[], [])
  }

  /**
   * `header`: goes through `add`, so a name given twice (in any case)
   * holds both values joined by a comma; every other name keeps its value.
   */
  function Header(b: RequestBuilder, name: Bytes, value: Bytes): (r: RequestBuilder)
    ensures r.requestLine == b.requestLine && r.body == b.body
    ensures MapGet(r.fields, name) ==
      if MapGet(b.fields, name).Some? then Some(MapGet(b.fields, name).value + [','] + value) else Some(value)
    ensures forall q :: ToLower(q) != ToLower(name) ==> MapGet(r.fields, q) == MapGet(b.fields, q)
  {
    GetAfterAdd(b.fields, name, value, name);
    b.(fields := MapAdd(b.fields, name, value))
  }

  /** `body`: replaces whatever body was given before. */
  function WithBody(b: RequestBuilder, body: Bytes): (r: RequestBuilder)
    ensures r.requestLine == b.requestLine && r.fields == b.fields && r.body == body
  {
    b.(body := body)
  }

  /** `build`: the parts move into a request unchanged. */
  function Build(b: RequestBuilder): (r: Request)
    ensures r.line == b.requestLine && r.fields == b.fields && r.body == b.body
  {
    Request(b.requestLine, b.fields, b.body)
  }

  /** Only the last `body` counts. */
  lemma LastBodyWins(b: RequestBuilder, x: Bytes, y: Bytes)
    ensures WithBody(WithBody(b, x), y) == WithBody(b, y)
  {
  }

  /** A name added twice holds "first,second", whatever the case of the second spelling. */
  lemma {:induction false} HeaderTwiceJoins(b: RequestBuilder, name: Bytes, other: Bytes, v1: Bytes, v2: Bytes)
    requires MapGet(b.fields, name).None? && ToLower(other) == ToLower(name)
    ensures MapGet(Build(Header(Header(b, name, v1), other, v2)).fields, name) == Some(v1 + [','] + v2)
  {
    var b1 := Header(b, name, v1);
    GetIgnoresCase(b1.fields, name);
    GetIgnoresCase(b1.fields, other);
    var b2 := Header(b1, other, v2);
    GetIgnoresCase(b2.fields, name);
    GetIgnoresCase(b2.fields, other);
  }

  /**
   * The request line of a built request, written out, reads back as the
   * same line whenever the target holds no space.
   */
  lemma BuiltLineReadsBack(m: Method, url: Bytes)
    requires SP !in url
    ensures var rl := Build(New(m, url)).line;
      FromLine(WriteTo(rl)[..|WriteTo(rl)| - 2]) == Result.Ok(rl)
  {
    FromLineWriteTo(Build(New(m, url)).line);
  }

  /** The builder test: GET of "/" with "AA: BB" and no body. */
  lemma BuilderExample()
    ensures var r := Build(Header(New(Get, "/"), "AA", "BB"));
      r.body == [] && r.line.httpMethod == Get && r.line.url == "/" && EqTuple(r.line.version, (1, 1))
      && MapGet(r.fields, "AA") == Some("BB")
  {
  }
}
