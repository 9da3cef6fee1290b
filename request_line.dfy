/** The request line of section 3 of RFC 9112: method SP request-target SP HTTP-version. */
module RequestLine {
  import opened Wrappers
  import opened Bytes
  import opened Errors
  import opened HttpMethod
  import opened Version

  datatype RequestLine = RequestLine(httpMethod: Method, url: Bytes, version: HttpVersion)

  /** The version field as written on the wire. */
  function VersionToken(v: HttpVersion): Bytes {
    "HTTP/" + Display(v)
  }

  /** A third part accepted by `from_line` is the version token of the version it names. */
  lemma VersionPart(p: Bytes)
    requires |Split(p, '/')| == 2 && Split(p, '/')[0] == "HTTP" && FromBytes(Split(p, '/')[1]).Ok?
    ensures p == VersionToken(FromBytes(Split(p, '/')[1]).value)
  {
    var v := Split(p, '/');
    DisplayFromBytes(v[1]);
    assert v[1..] == [v[1]];
    assert Join(v, '/') == v[0] + ['/'] + v[1];
  }

  /**
   * `from_line`: exactly three parts separated by single spaces, a known
   * method, and a third part that is "HTTP" '/' followed by a supported
   * version.
   */
  function FromLine(line: Bytes): (r: Result<RequestLine, RequestLineError>)
    ensures |Split(line, SP)| != 3 ==> r == Err(MalformedRequestLine)
    ensures |Split(line, SP)| == 3 && HttpMethod.Parse(Split(line, SP)[0]).Err? ==> r == Err(InvalidMethod)
    ensures r.Ok? ==> Split(line, SP) == [ToStr(r.value.httpMethod), r.value.url, VersionToken(r.value.version)]
  {
    var parts := Split(line, SP);
    if |parts| != 3 then Err(MalformedRequestLine)
    else match HttpMethod.Parse(parts[0]) {
      case Err(e) => Err(e)
      case Ok(m) =>
        var vparts := Split(parts[2], '/');
        if |vparts| != 2 || vparts[0] != "HTTP" then Err(MalformedRequestLine)
        else match FromBytes(vparts[1]) {
          case Err(e) => Err(Version(e))
          case Ok(version) =>
            VersionPart(parts[2]);
            assert parts == [parts[0], parts[1], parts[2]];
            Ok(RequestLine(m, parts[1], version))
        }
    }
  }

  /** The bytes of the line before its CRLF. */
  function Line(rl: RequestLine): Bytes {
    ToStr(rl.httpMethod) + [SP] + rl.url + [SP] + VersionToken(rl.version)
  }

  /** `write_to`: the line followed by CRLF. */
  function WriteTo(rl: RequestLine): (out: Bytes)
    ensures |out| >= 2 && out[..|out| - 2] == Line(rl) && out[|out| - 2..] == CRLF
  {
    Line(rl) + CRLF
  }

  /** Requests built by this library name a version, and a target with no space in it. */
  predicate Writable(rl: RequestLine) {
    SP !in rl.url && Display(rl.version) != ""
  }

  /** The version token splits on '/' into "HTTP" and the version number. */
  lemma VersionTokenSplit(v: HttpVersion)
    requires Display(v) != ""
    ensures Split(VersionToken(v), '/') == ["HTTP", Display(v)]
  {
    var d := Display(v);
    assert '/' !in d by {
      assert d == "1.0" || d == "1.1";
    }
    var vparts := ["HTTP", d];
    assert Join(vparts, '/') == VersionToken(v);
    SplitJoin(vparts, '/');
  }

  /** A written line splits on SP into exactly its three fields. */
  lemma LineSplit(rl: RequestLine)
    requires Writable(rl)
    ensures Split(Line(rl), SP) == [ToStr(rl.httpMethod), rl.url, VersionToken(rl.version)]
  {
    var m := ToStr(rl.httpMethod);
    var vt := VersionToken(rl.version);
    assert SP !in m;
    assert SP !in vt by {
      assert Display(rl.version) == "1.0" || Display(rl.version) == "1.1";
    }
    var parts := [m, rl.url, vt];
    assert Join(parts, SP) == Line(rl) by {
      assert Join(parts[1..], SP) == rl.url + [SP] + vt by {
        assert parts[1..][1..] == [vt];
      }
    }
    SplitJoin(parts, SP);
  }

  /** Parsing a written line (without its CRLF) gives the request line back. */
  lemma FromLineWriteTo(rl: RequestLine)
    requires Writable(rl)
    ensures FromLine(WriteTo(rl)[..|WriteTo(rl)| - 2]) == Ok(rl)
  {
    LineSplit(rl);
    VersionTokenSplit(rl.version);
    ParseToStr(rl.httpMethod);
    FromBytesDisplay(rl.version);
  }

  /** A line is found as soon as its CRLF is in the buffer. */
  lemma WriteToIsOneLine(rl: RequestLine)
    requires Writable(rl) && CrlfFree(rl.url)
    ensures FindCrlf(WriteTo(rl)) == Some(|WriteTo(rl)| - 2)
  {
    var line := Line(rl);
    var m := ToStr(rl.httpMethod);
    var vt := VersionToken(rl.version);
    assert vt == "HTTP/1.0" || vt == "HTTP/1.1" by {
      assert Display(rl.version) == "1.0" || Display(rl.version) == "1.1";
    }
    forall k | 0 <= k < |line| - 1
      ensures !CrlfAt(line, k)
    {
      var a := |m| + 1;
      var b := a + |rl.url|;
      if k < |m| {
      } else if a <= k < b - 1 {
        assert line[k] == rl.url[k - a] && line[k + 1] == rl.url[k - a + 1];
        assert !CrlfAt(rl.url, k - a);
      } else if k == b - 1 {
        assert line[k + 1] == SP;
      } else if k > b {
        assert line[k] == vt[k - b - 1];
      }
    }
    assert line[|line| - 1] == vt[|vt| - 1];
    FindCrlfOfLine(line, []);
    assert line + CRLF + [] == WriteTo(rl);
  }

  /** `RequestLine::parse`: the first CRLF-terminated line of `bytes`, with the bytes it uses (CRLF included). */
  function ParseLine(bytes: Bytes): (r: Result<Option<(RequestLine, nat)>, RequestLineError>)
    ensures FindCrlf(bytes).None? <==> r == Ok(None)
    ensures r.Ok? && r.value.Some? ==>
      FindCrlf(bytes).Some? && r.value.value.1 == FindCrlf(bytes).value + 2
      && FromLine(bytes[..FindCrlf(bytes).value]) == Ok(r.value.value.0)
    ensures r.Err? ==> FindCrlf(bytes).Some? && FromLine(bytes[..FindCrlf(bytes).value]) == Err(r.error)
  {
    match FindCrlf(bytes) {
      case None => Ok(None)
      case Some(end) => LineOf(FromLine(bytes[..end]), end)
    }
  }

  /** A line read from the bytes before a CRLF at `end`, with the CRLF counted as used. */
  function LineOf(line: Result<RequestLine, RequestLineError>, end: nat): Result<Option<(RequestLine, nat)>, RequestLineError> {
    match line
    case Err(e) => Err(e)
    case Ok(rl) => Ok(Some((rl, end + 2)))
  }

  /** `from_parts`. */
  function FromParts(m: Method, url: Bytes, v: HttpVersion): (rl: RequestLine)
    ensures rl.httpMethod == m && rl.url == url && rl.version == v
  {
    RequestLine(m, url, v)
  }

  /** `default`: GET, an empty target, HTTP/1.1. */
  function Default(): (rl: RequestLine)
    ensures rl.httpMethod == Get && rl.url == [] && rl.version == HttpVersion(1, 1)
  {
    RequestLine(Get, "", Version.Default())
  }

  /** The line the library writes for GET of "/" over HTTP/1.1. */
  lemma LineGet()
    ensures Line(RequestLine(Get, "/", HttpVersion(1, 1))) == "GET / HTTP/1.1"
  {
  }

  /** The line the library writes for POST of "/test" over HTTP/1.1. */
  lemma LinePost()
    ensures Line(RequestLine(Post, "/test", HttpVersion(1, 1))) == "POST /test HTTP/1.1"
  {
  }

  /** An accepting case of the request-line test: "GET / HTTP/1.1". */
  lemma FromLineGet(line: Bytes)
    requires line == "GET / HTTP/1.1"
    ensures FromLine(line) == Ok(RequestLine(Get, "/", HttpVersion(1, 1)))
  {
    FromLineWriteTo(RequestLine(Get, "/", HttpVersion(1, 1)));
    LineGet();
  }

  /** An accepting case of the request-line test: "POST /test HTTP/1.1". */
  lemma FromLinePost(line: Bytes)
    requires line == "POST /test HTTP/1.1"
    ensures FromLine(line) == Ok(RequestLine(Post, "/test", HttpVersion(1, 1)))
  {
    FromLineWriteTo(RequestLine(Post, "/test", HttpVersion(1, 1)));
    LinePost();
  }

  /** The parts of the line with a double space. */
  lemma DoubleSpaceParts()
    ensures Join(["POST", "", "/test", "HTTP/1.1"], SP) == "POST  /test HTTP/1.1"
  {
  }

  /** The parts of the line with "HTP" in place of "HTTP". */
  lemma BadProtocolParts()
    ensures Join(["POST", "/test", "HTP/1.1"], SP) == "POST /test HTP/1.1"
    ensures Join(["HTP", "1.1"], '/') == "HTP/1.1"
  {
  }

  /** "POST /test HTP/1.1" has three fields, and its third does not name the protocol. */
  lemma BadProtocolSplit(line: Bytes)
    requires line == "POST /test HTP/1.1"
    ensures |Split(line, SP)| == 3 && HttpMethod.Parse(Split(line, SP)[0]) == Ok(Post)
    ensures Split(Split(line, SP)[2], '/')[0] != "HTTP"
  {
    BadProtocolParts();
    SplitJoin(["POST", "/test", "HTP/1.1"], SP);
    BadProtocolToken(Split(line, SP)[2]);
    ParseToStr(Post);
  }

  /** "HTP/1.1" does not name the protocol. */
  lemma BadProtocolToken(p: Bytes)
    requires p == "HTP/1.1"
    ensures Split(p, '/')[0] != "HTTP"
  {
    BadProtocolParts();
    SplitJoin(["HTP", "1.1"], '/');
  }

  /** A rejecting case of the request-line test: a double space makes four parts. */
  lemma FromLineDoubleSpace(line: Bytes)
    requires line == "POST  /test HTTP/1.1"
    ensures FromLine(line) == Err(MalformedRequestLine)
  {
    DoubleSpaceParts();
    SplitJoin(["POST", "", "/test", "HTTP/1.1"], SP);
  }

  /** A rejecting case of the request-line test: "HTP" in place of "HTTP". */
  lemma FromLineBadProtocol(line: Bytes)
    requires line == "POST /test HTP/1.1"
    ensures FromLine(line) == Err(MalformedRequestLine)
  {
    BadProtocolSplit(line);
  }
}
