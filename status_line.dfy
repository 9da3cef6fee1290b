/** Status codes and the status line of section 4 of RFC 9112. */
module Status {
  import opened Wrappers
  import opened Bytes

  datatype StatusCode = Ok | BadRequest | NotFound | MethodNotAllowed | InternalServerError

  /** The numeric value each code stands for (section 15 of RFC 9110). */
  function Code(c: StatusCode): nat {
    match c
    case Ok => 200
    case BadRequest => 400
    case NotFound => 404
    case MethodNotAllowed => 405
    case InternalServerError => 500
  }

  /** `to_bytes`: the three-digit code. */
  function ToBytes(c: StatusCode): (s: Bytes)
    ensures |s| == 3 && ParseDecimal(s) == Some(Code(c)) && CR !in s && SP !in s
  {
    ThreeDigits(Code(c));
    match c
    case Ok => "200"
    case BadRequest => "400"
    case NotFound => "404"
    case MethodNotAllowed => "405"
    case InternalServerError => "500"
  }

  lemma ThreeDigits(n: nat)
    requires 100 <= n < 1000
    ensures var s: Bytes := [('0' as int + n / 100) as char, ('0' as int + n / 10 % 10) as char, ('0' as int + n % 10) as char];
      ParseDecimal(s) == Some(n)
  {
    var s: Bytes := [('0' as int + n / 100) as char, ('0' as int + n / 10 % 10) as char, ('0' as int + n % 10) as char];
    assert s[..2][..1][..0] == [];
    assert DigitsValue(s[..2][..1], 10) == n / 100;
    assert DigitsValue(s[..2], 10) == n / 10;
    assert DigitsValue(s, 10) == n;
  }

  /** Distinct codes print distinct digits. */
  lemma ToBytesInjective(a: StatusCode, b: StatusCode)
    requires ToBytes(a) == ToBytes(b)
    ensures a == b
  {
    assert ParseDecimal(ToBytes(a)) == Some(Code(a));
    assert ParseDecimal(ToBytes(b)) == Some(Code(b));
  }

  /** `to_reason`: the reason phrase, one line of text. */
  function ToReason(c: StatusCode): (s: Bytes)
    ensures |s| > 0 && CR !in s
  {
    match c
    case Ok => "Ok"
    case BadRequest => "Bad Request"
    case NotFound => "Not Found"
    case MethodNotAllowed => "Method Not Allowed"
    case InternalServerError => "Internal Server Error"
  }

  datatype StatusLine = StatusLine(version: Bytes, statusCode: StatusCode)

  /** `StatusLine::new`: every line this library builds is an HTTP/1.1 line. */
  function New(c: StatusCode): (l: StatusLine)
    ensures l.version == "1.1" && l.statusCode == c
  {
    StatusLine("1.1", c)
  }

  /** `write_to`: "HTTP/" version SP code SP reason CRLF. */
  function WriteTo(l: StatusLine): (out: Bytes)
    ensures |out| > 7 && out[..5] == "HTTP/" && out[|out| - 2..] == CRLF
  {
    "HTTP/" + l.version + [SP] + ToBytes(l.statusCode) + [SP] + ToReason(l.statusCode) + CRLF
  }

  /** Distinct codes have distinct reason phrases. */
  lemma ToReasonInjective(a: StatusCode, b: StatusCode)
    requires ToReason(a) == ToReason(b)
    ensures a == b
  {
    assert |ToReason(a)| == |ToReason(b)|;
    if |ToReason(a)| == 9 {
      assert ToReason(a)[0] == ToReason(b)[0];
    }
  }

  /**
   * How a receiver reads a status line, given the bytes before its CRLF
   * (section 4 of RFC 9112): "HTTP/" and the version up to the first space,
   * three digits up to the second, and the reason phrase after it.
   */
  function ReadStatusLine(line: Bytes): Option<(Bytes, nat, Bytes)> {
    match SplitOnce(line, SP)
    case None => None
    case Some((protocol, rest)) =>
      if |protocol| < 5 || protocol[..5] != "HTTP/" then None
      else match SplitOnce(rest, SP)
        case None => None
        case Some((digits, reason)) =>
          if |digits| != 3 then None
          else match ParseDecimal(digits)
            case None => None
            case Some(n) => Some((protocol[5..], n, reason))
  }

  /** A line built from a version, three digits and a phrase reads back as those parts. */
  lemma LineReadsBack(version: Bytes, digits: Bytes, reason: Bytes, n: nat, line: Bytes)
    requires SP !in version && |digits| == 3 && SP !in digits && ParseDecimal(digits) == Some(n)
    requires line == "HTTP/" + version + [SP] + digits + [SP] + reason
    ensures ReadStatusLine(line) == Some((version, n, reason))
  {
    var protocol: Bytes := "HTTP/" + version;
    var rest := digits + [SP] + reason;
    assert line == protocol + [SP] + rest;
    assert SP !in protocol by {
      assert forall k :: 0 <= k < |protocol| ==> protocol[k] == if k < 5 then "HTTP/"[k] else version[k - 5];
    }
    SplitOnceIs(line, SP, protocol, rest);
    SplitOnceIs(rest, SP, digits, reason);
    assert protocol[..5] == "HTTP/" && protocol[5..] == version;
  }

  /**
   * Every written status line reads back, whatever its code: the version,
   * the code's numeric value and the code's reason phrase, then the CRLF.
   */
  lemma WriteToReadsBack(l: StatusLine)
    requires SP !in l.version
    ensures |WriteTo(l)| >= 2 && WriteTo(l)[|WriteTo(l)| - 2..] == CRLF
    ensures ReadStatusLine(WriteTo(l)[..|WriteTo(l)| - 2]) == Some((l.version, Code(l.statusCode), ToReason(l.statusCode)))
  {
    var c := l.statusCode;
    var line := "HTTP/" + l.version + [SP] + ToBytes(c) + [SP] + ToReason(c);
    DropCrlf(line, WriteTo(l));
    LineReadsBack(l.version, ToBytes(c), ToReason(c), Code(c), line);
  }

  lemma DropCrlf(line: Bytes, s: Bytes)
    requires s == line + CRLF
    ensures |s| >= 2 && s[|s| - 2..] == CRLF && s[..|s| - 2] == line
  {
  }

  /** Distinct codes have distinct numeric values. */
  lemma CodeInjective(a: StatusCode, b: StatusCode)
    requires Code(a) == Code(b)
    ensures a == b
  {
  }

  /** Distinct status lines are written as distinct bytes. */
  lemma WriteToInjective(a: StatusLine, b: StatusLine)
    requires SP !in a.version && SP !in b.version && WriteTo(a) == WriteTo(b)
    ensures a == b
  {
    WriteToReadsBack(a);
    WriteToReadsBack(b);
    CodeInjective(a.statusCode, b.statusCode);
  }

  /** For a well-formed version the written status line is exactly one line: its only CRLF is the last two bytes. */
  lemma WriteToIsOneLine(l: StatusLine)
    requires CrlfFree(l.version)
    ensures FindCrlf(WriteTo(l)) == Some(|WriteTo(l)| - 2)
  {
    var line := "HTTP/" + l.version + [SP] + ToBytes(l.statusCode) + [SP] + ToReason(l.statusCode);
    var r := ToReason(l.statusCode);
    assert line[|line| - 1] == r[|r| - 1];
    LineCrlfFree(l.version, l.statusCode);
    FindCrlfOfLine(line, []);
    assert line + CRLF + [] == WriteTo(l);
  }

  lemma LineCrlfFree(version: Bytes, c: StatusCode)
    requires CrlfFree(version)
    ensures CrlfFree("HTTP/" + version + [SP] + ToBytes(c) + [SP] + ToReason(c))
  {
    var prefix: Bytes := "HTTP/";
    var rest := [SP] + ToBytes(c) + [SP] + ToReason(c);
    NoCrCrlfFree(prefix);
    NoCrCrlfFree(rest);
    CrlfFreeJoin(prefix, version);
    CrlfFreeJoin(prefix + version, rest);
    assert prefix + version + [SP] + ToBytes(c) + [SP] + ToReason(c) == (prefix + version) + rest;
  }

  /** The line the status-line test expects. */
  lemma WriteToOk()
    ensures WriteTo(New(StatusCode.Ok)) == "HTTP/1.1 200 Ok\r\n"
  {
  }

  /** The status line of the server's fallback response. */
  lemma WriteToInternalError()
    ensures WriteTo(New(InternalServerError)) == "HTTP/1.1 500 Internal Server Error\r\n"
  {
    assert "HTTP/1.1 500 " + "Internal Server Error" + CRLF == "HTTP/1.1 500 Internal Server Error\r\n";
  }
}
