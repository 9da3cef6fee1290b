/**
 * `Response`: a status line, a header map and a body. Writing it out puts
 * the body's length in "content-length" first, so that the receiver of a
 * non-empty body knows where it ends (section 6.3 of RFC 9112).
 */
module Responses {
  import opened Wrappers
  import opened Bytes
  import opened HeaderMap
  import opened Status
  import Body

  /** The fields `new_with_default` starts with. */
  const DefaultFields: FieldMap := map["connection" := "close"]

  /**
   * The fields once `write_to` has run: a non-empty body sets
   * "Content-Length" to its length in decimal, and nothing else changes.
   */
  function Framed(m: FieldMap, body: Bytes): (r: FieldMap)
    ensures body == [] ==> r == m
    ensures body != [] ==> MapGet(r, "Content-Length") == Some(NatToDecimal(|body|))
    ensures forall q :: ToLower(q) != Body.ContentLength ==> MapGet(r, q) == MapGet(m, q)
  {
    Body.FramingNamesFolded();
    if body == [] then m else MapSet(m, "Content-Length", NatToDecimal(|body|))
  }

  /** The bytes `write_to` emits for a response whose fields were `m` before the call. */
  function Wire(l: StatusLine, m: FieldMap, body: Bytes): Bytes {
    Status.WriteTo(l) + FieldBlock(Framed(m, body)) + body
  }

  /** The bytes `write_to` emits as written, whose field block is empty for an empty framed map. */
  function WireAsWritten(l: StatusLine, m: FieldMap, body: Bytes): Bytes {
    Status.WriteTo(l) + FieldBlockAsWritten(Framed(m, body)) + body
  }

  /**
   * The written bytes as modelled and as written agree on every response
   * with a field or a body. With neither, the code writes the status line
   * alone, without the empty line that ends the head.
   */
  lemma WireAsWrittenAgrees(l: StatusLine, m: FieldMap, body: Bytes)
    ensures m != map[] || body != [] ==> WireAsWritten(l, m, body) == Wire(l, m, body)
    ensures m == map[] && body == [] ==>
      WireAsWritten(l, m, body) == Status.WriteTo(l) && Wire(l, m, body) == Status.WriteTo(l) + CRLF
  {
    if m != map[] || body != [] {
      if body != [] {
        Body.FramingNamesFolded();
        assert Body.ContentLength in Framed(m, body);
      }
      AsWrittenAgrees(Framed(m, body));
    } else {
      AsWrittenEmptyHasNoBlankLine();
    }
  }

  class Response {
    var statusLine: StatusLine
    var headers: Headers
    var body: Bytes

    /** `new`: the given status, the default fields and an empty body. */
    constructor (c: StatusCode)
      ensures statusLine == New(c) && body == []
      ensures fresh(headers) && headers.fields == DefaultFields
    {
      statusLine := New(c);
      headers := new Headers.WithDefault();
      body := [];
    }

    /** The struct literal `ResponseBuilder::build` moves its parts into. */
    constructor FromParts(l: StatusLine, h: Headers, b: Bytes)
      ensures statusLine == l && headers == h && body == b
    {
      statusLine := l;
      headers := h;
      body := b;
    }

    /**
     * `write_to`: the status line, then (after setting "Content-Length"
     * for a non-empty body) the field block, then the body. The writer is
     * the returned byte sequence.
     */
    method WriteTo() returns (out: Bytes)
      modifies headers
      ensures headers.fields == Framed(old(headers.fields), body)
      ensures out == Wire(statusLine, old(headers.fields), body)
    {
      out := Status.WriteTo(statusLine);
      if body != [] {
        headers.Set("Content-Length", NatToDecimal(|body|));
      }
      var block := headers.WriteTo();
      out := out + block;
      if body != [] {
        out := out + body;
      }
    }

    /** `Write::write`: the bytes are appended to the body, all of them. */
    method Write(buf: Bytes) returns (n: nat)
      modifies this
      ensures body == old(body) + buf && n == |buf|
      ensures statusLine == old(statusLine) && headers == old(headers)
    {
      body := body + buf;
      n := |buf|;
    }
  }

  // ---------------------------------------------------------------------------
  // What the written bytes mean
  // ---------------------------------------------------------------------------

  /** Writing a second time emits the same bytes: the framing field is already in place. */
  lemma {:induction false} WriteAgainSame(l: StatusLine, m: FieldMap, body: Bytes)
    ensures Framed(Framed(m, body), body) == Framed(m, body)
    ensures Wire(l, Framed(m, body), body) == Wire(l, m, body)
  {
    if body != [] {
      SetIdempotent(m, "Content-Length", NatToDecimal(|body|));
    }
  }

  /** A decimal length is a valid, trimmed field value. */
  lemma DigitsWritable(s: Bytes)
    requires AllDigits(s, 10)
    ensures IsValidFieldValue(s) && Trimmed(s)
  {
    forall k | 0 <= k < |s|
      ensures IsFieldValueByte(s[k]) && s[k] !in AsciiWhitespace
    {
      assert IsDigit(s[k]);
    }
  }

  /** Framing keeps a writable map writable. */
  lemma FramedWritable(m: FieldMap, body: Bytes)
    requires Writable(m)
    ensures Writable(Framed(m, body))
  {
    if body != [] {
      Body.FramingNamesFolded();
      var k := Body.ContentLength;
      assert IsLower(k) && IsValidToken(k);
      DigitsWritable(NatToDecimal(|body|));
    }
  }

  /**
   * A written response reads back: its first CRLF ends the status line,
   * the field block after it reads back as the framed fields, and the
   * body follows untouched. A non-empty body is announced with exactly
   * its own length.
   */
  lemma ReadBack(l: StatusLine, m: FieldMap, body: Bytes, rest: Bytes)
    requires CrlfFree(l.version) && Writable(m) && |body| <= USIZE_MAX
    ensures var s := Wire(l, m, body) + rest;
      var n := |Status.WriteTo(l)|;
      var e := Framed(m, body);
      FindCrlf(s) == Some(n - 2)
      && ParseBlock(s[n..], map[]) == Result.Ok(Some((e, |FieldBlock(e)|)))
      && s[n + |FieldBlock(e)|..] == body + rest
      && (body != [] ==> Body.Lookup(e, Body.ContentLength) == Some(NatToDecimal(|body|))
                         && Body.ParseContentLength(NatToDecimal(|body|)) == Body.Length(|body|))
  {
    var line := Status.WriteTo(l);
    var e := Framed(m, body);
    WriteToIsOneLine(l);
    FramedWritable(m, body);
    ReadBackLine(line, FieldBlock(e), body + rest);
    BlockAfterLine(line, e, FieldBlock(e), body + rest);
    WireParts(l, m, body, line, FieldBlock(e));
    JoinLastTwo(line, FieldBlock(e), body, rest);
    if body != [] {
      FramedLength(m, body);
    }
  }

  /** A body's length, written into the fields, is read back by the body parser as that length. */
  lemma FramedLength(m: FieldMap, body: Bytes)
    requires body != [] && |body| <= USIZE_MAX
    ensures Body.Lookup(Framed(m, body), Body.ContentLength) == Some(NatToDecimal(|body|))
    ensures Body.ParseContentLength(NatToDecimal(|body|)) == Body.Length(|body|)
  {
    Body.FramingNamesFolded();
    DecimalRoundTrip(|body|);
  }

  /** A one-line head, then anything: its CRLF is the first. */
  lemma ReadBackLine(line: Bytes, block: Bytes, tail: Bytes)
    requires |line| >= 2 && FindCrlf(line) == Some(|line| - 2)
    ensures FindCrlf(line + block + tail) == Some(|line| - 2)
  {
    FindCrlfExtend(line, block + tail);
    assert line + block + tail == line + (block + tail);
  }

  /** The block after the line, read on its own. */
  lemma BlockAfterLine(line: Bytes, e: FieldMap, block: Bytes, tail: Bytes)
    requires Writable(e) && block == FieldBlock(e)
    ensures (line + block + tail)[|line|..] == block + tail
    ensures (line + block + tail)[|line| + |block|..] == tail
    ensures ParseBlock(block + tail, map[]) == Result.Ok(Some((e, |block|)))
  {
    assert (line + block + tail)[|line|..] == block + tail;
    ParseWrittenBlock(e, tail);
  }

  // ---------------------------------------------------------------------------
  // The three writes of the response test
  // ---------------------------------------------------------------------------

  /**
   * No fields and no body: with the corrected block, the status line and
   * the empty line that the test expects; as written, the status line alone.
   */
  lemma WriteExampleEmpty()
    ensures Wire(New(StatusCode.Ok), map[], []) == "HTTP/1.1 200 Ok\r\n\r\n"
    ensures WireAsWritten(New(StatusCode.Ok), map[], []) == "HTTP/1.1 200 Ok\r\n"
  {
    AsWrittenEmptyHasNoBlankLine();
    WriteToOk();
  }

  /** The written response is the status line, the field block and the body, in that order. */
  lemma WireParts(l: StatusLine, m: FieldMap, body: Bytes, line: Bytes, block: Bytes)
    requires line == Status.WriteTo(l) && block == FieldBlock(Framed(m, body))
    ensures Wire(l, m, body) == line + block + body
  {
  }

  /** The lines of two keys are the line of the first, then the line of the second. */
  lemma TwoLines(ks: seq<Bytes>, e: FieldMap)
    requires |ks| == 2 && ks[0] in e && ks[1] in e
    ensures Lines(ks, e) == FieldLineBytes(ks[0], e[ks[0]]) + FieldLineBytes(ks[1], e[ks[1]])
  {
    assert Lines(ks[1..][1..], e) == [];
  }

  lemma TypeBlock(m: FieldMap)
    requires m == map["content-type" := "text/plain"]
    ensures FieldBlock(m) == "content-type: text/plain\r\n" + "\r\n"
  {
    var k: Bytes := "content-type";
    assert m.Keys == {k};
    SingleKey(k);
    assert Lines([k], m) == FieldLineBytes(k, m[k]) + Lines([], m);
  }

  /** One field, no body. */
  lemma WriteExampleField(l: StatusLine, m: FieldMap, body: Bytes)
    requires l == New(StatusCode.Ok) && m == map["content-type" := "text/plain"] && body == []
    ensures Wire(l, m, body) == "HTTP/1.1 200 Ok\r\n" + "content-type: text/plain\r\n" + "\r\n"
  {
    assert Framed(m, body) == m;
    TypeBlock(m);
    WriteToOk();
    WireParts(l, m, body, "HTTP/1.1 200 Ok\r\n", "content-type: text/plain\r\n" + "\r\n");
  }

  /** "content-length" sorts before "content-type": they first differ at 'l' against 't'. */
  lemma LengthBeforeType(a: Bytes, c: Bytes)
    requires a == "content-length" && c == "content-type"
    ensures LexLess(a, c)
  {
    assert a[..8] == c[..8];
    LexAt(a, c, 8);
  }

  /** Two byte strings that agree before position `i` and differ there are ordered by that byte. */
  lemma {:induction false} LexAt(a: Bytes, c: Bytes, i: nat)
    requires i < |a| && i < |c| && a[..i] == c[..i] && a[i] < c[i]
    ensures LexLess(a, c)
    decreases i
  {
    if i > 0 {
      assert a[0] == a[..i][0] == c[..i][0] == c[0];
      assert a[1..][..i - 1] == a[..i][1..] == c[..i][1..] == c[1..][..i - 1];
      LexAt(a[1..], c[1..], i - 1);
    }
  }

  /** Two keys in order are written in that order. */
  lemma PairKeys(a: Bytes, c: Bytes)
    requires LexLess(a, c)
    ensures SortedKeys({a, c}) == [a, c]
  {
    LexIrreflexive(a);
    SortedUnique(SortedKeys({a, c}), [a, c]);
  }

  lemma LengthTypeKeys(e: FieldMap, a: Bytes, c: Bytes)
    requires a == "content-length" && c == "content-type"
    requires e == map[a := "5", c := "text/plain"]
    ensures SortedKeys(e.Keys) == [a, c]
  {
    assert e.Keys == {a, c};
    LengthBeforeType(a, c);
    PairKeys(a, c);
  }

  /** A block of two fields whose names are in order. */
  lemma PairBlock(e: FieldMap, a: Bytes, c: Bytes)
    requires a in e && c in e && SortedKeys(e.Keys) == [a, c]
    ensures FieldBlock(e) == FieldLineBytes(a, e[a]) + FieldLineBytes(c, e[c]) + CRLF
  {
    TwoLines([a, c], e);
  }

  lemma LengthLine(a: Bytes, v: Bytes)
    requires a == "content-length" && v == "5"
    ensures FieldLineBytes(a, v) == "content-length: 5\r\n"
  {
  }

  lemma TypeLine(c: Bytes, w: Bytes)
    requires c == "content-type" && w == "text/plain"
    ensures FieldLineBytes(c, w) == "content-type: text/plain\r\n"
  {
  }

  lemma LengthTypeBlock(e: FieldMap, a: Bytes, c: Bytes)
    requires a == "content-length" && c == "content-type"
    requires e == map[a := "5", c := "text/plain"]
    ensures FieldBlock(e) == "content-length: 5\r\n" + "content-type: text/plain\r\n" + CRLF
  {
    LengthTypeKeys(e, a, c);
    PairBlock(e, a, c);
    assert |a| != |c|;
    LengthLine(a, e[a]);
    TypeLine(c, e[c]);
  }

  lemma FramedHello(m: FieldMap, body: Bytes)
    requires m == map["content-type" := "text/plain"] && body == "Hello"
    ensures Framed(m, body) == map["content-length" := "5", "content-type" := "text/plain"]
  {
    Body.FramingNamesFolded();
    assert NatToDecimal(5) == "5";
  }

  /** A five-byte body brings "content-length: 5", which sorts first. */
  lemma WriteExampleBody(l: StatusLine, m: FieldMap, body: Bytes)
    requires l == New(StatusCode.Ok) && m == map["content-type" := "text/plain"] && body == "Hello"
    ensures Wire(l, m, body) ==
      "HTTP/1.1 200 Ok\r\n" + "content-length: 5\r\n" + "content-type: text/plain\r\n" + "\r\n" + "Hello"
  {
    var e := Framed(m, body);
    FramedHello(m, body);
    LengthTypeBlock(e, "content-length", "content-type");
    WriteToOk();
    WireParts(l, m, body, Status.WriteTo(l), FieldBlock(e));
    HelloGlue(Wire(l, m, body), Status.WriteTo(l), FieldBlock(e), body);
  }

  lemma HelloGlue(w: Bytes, line: Bytes, block: Bytes, body: Bytes)
    requires w == line + block + body && line == "HTTP/1.1 200 Ok\r\n" && body == "Hello"
    requires block == "content-length: 5\r\n" + "content-type: text/plain\r\n" + CRLF
    ensures w == "HTTP/1.1 200 Ok\r\n" + "content-length: 5\r\n" + "content-type: text/plain\r\n" + "\r\n" + "Hello"
  {
  }

  /** Writes fill the body in order, as `write_all` of the test does. */
  method WriteExample() returns (r: Response)
    ensures fresh(r) && r.body == "Hello"
  {
    r := new Response(StatusCode.Ok);
    var n := r.Write("Hel");
    n := r.Write("lo");
  }
}
