/**
 * The parser object behind `request_from_reader`: `RequestParser` holds the
 * request so far and its state, and `parse` runs the passes of the
 * `Request` module over the bytes it is given.
 */
module RequestParsing {
  import opened Wrappers
  import opened Bytes
  import opened Errors
  import opened HeaderMap
  import opened RequestLine
  import Body
  import opened Request
  import opened Reader

  class RequestParser {
    var line: RequestLine
    /** The request's header map, which `parse` fills through `Headers::parse`. */
    const headers: Headers
    var body: Bytes
    var state: ParserState
    var bodyLen: Option<nat>

    /** The parser as a value. */
    function Snap(): Parsing
      reads this, headers
    {
      Parsing(Request(line, headers.fields, body), state, bodyLen)
    }

    /** The parser `request_from_reader` sets up. */
    constructor ()
      ensures Snap() == Initial() && fresh(headers)
    {
      line := Default();
      headers := new Headers();
      body := [];
      state := AtRequestLine;
      bodyLen := None;
    }

    /**
     * `find_body_len`: settles the body length once, as `BodyLen` says, and
     * leaves it unset on an error. (The `values.next()` of the source cannot
     * come back empty: splitting always gives at least one item.)
     */
    method FindBodyLen() returns (r: Result<(), RequestError>)
      modifies this
      ensures line == old(line) && body == old(body) && state == old(state)
      ensures BodyLen(old(bodyLen), headers.fields).Ok? ==>
        r.Ok? && bodyLen == Some(BodyLen(old(bodyLen), headers.fields).value)
      ensures BodyLen(old(bodyLen), headers.fields).Err? ==>
        r == Err(BodyLen(old(bodyLen), headers.fields).error) && bodyLen == old(bodyLen)
    {
      if bodyLen.Some? {
        return Ok(());
      }
      var c := headers.Get("Content-Length");
      Body.FramingNamesFolded();
      if c.None? {
        bodyLen := Some(0);
        return Ok(());
      }
      var cl := ParseDecimal(c.value);
      if cl.Some? {
        bodyLen := cl;
        return Ok(());
      }
      var values := Body.TrimEach(Split(c.value, ','));
      if !Body.AllSame(values) {
        return Err(RequestError.InvalidContentLength);
      }
      var len := ParseDecimal(values[0]);
      if len.None? {
        return Err(RequestError.InvalidContentLength);
      }
      bodyLen := len;
      return Ok(());
    }

    /**
     * `parse(bytes)`: runs the states over the unused bytes `rest` (the
     * source's `bytes[read..]`) with a count `read` of the bytes used, and
     * ends as `ParseFrom` says.
     */
    method Parse(bytes: Bytes) returns (r: Result<nat, RequestError>)
      requires state != Error
      modifies this, headers
      ensures Parsed(old(Snap()), bytes, Snap(), r)
    {
      ghost var whole := Resumed(Snap(), bytes);
      var read: nat := 0;
      var rest := bytes;
      while true
        invariant state != Error && (state == AtRequestLine ==> read == 0)
        invariant read <= |bytes| && rest == bytes[read..] && Leaves(whole, read, Snap(), rest)
        decreases |rest|
      {
        var stop, n;
        stop, r, n := Pass(rest, whole, read);
        if stop {
          return;
        }
        SliceOfSlice(bytes, read, n);
        read := read + n;
        rest := rest[n..];
      }
    }

    /**
     * One pass of the loop in `parse`, with `read` bytes used before `rest`:
     * it ends the call with `r`, or moves on `n` bytes; either way on the
     * course to `whole`.
     */
    method Pass(rest: Bytes, ghost whole: Outcome, read: nat) returns (stop: bool, r: Result<nat, RequestError>, n: nat)
      requires state != Error && Leaves(whole, read, Snap(), rest)
      modifies this, headers
      ensures stop ==> whole == (Snap(), r)
      ensures !stop ==> 0 < n <= |rest| && state != Error && state != AtRequestLine
      ensures !stop ==> Leaves(whole, read + n, Snap(), rest[n..])
    {
      ghost var p := Snap();
      var res;
      res, n := Step(rest);
      stop := n == 0;
      r := if !stop then Ok(n) else if res.Err? then res else Ok(read + res.value);
      StepOutcome(whole, read, p, rest, Snap(), res, n, stop, r);
    }

    /**
     * One pass of the loop in `parse`, by state: one pass of `Iterate` over
     * the unused bytes `rest`, which either ends the call with `r` (a count
     * `n` of 0; a done parser uses nothing more) or moves on `n` bytes.
     */
    method Step(rest: Bytes) returns (r: Result<nat, RequestError>, n: nat)
      requires state != Error
      modifies this, headers
      ensures Iterate(old(Snap()), rest) == if n == 0 then Stop((Snap(), r)) else Next(Snap(), n)
    {
      if state == Done {
        return Ok(0), 0;
      }
      r, n := StatePass(rest);
    }

    /**
     * The pass of a parser that is not done, by its state: one pass of
     * `Iterate` over the unused bytes `rest`, which either ends the call
     * with `r` (a count `n` of 0) or moves on `n` bytes.
     */
    method StatePass(rest: Bytes) returns (r: Result<nat, RequestError>, n: nat)
      requires state != Error && state != Done
      modifies this, headers
      ensures Iterate(old(Snap()), rest) == if n == 0 then Stop((Snap(), r)) else Next(Snap(), n)
    {
      if state == AtRequestLine {
        r, n := LineState(rest);
      } else if state == AtHeaders {
        r, n := FieldState(rest);
      } else {
        r := BodyState(rest);
        n := 0;
      }
    }

    /**
     * The request-line state of `parse`: `RequestLine::parse` of the unused
     * bytes (all of them: nothing is used before the request line). A count
     * of 0 ends the call with `r`; otherwise the pass uses `n` bytes.
     */
    method LineState(rest: Bytes) returns (r: Result<nat, RequestError>, n: nat)
      requires state == AtRequestLine
      modifies this
      ensures Iterate(old(Snap()), rest) == if n == 0 then Stop((Snap(), r)) else Next(Snap(), n)
      ensures n == 0 && r.Ok? ==> r.value == 0
    {
      var rl := ParseLine(rest);
      if rl.Err? {
        return Err(RequestLineErr(rl.error)), 0;
      }
      if rl.value.None? {
        return Ok(0), 0;
      }
      var (l, size) := rl.value.value;
      state := AtHeaders;
      line := l;
      return Ok(size), size;
    }

    /**
     * The field-line state of `parse`: one `Headers::parse` of the unused
     * bytes; a count of 0 or an error ends the call, and the empty line
     * (a count of 2) ends the fields, with a body exactly when the fields
     * hold Content-Length.
     */
    method FieldState(rest: Bytes) returns (r: Result<nat, RequestError>, n: nat)
      requires state == AtHeaders
      modifies this, headers
      ensures Iterate(old(Snap()), rest) == if n == 0 then Stop((Snap(), r)) else Next(Snap(), n)
      ensures n == 0 && r.Ok? ==> r.value == 0
    {
      var parsed := headers.Parse(rest);
      if parsed.Err? {
        return Err(HeaderErr(parsed.error)), 0;
      }
      n := parsed.value;
      if n == 2 {
        Body.FramingNamesFolded();
        if headers.Get("Content-Length").None? {
          state := Done;
        } else {
          state := AtBody;
        }
      }
      return Ok(n), n;
    }

    /**
     * The body state of `parse`: the length settled, every unused byte
     * joins the body, and the call ends having used all of them.
     */
    method BodyState(rest: Bytes) returns (r: Result<nat, RequestError>)
      requires state == AtBody
      modifies this
      ensures Iterate(old(Snap()), rest) == Stop((Snap(), r))
    {
      var found := FindBodyLen();
      if found.Err? {
        return Err(found.error);
      }
      var len := bodyLen.value;
      body := body + rest;
      if |body| > len {
        return Err(BodyTooLong);
      }
      if |body| == len {
        state := Done;
      }
      return Ok(|rest|);
    }
  }

  /** A read of nothing: the reader is out of pieces, or the buffer is full. */
  lemma NothingRead(chunks: seq<Bytes>, from: nat, length: nat)
    requires forall k :: 0 <= k < |chunks| ==> |chunks[k]| > 0
    requires from <= length && (if chunks == [] then 0 else Min(|chunks[0]|, length - from)) == 0
    ensures Concat(chunks) == [] || from == length
  {
  }

  /** What `size` used bytes leave of the unused `d[k..]` and the new `x`: the end of `d + x`. */
  lemma UnusedAfter(d: Bytes, x: Bytes, k: nat, size: nat)
    requires k <= |d| && size <= |d| - k + |x|
    ensures (d[k..] + x)[size..] == (d + x)[k + size..]
  {
  }

  /** `buf.copy_within(from.., 0)`: the bytes from `from` on move to the front. */
  method CopyWithin(buf: array<Byte>, from: nat)
    requires from <= buf.Length
    modifies buf
    ensures buf[..buf.Length - from] == old(buf[from..])
    ensures buf[buf.Length - from..] == old(buf[buf.Length - from..])
  {
    forall i | 0 <= i < buf.Length - from {
      buf[i] := buf[from + i];
    }
  }

  /**
   * `buf.copy_within(size.., 0)` with `read` bytes buffered: the bytes
   * after the first `used` move to the front, in order.
   */
  method ShiftBuffer(buf: array<Byte>, read: nat, used: nat)
    requires used <= read <= buf.Length
    modifies buf
    ensures buf[..read - used] == old(buf[used..read])
  {
    ghost var whole := buf[..];
    CopyWithin(buf, used);
    ghost var front := buf[..buf.Length - used];
    calc {
      buf[..read - used];
      front[..read - used];
      whole[used..][..read - used];
      { Window(whole, used, read); }
      whole[..read][used..];
    }
  }

  /** A window of `w`, cut from either end first. */
  lemma Window(w: Bytes, a: nat, b: nat)
    requires a <= b <= |w|
    ensures w[a..][..b - a] == w[a..b] && w[..b][a..] == w[a..b]
  {
  }

  /** The size of the buffer `request_from_reader` reads into. */
  const BufferSize: nat := 1024

  /**
   * Why `request_from_reader` gives up with `MalformedRequest`: the bytes
   * `d` delivered leave the request unfinished without an error, and either
   * the reader has nothing more or the unused bytes fill the buffer.
   */
  predicate Stalled(d: Bytes, remaining: Bytes) {
    Resumed(Initial(), d).1.Ok? && Resumed(Initial(), d).0.state != Done
    && (remaining == [] || |d| - Resumed(Initial(), d).1.value == BufferSize)
  }

  /**
   * What the loop of `request_from_reader` keeps: the parser stands where
   * parsing the bytes `delivered` at once leaves it, and the buffer holds
   * the `read` bytes of them it has not used, in order.
   */
  ghost predicate Buffered(buf: array<Byte>, read: nat, delivered: Bytes, parser: RequestParser)
    reads buf, parser, parser.headers
  {
    parser.state != Error && read <= buf.Length && read <= |delivered|
    && Resumed(Initial(), delivered) == (parser.Snap(), Ok(|delivered| - read))
    && buf[..read] == delivered[|delivered| - read..]
  }

  /**
   * One pass of the loop in `request_from_reader`: a read behind the unused
   * bytes, a parse of all of them, and the used ones dropped from the
   * buffer. A read of 0 gives `MalformedRequest`, and a parse error ends
   * the loop; otherwise the loop's state holds for the bytes delivered now.
   */
  method Feed(reader: ChunkReader, buf: array<Byte>, read: nat, parser: RequestParser, ghost delivered: Bytes, ghost start: Bytes)
    returns (e: Option<RequestError>, nextRead: nat, ghost next: Bytes)
    requires reader.Valid() && buf.Length == BufferSize
    requires Buffered(buf, read, delivered, parser) && parser.state != Done
    requires start == delivered + reader.Remaining()
    modifies reader, buf, parser, parser.headers
    ensures reader.Valid() && start == next + reader.Remaining()
    ensures e.None? ==> Buffered(buf, nextRead, next, parser) && |reader.Remaining()| < |old(reader.Remaining())|
    ensures e.Some? ==>
      Resumed(Initial(), next).1 == Err(e.value) || (e.value == MalformedRequest && Stalled(next, reader.Remaining()))
  {
    ghost var unused := buf[..read];
    ghost var later := reader.Remaining();
    var n := reader.Read(buf, read);
    if n == 0 {
      NothingRead(reader.chunks, read, buf.Length);
      return Some(MalformedRequest), read, delivered;
    }
    ghost var x := buf[read..read + n];
    assert later == x + reader.Remaining();
    assert buf[..read + n] == unused + x;
    next := delivered + x;
    e, nextRead := Absorb(buf, read, n, parser, delivered, x);
  }

  /**
   * The rest of the pass once `n` new bytes `x` sit behind the `read`
   * unused ones: `parse` of all of them, and the used ones dropped.
   */
  method Absorb(buf: array<Byte>, read: nat, n: nat, parser: RequestParser, ghost delivered: Bytes, ghost x: Bytes)
    returns (e: Option<RequestError>, nextRead: nat)
    requires Buffered(buf, read, delivered, parser) && parser.state != Done
    requires |x| == n && read + n <= buf.Length && buf[..read + n] == buf[..read] + x
    modifies buf, parser, parser.headers
    ensures e.None? ==> Buffered(buf, nextRead, delivered + x, parser)
    ensures e.Some? ==> Resumed(Initial(), delivered + x).1 == Err(e.value)
  {
    ghost var q := parser.Snap();
    ghost var k := |delivered| - read;
    var bytes := buf[..read + n];
    assert bytes == delivered[k..] + x;
    var size := parser.Parse(bytes);
    ghost var p := parser.Snap();
    FedMore(delivered, x, k, q, (p, size));
    ghost var next := delivered + x;
    if size.Err? {
      return Some(size.error), read;
    }
    assert Resumed(Initial(), next) == (p, Ok(k + size.value));
    UnusedAfter(delivered, x, k, size.value);
    nextRead := read + n;
    if size.value == 0 {
      assert buf[..nextRead] == bytes == next[k..];
      assert |next| - nextRead == k;
      return None, nextRead;
    }
    assert bytes == next[k..];
    nextRead := DropUsed(buf, nextRead, size.value, next);
    e := None;
  }

  /** `buf.copy_within(size.., 0)` and `read -= size`: the unused bytes of `next` stay at the front. */
  method DropUsed(buf: array<Byte>, read: nat, used: nat, ghost next: Bytes) returns (nextRead: nat)
    requires used <= read <= buf.Length && read <= |next|
    requires buf[..read] == next[|next| - read..]
    modifies buf
    ensures nextRead == read - used && buf[..nextRead] == next[|next| - nextRead..]
  {
    ghost var k := |next| - read;
    ShiftBuffer(buf, read, used);
    nextRead := read - used;
    assert buf[..nextRead] == next[k..][used..];
    SliceOfSlice(next, k, used);
  }

  /**
   * `request_from_reader`: reads into a buffer of `BufferSize` bytes behind
   * the ones the parser left unused, and feeds the parser all of them, until
   * the request is done. `delivered` is what the reader gave; the request,
   * or the error, is what parsing those bytes at once gives, and when the
   * reader's whole input is one request the request read is that one,
   * unless it outgrows the buffer.
   */
  method RequestFromReader(reader: ChunkReader) returns (r: Result<Request, RequestError>, ghost delivered: Bytes)
    requires reader.Valid()
    modifies reader
    ensures reader.Valid() && old(reader.Remaining()) == delivered + reader.Remaining()
    ensures r.Ok? ==>
      Resumed(Initial(), delivered).1.Ok? && Resumed(Initial(), delivered).0.state == Done
      && r.value == Resumed(Initial(), delivered).0.request
    ensures r.Err? ==>
      Resumed(Initial(), delivered).1 == Err(r.error) || (r.error == MalformedRequest && Stalled(delivered, reader.Remaining()))
  {
    var buf := new Byte[BufferSize];
    var read: nat := 0;
    var parser := new RequestParser();
    delivered := [];
    NothingDelivered();
    while parser.state != Done
      invariant reader.Valid() && fresh(parser) && fresh(parser.headers) && fresh(buf)
      invariant buf.Length == BufferSize && Buffered(buf, read, delivered, parser)
      invariant old(reader.Remaining()) == delivered + reader.Remaining()
      decreases |reader.Remaining()|
    {
      var e;
      e, read, delivered := Feed(reader, buf, read, parser, delivered, old(reader.Remaining()));
      if e.Some? {
        return Err(e.value), delivered;
      }
    }
    r := Ok(parser.Snap().request);
  }
}
