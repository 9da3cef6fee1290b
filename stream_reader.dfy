/**
 * `StreamReader`: a fixed 2048-byte buffer in front of a reader, from which
 * `read_line` cuts CRLF-terminated lines. Bytes left in the buffer after a
 * line are kept for the next call, and a CR at the end of one read still
 * pairs with an LF at the start of the next.
 */
module Stream {
  import opened Wrappers
  import opened Bytes
  import opened Errors
  import opened Reader

  const BufferSize: nat := 2048

  class StreamReader {
    /** How many bytes at the front of `buf` are not yet handed out. */
    var read: nat
    const buf: array<Byte>
    const reader: ChunkReader

    predicate Valid()
      reads this, reader
    {
      buf.Length == BufferSize && read <= buf.Length && reader.Valid()
    }

    /** The bytes still to be handed out: the buffered ones, then the reader's. */
    function Pending(): Bytes
      reads this, buf, reader
      requires read <= buf.Length
    {
      buf[..read] + reader.Remaining()
    }

    /** `new`: an empty buffer in front of `source`. */
    constructor (source: ChunkReader)
      requires source.Valid()
      ensures reader == source && read == 0 && fresh(buf)
      ensures Valid() && Pending() == source.Remaining()
    {
      read := 0;
      buf := new Byte[BufferSize](_ => 0 as char);
      reader := source;
    }

    /**
     * `buf.copy_within(index.., 0)` followed by `read -= index`: drops the
     * first `index` buffered bytes, keeping the others in order.
     */
    method Drop(index: nat)
      requires index <= read <= buf.Length
      modifies this, buf
      ensures read == old(read) - index && buf[..read] == old(buf[index..read])
      ensures Pending() == old(Pending())[index..]
    {
      forall k | 0 <= k < buf.Length - index {
        buf[k] := buf[index + k];
      }
      read := read - index;
      assert old(buf[..read])[index..] == old(buf[index..read]);
    }

    /**
     * The read the body driver makes when the decoder needs more:
     * `reader.read(&mut buf[read..])`, the count added to `read`. Nothing
     * pending is lost or reordered; 0 comes back only when the reader is
     * exhausted or the buffer is full.
     */
    method Fill() returns (n: nat)
      requires Valid()
      modifies this, buf, reader
      ensures Valid() && Pending() == old(Pending())
      ensures n == 0 ==> read == old(read) && (reader.Remaining() == [] || read == BufferSize)
      ensures n > 0 ==> |reader.Remaining()| < |old(reader.Remaining())|
    {
      ghost var buffered := buf[..read];
      n := reader.Read(buf, read);
      if n > 0 {
        read := read + n;
        assert buf[..read] == buffered + buf[read - n..read];
      }
    }

    /**
     * The scan of the buffered bytes inside `read_line`: appends them to the
     * line so far until an LF follows a CR, carrying the last-was-CR flag in
     * from the previous buffer. On a hit, `i` is the index of that LF.
     */
    method Scan(out: Bytes, lastWasCr: bool) returns (found: bool, i: nat, line: Bytes, endsInCr: bool)
      requires read <= buf.Length && CrlfFree(out)
      requires lastWasCr <==> |out| > 0 && out[|out| - 1] == CR
      ensures i <= read && line == out + buf[..i]
      ensures found ==> i < read && buf[i] == LF && |line| > 0 && line[|line| - 1] == CR && CrlfFree(line)
      ensures !found ==> i == read && CrlfFree(line) && (endsInCr <==> |line| > 0 && line[|line| - 1] == CR)
    {
      line := out;
      endsInCr := lastWasCr;
      i := 0;
      while i < read
        invariant 0 <= i <= read && line == out + buf[..i] && CrlfFree(line)
        invariant endsInCr <==> |line| > 0 && line[|line| - 1] == CR
      {
        var b := buf[i];
        if endsInCr && b == LF {
          return true, i, line, endsInCr;
        }
        StillCrlfFree(line, b);
        assert buf[..i + 1] == buf[..i] + [b];
        line := line + [b];
        endsInCr := b == CR;
        i := i + 1;
      }
      return false, i, line, endsInCr;
    }

    /**
     * The hit inside `read_line`: `line` ends in the CR just before the LF
     * at `buf[i]`. Gives the line without its CR and drops what was
     * scanned from the buffer.
     */
    method TakeLine(i: nat, line: Bytes, ghost stream: Bytes) returns (taken: Bytes)
      requires Valid() && i < read && buf[i] == LF
      requires |line| > 0 && line[|line| - 1] == CR && CrlfFree(line)
      requires stream == line + buf[i..read] + reader.Remaining()
      modifies this, buf
      ensures Valid()
      ensures FindCrlf(stream) == Some(|line| - 1)
      ensures taken == stream[..|line| - 1] && Pending() == stream[|line| + 1..]
    {
      ghost var rest := buf[i + 1..read] + reader.Remaining();
      LineFound(stream, line, buf[i..read] + reader.Remaining());
      assert (buf[i..read] + reader.Remaining())[1..] == rest;
      var index := Min(i + 1, buf.Length);
      Drop(index);
      assert Pending() == rest;
      taken := line[..|line| - 1];
    }

    /**
     * The refill inside `read_line`: `self.read = reader.read(&mut self.buf)`
     * once the buffered bytes are all scanned, unless the reader gives 0.
     */
    method Refill() returns (n: nat)
      requires Valid()
      modifies this, buf, reader
      ensures Valid()
      ensures n == 0 ==> old(reader.Remaining()) == [] && reader.Remaining() == [] && read == old(read)
      ensures n > 0 ==> read == n && old(reader.Remaining()) == buf[..read] + reader.Remaining()
    {
      n := reader.Read(buf, 0);
      if n > 0 {
        read := n;
      }
    }

    /**
     * One pass of the loop in `read_line`: scans the buffered bytes, and
     * either ends the call (the line, or `EOF` when the reader gives 0) or
     * refills the buffer, leaving fewer bytes for the reader to deliver.
     */
    method Advance(out: Bytes, lastWasCr: bool, ghost stream: Bytes)
      returns (r: Option<Result<Bytes, StreamError>>, line: Bytes, endsInCr: bool)
      requires Valid() && stream == out + buf[..read] + reader.Remaining()
      requires CrlfFree(out) && (lastWasCr <==> |out| > 0 && out[|out| - 1] == CR)
      modifies this, buf, reader
      ensures Valid()
      ensures r.None? ==> stream == line + buf[..read] + reader.Remaining() && CrlfFree(line)
      ensures r.None? ==> (endsInCr <==> |line| > 0 && line[|line| - 1] == CR)
      ensures r.None? ==> |reader.Remaining()| < |old(reader.Remaining())|
      ensures r.Some? ==> match FindCrlf(stream)
        case Some(i) => r.value == Ok(stream[..i]) && Pending() == stream[i + 2..]
        case None => r.value == Err(Eof) && reader.Remaining() == []
    {
      ghost var buffered := buf[..read];
      ghost var rem := reader.Remaining();
      var found, i;
      found, i, line, endsInCr := Scan(out, lastWasCr);
      if found {
        assert buffered == buf[..i] + buf[i..read];
        var taken := TakeLine(i, line, stream);
        return Some(Ok(taken)), line, endsInCr;
      }
      assert stream == line + reader.Remaining();
      r := RefillAfter(line, stream);
    }

    /**
     * The buffered bytes held no CRLF: a refill either finds the reader dry,
     * which ends the line with `EOF`, or brings fresh bytes to scan.
     */
    method RefillAfter(line: Bytes, ghost stream: Bytes) returns (r: Option<Result<Bytes, StreamError>>)
      requires Valid() && stream == line + reader.Remaining() && CrlfFree(line)
      modifies this, buf, reader
      ensures Valid()
      ensures r.None? ==> stream == line + buf[..read] + reader.Remaining()
      ensures r.None? ==> |reader.Remaining()| < |old(reader.Remaining())|
      ensures r.Some? ==> FindCrlf(stream).None? && r.value == Err(Eof) && reader.Remaining() == []
    {
      ghost var rem := reader.Remaining();
      var n := Refill();
      if n == 0 {
        NoLine(stream, line);
        return Some(Err(Eof));
      }
      Regroup(stream, line, [], rem, buf[..read], reader.Remaining());
      r := None;
    }

    /**
     * `read_line`: the bytes before the first CRLF of what is pending, the CR
     * and LF left out; everything after the LF stays pending. With no CRLF
     * before the reader runs dry, `EOF`.
     */
    method ReadLine() returns (r: Result<Bytes, StreamError>)
      requires Valid()
      modifies this, buf, reader
      ensures Valid()
      ensures match FindCrlf(old(Pending()))
        case Some(i) => r == Ok(old(Pending())[..i]) && Pending() == old(Pending())[i + 2..]
        case None => r == Err(Eof) && reader.Remaining() == []
    {
      ghost var stream := Pending();
      var out: Bytes := [];
      var lastWasCr := false;
      while true
        invariant Valid()
        invariant stream == out + buf[..read] + reader.Remaining()
        invariant CrlfFree(out)
        invariant lastWasCr <==> |out| > 0 && out[|out| - 1] == CR
        decreases |reader.Remaining()|
      {
        var step;
        step, out, lastWasCr := Advance(out, lastWasCr, stream);
        if step.Some? {
          return step.value;
        }
      }
    }
  }

  /** A byte that does not complete a CRLF keeps the line free of one. */
  lemma StillCrlfFree(out: Bytes, b: Byte)
    requires CrlfFree(out) && !(|out| > 0 && out[|out| - 1] == CR && b == LF)
    ensures CrlfFree(out + [b])
  {
    var s := out + [b];
    forall k | 0 <= k < |s| - 1
      ensures !CrlfAt(s, k)
    {
      if k + 1 < |out| {
        assert s[k] == out[k] && s[k + 1] == out[k + 1];
        assert !CrlfAt(out, k);
      }
    }
  }

  /** The bytes scanned so far and the bytes refilled still spell out the stream. */
  lemma Regroup(stream: Bytes, prev: Bytes, buffered: Bytes, rem: Bytes, refill: Bytes, rest: Bytes)
    requires stream == prev + buffered + rem && rem == refill + rest
    ensures stream == (prev + buffered) + refill + rest
  {
  }

  /** A stream that is all scanned bytes, with no CRLF among them, holds no line. */
  lemma NoLine(stream: Bytes, out: Bytes)
    requires stream == out && CrlfFree(out)
    ensures FindCrlf(stream).None?
  {
  }

  /** A CR closing `out` and an LF opening `rest` are the first CRLF of the stream. */
  lemma LineFound(stream: Bytes, out: Bytes, rest: Bytes)
    requires stream == out + rest && CrlfFree(out)
    requires |out| > 0 && out[|out| - 1] == CR && |rest| > 0 && rest[0] == LF
    ensures FindCrlf(stream) == Some(|out| - 1)
    ensures stream[..|out| - 1] == out[..|out| - 1] && stream[|out| + 1..] == rest[1..]
  {
    assert stream[..|out|] == out;
    FindCrlfIs(stream, |out| - 1);
  }

  /**
   * A CR delivered at the end of one read and the LF at the start of the
   * next still end the line.
   */
  method SplitTerminatorExample() returns (line: Result<Bytes, StreamError>)
    ensures line == Ok("ab")
  {
    var source := new ChunkReader(["ab\r", "\ncd"]);
    assert source.Remaining() == "ab\r\ncd";
    var stream := new StreamReader(source);
    SplitTerminatorFound("ab\r\ncd");
    line := stream.ReadLine();
  }

  lemma SplitTerminatorFound(s: Bytes)
    requires s == "ab\r\ncd"
    ensures FindCrlf(s) == Some(2) && s[..2] == "ab"
  {
    assert s == "ab" + CRLF + "cd";
    FindCrlfOfLine("ab", "cd");
  }
}
