/**
 * `BatchReader`, the reader the library's tests use to deliver a byte
 * string in batches of a fixed size, so that parsers meet input split at
 * every possible place.
 */
module BatchReading {
  import opened Bytes

  class BatchReader {
    const src: Bytes
    const batchSize: nat
    /** How much of `src` has been delivered. */
    var pos: nat

    predicate Valid()
      reads this
    {
      pos <= |src|
    }

    /** `new`: nothing delivered yet. */
    constructor (destination: Bytes, batchSize: nat)
      ensures src == destination && this.batchSize == batchSize && pos == 0 && Valid()
    {
      src := destination;
      this.batchSize := batchSize;
      pos := 0;
    }

    /**
     * `read(&mut buf[from..])`: 0 at the end of `src`; otherwise the next
     * `min(batch_size, room in buf, bytes left)` bytes of `src`, copied to
     * the front of `buf[from..]`.
     */
    method Read(buf: array<Byte>, from: nat) returns (size: nat)
      requires Valid() && from <= buf.Length
      modifies this, buf
      ensures Valid()
      ensures size == (if old(pos) >= |src| then 0 else Min(Min(batchSize, buf.Length - from), |src| - old(pos)))
      ensures pos == old(pos) + size && from + size <= buf.Length
      ensures buf[from..from + size] == src[old(pos)..pos]
      ensures buf[..from] == old(buf[..from]) && buf[from + size..] == old(buf[from + size..])
    {
      if pos >= |src| {
        return 0;
      }
      size := batchSize;
      if size > buf.Length - from {
        size := buf.Length - from;
      }
      if pos + size > |src| {
        size := |src| - pos;
      }
      forall k | 0 <= k < size {
        buf[from + k] := src[pos + k];
      }
      pos := pos + size;
    }

    /**
     * Reads into `buf` until a read gives 0, collecting what each read
     * delivered: with batches and a buffer of at least one byte, that is
     * exactly what was left of `src`, the way the tests drain a reader.
     */
    method ReadToEnd(buf: array<Byte>) returns (all: Bytes)
      requires Valid() && batchSize > 0 && buf.Length > 0
      modifies this, buf
      ensures pos == |src| && all == old(src[pos..])
    {
      all := [];
      ghost var start := pos;
      while true
        invariant Valid() && start <= pos && all == src[start..pos]
        decreases |src| - pos
      {
        ghost var before := pos;
        var n := Read(buf, 0);
        if n == 0 {
          return;
        }
        assert src[start..pos] == src[start..before] + src[before..pos];
        all := all + buf[..n];
      }
    }
  }

  /** Batches of 3 into a 3-byte buffer: "aaa", "bbb", then "ccc". */
  method EvenBatchesExample() returns (first: Bytes, second: Bytes, third: Bytes)
    ensures first == "aaa" && second == "bbb" && third == "ccc"
  {
    var input: Bytes := "aaabbbccc";
    var reader := new BatchReader(input, 3);
    var buf := new Byte[3](_ => 0 as char);
    var n := reader.Read(buf, 0);
    first := buf[..n];
    n := reader.Read(buf, 0);
    second := buf[..n];
    n := reader.Read(buf, 0);
    third := buf[..n];
    assert input[0..3] == "aaa" && input[3..6] == "bbb" && input[6..9] == "ccc";
  }

  /**
   * Batches of 3 into a 2-byte buffer: the buffer caps every read, and the
   * last byte lands in a fresh zeroed buffer as `[c, 0]`.
   */
  method SmallBufferExample() returns (first: Bytes, second: Bytes, third: Bytes, last: Bytes, n: nat)
    ensures first == "aa" && second == "ab" && third == "bb"
    ensures n == 1 && last == ['c', 0 as char]
  {
    var input: Bytes := "aaabbbc";
    assert input[0..2] == "aa" && input[2..4] == "ab";
    assert input[4..6] == "bb" && input[6..7] == "c";
    var reader := new BatchReader(input, 3);
    var buf := new Byte[2](_ => 0 as char);
    n := reader.Read(buf, 0);
    assert n == 2 && reader.pos == 2 && buf[..] == buf[0..2];
    first := buf[..];
    assert first == "aa";
    n := reader.Read(buf, 0);
    assert n == 2 && reader.pos == 4 && buf[..] == buf[0..2];
    second := buf[..];
    assert second == "ab";
    n := reader.Read(buf, 0);
    assert n == 2 && reader.pos == 6 && buf[..] == buf[0..2];
    third := buf[..];
    assert third == "bb";
    var other := new Byte[2](_ => 0 as char);
    n := reader.Read(other, 0);
    assert n == 1 && other[..] == other[0..1] + other[1..];
    last := other[..];
  }
}
