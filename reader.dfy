/**
 * The byte source the readers of the library pull from (`Read` and
 * `AsyncRead` in the original), modelled as the finite sequence of pieces it
 * will deliver. A read fills as much of the buffer as the next piece allows
 * and returns 0 only once the source is exhausted or the buffer is full.
 */
module Reader {
  import opened Bytes

  class ChunkReader {
    /** The pieces still to be delivered, in order. */
    var chunks: seq<Bytes>

    /** No piece is empty, so a read of 0 bytes really means end of input. */
    predicate Valid()
      reads this
    {
      forall k :: 0 <= k < |chunks| ==> |chunks[k]| > 0
    }

    /** Every byte the source has still to deliver. */
    function Remaining(): Bytes
      reads this
    {
      Concat(chunks)
    }

    constructor (pieces: seq<Bytes>)
      requires forall k :: 0 <= k < |pieces| ==> |pieces[k]| > 0
      ensures chunks == pieces && Valid()
    {
      chunks := pieces;
    }

    /**
     * `read(&mut buf[from..])`: copies the front of the next piece into
     * `buf[from..]`, as much as fits, and gives the count. The bytes delivered
     * and the bytes still to come make up what was to come before.
     */
    method Read(buf: array<Byte>, from: nat) returns (n: nat)
      requires Valid() && from <= buf.Length
      modifies this, buf
      ensures Valid()
      ensures from + n <= buf.Length
      ensures n == (if old(chunks) == [] then 0 else Min(|old(chunks)[0]|, buf.Length - from))
      ensures old(Remaining()) == buf[from..from + n] + Remaining()
      ensures n == 0 ==> chunks == old(chunks)
      ensures buf[..from] == old(buf[..from]) && buf[from + n..] == old(buf[from + n..])
    {
      if chunks == [] {
        return 0;
      }
      var c := chunks[0];
      n := Min(|c|, buf.Length - from);
      forall i | 0 <= i < n {
        buf[from + i] := c[i];
      }
      assert buf[from..from + n] == c[..n];
      if n == |c| {
        chunks := chunks[1..];
      } else if n > 0 {
        chunks := [c[n..]] + chunks[1..];
        assert Concat(chunks) == c[n..] + Concat(old(chunks)[1..]);
      }
      assert c == c[..n] + c[n..];
    }
  }
}
