/** The in-memory byte stream (Python's `io.BytesIO`) that the decoder reads
    records from: a fixed byte string and a cursor that reads advance. */
module Stream {
  import opened Wire

  /** Where a read of at most `n` bytes (all the rest when `n` is None) that
      starts at `pos` stops: reads are short, never failing, when the data
      runs out. Sizes from 2^63 up are not reads at all (see `Reader.Read`). */
  function ReadEnd(len: nat, pos: nat, n: Option<nat>): (e: nat)
    requires pos <= len && (n.None? || n.value < SsizeLimit)
    ensures pos <= e <= len
    ensures n.Some? ==> e - pos == Min(n.value, len - pos)
    ensures n.None? ==> e == len
  {
    if n.Some? && pos + n.value < len then pos + n.value else len
  }

  class Reader {
    /** The bytes the stream was opened on. */
    const data: seq<byte>
    /** The cursor: how many bytes have been consumed. */
    var pos: nat

    ghost predicate Valid()
      reads this
    {
      pos <= |data|
    }

    /** `io.BytesIO(bytes)` */
    constructor (bytes: seq<byte>)
      ensures Valid() && data == bytes && pos == 0
    {
      data := bytes;
      pos := 0;
    }

    /** `read(n)`: the next bytes, at most n of them, fewer (possibly none) when
        the stream runs out; `read(None)` returns everything that is left.
        A size from 2^63 up is rejected before anything is read, so callers
        pass a smaller one. */
    method Read(n: Option<nat>) returns (chunk: seq<byte>)
      requires Valid() && (n.None? || n.value < SsizeLimit)
      modifies this
      ensures Valid()
      ensures pos == ReadEnd(|data|, old(pos), n)
      ensures chunk == data[old(pos)..pos]
    {
      var end := if n.Some? && pos + n.value < |data| then pos + n.value else |data|;
      chunk := data[pos..end];
      pos := end;
    }
  }
}
