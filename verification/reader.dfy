/** The read cursor the decoder works on: Go's `bytes.Reader` over an
    in-memory buffer, with the two library routines the decoder calls on
    it besides `Read`: `ReadByte` and `io.ReadFull`. */
module Reader {
  import opened Bytes
  import opened Results

  /** An immutable buffer and a read position that only moves forward. */
  class Cursor {
    const data: seq<byte>
    var pos: nat

    ghost predicate Valid()
      reads this
    {
      pos <= |data|
    }

    /** `bytes.NewReader(data)`. */
    constructor (data: seq<byte>)
      ensures Valid() && this.data == data && pos == 0
    {
      this.data := data;
      pos := 0;
    }

    /** `Read` into a buffer of `n` bytes: copies as many of the remaining
        bytes as fit and reports `Eof` only when none remain at all, so a
        short read is not an error. */
    method Read(n: nat) returns (got: seq<byte>, err: Option<Error>)
      requires Valid()
      modifies this
      ensures Valid()
      ensures old(pos) == |data| ==> got == [] && err == Some(Eof) && pos == old(pos)
      ensures old(pos) < |data| ==>
        && err == None
        && pos == old(pos) + Min(n, |data| - old(pos))
        && got == data[old(pos)..pos]
    {
      if pos == |data| {
        return [], Some(Eof);
      }
      var k := Min(n, |data| - pos);
      got, err := data[pos..pos + k], None;
      pos := pos + k;
    }

    /** `ReadByte`: the next byte, or `Eof` without moving when none remains. */
    method ReadByte() returns (r: Result<byte>)
      requires Valid()
      modifies this
      ensures Valid()
      ensures old(pos) == |data| ==> r == Fail(Eof) && pos == old(pos)
      ensures old(pos) < |data| ==> r == Ok(data[old(pos)]) && pos == old(pos) + 1
    {
      if pos == |data| {
        return Fail(Eof);
      }
      r := Ok(data[pos]);
      pos := pos + 1;
    }

    /** `io.ReadFull` into a buffer of `n` bytes (through `io.ReadAtLeast`):
        reads until `n` bytes have arrived or the reader reports an error.
        When the input runs out first, every remaining byte is consumed and
        the error is `Eof` if none was read, `UnexpectedEof` otherwise. */
    method ReadFull(n: nat) returns (got: seq<byte>, err: Option<Error>)
      requires Valid()
      modifies this
      ensures Valid()
      ensures old(pos) + n <= |data| ==>
        err == None && pos == old(pos) + n && got == data[old(pos)..pos]
      ensures |data| < old(pos) + n ==>
        && pos == |data|
        && got == data[old(pos)..]
        && err == Some(if old(pos) == |data| then Eof else UnexpectedEof)
    {
      got, err := [], None;
      while |got| < n && err == None
        invariant Valid() && old(pos) <= pos
        invariant got == data[old(pos)..pos] && |got| <= n
        invariant err != None ==> err == Some(Eof) && pos == |data|
        decreases n - |got|, if err == None then 1 else 0
      {
        var chunk, e := Read(n - |got|);
        got, err := got + chunk, e;
      }
      if |got| >= n {
        err := None;
      } else if |got| > 0 && err == Some(Eof) {
        err := Some(UnexpectedEof);
      }
    }
  }
}
