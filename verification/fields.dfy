/** The primitive readers of the wire format: `getU8`, `getU32` and
    `getString`. Each is a method that advances the shared cursor, proved
    to agree with a function of the buffer and the starting position. */
module Fields {
  import opened Bytes
  import opened Results
  import opened Reader
  import opened Uvarint

  /** The byte `getU8` reads at `pos`. */
  function U8At(data: seq<byte>, pos: nat): (r: Step<byte>)
    requires pos <= |data|
    ensures r.result.Fail? <==> pos == |data|
    ensures r.result.Fail? ==> r == Step(Fail(EndOfInput), pos)
    ensures r.result.Ok? ==> r == Step(Ok(data[pos]), pos + 1)
  {
    if pos == |data| then Step(Fail(EndOfInput), pos) else Step(Ok(data[pos]), pos + 1)
  }

  /** `getU8`: reads one byte through `Read`. (Its branch for errors other
      than end of input is dead: `bytes.Reader` reports no other.) */
  method GetU8(cur: Cursor) returns (r: Result<byte>)
    requires cur.Valid()
    modifies cur
    ensures cur.Valid()
    ensures Step(r, cur.pos) == U8At(cur.data, old(cur.pos))
  {
    var got, err := cur.Read(1);
    if err.Some? {
      return Fail(EndOfInput);
    }
    return Ok(got[0]);
  }

  /** The number `getU32` reads at `pos`: up to four bytes go into a zeroed
      four-byte array, which is read little-endian. */
  function U32At(data: seq<byte>, pos: nat): (r: Step<nat>)
    requires pos <= |data|
    ensures r.next == pos + Min(4, |data| - pos)
    ensures r.result.Fail? <==> pos == |data|
    ensures r.result.Fail? ==> r.result.error == EndOfInput
    ensures r.result.Ok? ==> r.result.value == LittleEndian(data[pos..r.next])
    ensures r.result.Ok? ==> r.result.value < Pow2(8 * (r.next - pos))
    ensures pos + 4 <= |data| ==> r.result == Ok(
      data[pos] as nat + 0x100 * data[pos + 1] as nat +
      0x1_0000 * data[pos + 2] as nat + 0x100_0000 * data[pos + 3] as nat)
  {
    if pos == |data| then Step(Fail(EndOfInput), pos)
    else
      var n := Min(4, |data| - pos);
      var got := data[pos..pos + n];
      LittleEndianZeroPadding(got, 4 - n);
      LittleEndianBound(got);
      Step(Ok(Uint32(got + Zeros(4 - n))), pos + n)
  }

  /** `getU32`: a short read of one to three bytes is not an error, and the
      missing high bytes stay zero. */
  method GetU32(cur: Cursor) returns (r: Result<nat>)
    requires cur.Valid()
    modifies cur
    ensures cur.Valid()
    ensures Step(r, cur.pos) == U32At(cur.data, old(cur.pos))
  {
    var got, err := cur.Read(4);
    if err.Some? {
      return Fail(EndOfInput);
    }
    var buffer := got + Zeros(4 - |got|);
    return Ok(Uint32(buffer));
  }

  /** The string `getString` reads at `pos`: a varint length, then that many
      bytes. When fewer bytes follow than the length announces, the read
      error is dropped: the result is an empty string, and every remaining
      byte has been consumed. */
  function StringAt(data: seq<byte>, pos: nat): (r: Step<seq<byte>>)
    requires pos <= |data|
    ensures pos <= r.next <= |data|
    ensures r.result.Fail? <==> UvarintAt(data, pos).result.Fail?
    ensures r.result.Fail? ==>
      r == Step(Fail(UvarintAt(data, pos).result.error), UvarintAt(data, pos).next)
    ensures r.result.Ok? ==>
      |r.result.value| <= r.next - pos && r.result.value == data[r.next - |r.result.value|..r.next]
    ensures r.result.Ok? && r.result.value != [] ==>
      |r.result.value| == UvarintAt(data, pos).result.value
    ensures UvarintAt(data, pos).result.Ok? ==>
      var m, n := UvarintAt(data, pos).next, UvarintAt(data, pos).result.value;
      && (m + n <= |data| ==> r == Step(Ok(data[m..m + n]), m + n))
      && (|data| < m + n ==> r == Step(Ok([]), |data|))
  {
    var length := UvarintAt(data, pos);
    match length.result
    case Fail(e) => Step(Fail(e), length.next)
    case Ok(n) =>
      if length.next + n <= |data| then
        Step(Ok(data[length.next..length.next + n]), length.next + n)
      else Step(Ok([]), |data|)
  }

  /** `getString`. */
  method GetString(cur: Cursor) returns (r: Result<seq<byte>>)
    requires cur.Valid()
    modifies cur
    ensures cur.Valid()
    ensures Step(r, cur.pos) == StringAt(cur.data, old(cur.pos))
  {
    var length := ReadUvarint(cur);
    if length.Fail? {
      return Fail(length.error);
    }
    var got, err := cur.ReadFull(length.value);
    if err.Some? {
      return Ok([]);
    }
    return Ok(got);
  }

  /** A string as a sender lays it out: its length as a varint, then its bytes. */
  ghost function EncodeString(s: seq<byte>): seq<byte>
  {
    EncodeUvarint(|s|) + s
  }

  /** Round trip: `getString` gives back an encoded string and stops right
      after it, whatever follows. */
  lemma StringOfEncoding(data: seq<byte>, pos: nat, s: seq<byte>)
    requires |s| < TwoTo64
    requires pos + |EncodeString(s)| <= |data|
    requires data[pos..pos + |EncodeString(s)|] == EncodeString(s)
    ensures StringAt(data, pos) == Step(Ok(s), pos + |EncodeString(s)|)
  {
    var e := EncodeUvarint(|s|);
    var m := pos + |e|;
    assert UvarintAt(data, pos) == Step(Ok(|s|), m) by {
      assert data[pos..m] == data[pos..pos + |EncodeString(s)|][..|e|];
      UvarintOfEncoding(data, pos, |s|);
    }
    assert data[m..m + |s|] == s by {
      assert data[m..m + |s|] == data[pos..pos + |EncodeString(s)|][|e|..];
    }
  }

  /** The swallowed error: a length, in any of the varint forms
      `binary.ReadUvarint` accepts, that runs past the end of the buffer
      gives the empty string with no error, and the cursor at the end. */
  lemma StringOfShortPayload(data: seq<byte>, pos: nat, n: nat, m: nat)
    requires pos <= |data|
    requires UvarintAt(data, pos) == Step(Ok(n), m) && |data| < m + n
    ensures StringAt(data, pos) == Step(Ok([]), |data|)
  {
  }

  /** A length that is not the shortest encoding of its value is accepted:
      `[0x83, 0x00]` reads as 3, whatever follows. */
  lemma NonMinimalLength(data: seq<byte>)
    requires 2 <= |data| && data[0] == 0x83 && data[1] == 0x00
    ensures UvarintAt(data, 0) == Step(Ok(3), 2)
  {
    assert Groups(data, 1, 1) == Step(Ok(0), 2);
    assert Groups(data, 0, 0) == Step(Ok(3), 2);
    UvarintIsGroups(data, 0);
  }

  /** After the non-minimal length `[0x83, 0x00]`, a full payload of three
      bytes reads back. */
  lemma NonMinimalLengthRead()
    ensures StringAt([0x83, 0x00, 1, 2, 3], 0) == Step(Ok([1, 2, 3]), 5)
  {
    var data: seq<byte> := [0x83, 0x00, 1, 2, 3];
    NonMinimalLength(data);
    assert data[2..5] == [1, 2, 3];
  }

  /** After the non-minimal length `[0x83, 0x00]`, a payload one byte short
      reads as the empty string, with the cursor at the end. */
  lemma NonMinimalLengthShort()
    ensures StringAt([0x83, 0x00, 1, 2], 0) == Step(Ok([]), 4)
  {
    NonMinimalLength([0x83, 0x00, 1, 2]);
  }

  lemma SliceOfSuffix(d1: seq<byte>, d2: seq<byte>, pos: nat, lo: nat, hi: nat)
    requires pos <= lo <= hi <= |d1| && pos <= |d2| && d1[pos..] == d2[pos..]
    ensures hi <= |d2| && d1[lo..hi] == d2[lo..hi]
  {
    assert |d1| == |d2|;
    forall k | lo <= k < hi
      ensures d1[k] == d2[k]
    {
      assert d1[k] == d1[pos..][k - pos];
      assert d2[k] == d2[pos..][k - pos];
    }
  }

  /** The string read depends on nothing before `pos`. */
  lemma StringLocal(d1: seq<byte>, d2: seq<byte>, pos: nat)
    requires pos <= |d1| && pos <= |d2| && d1[pos..] == d2[pos..]
    ensures StringAt(d1, pos) == StringAt(d2, pos)
  {
    GroupsLocal(d1, d2, pos, 0);
    UvarintIsGroups(d1, pos);
    UvarintIsGroups(d2, pos);
    var length := UvarintAt(d1, pos);
    assert length == UvarintAt(d2, pos);
    if length.result.Ok? && length.next + length.result.value <= |d1| {
      var m, n := length.next, length.result.value;
      SliceOfSuffix(d1, d2, pos, m, m + n);
    }
  }
}
