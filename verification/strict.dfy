/** A decoder that propagates every error: a short command code, a string
    payload cut short and a failed body all make the decode fail. `parse`
    itself (module Parser) keeps the behaviour of the code as written; this
    module states where the two differ. */
module Strict {
  import opened Bytes
  import opened Results
  import opened Uvarint
  import opened Fields
  import opened Commands
  import opened Parser
  import opened Encoding

  /** The command code, read only when all four bytes are there. */
  function StrictU32At(data: seq<byte>, pos: nat): (r: Step<nat>)
    requires pos <= |data|
    ensures r.result.Ok? <==> pos + 4 <= |data|
    ensures r.result.Ok? ==> r == U32At(data, pos)
  {
    if pos + 4 <= |data| then Step(Ok(Uint32(data[pos..pos + 4])), pos + 4)
    else Step(Fail(EndOfInput), |data|)
  }

  /** A string whose payload must be present in full; a short payload is
      reported as `io.ReadFull` reports it. */
  function StrictStringAt(data: seq<byte>, pos: nat): (r: Step<seq<byte>>)
    requires pos <= |data|
    ensures r.result.Ok? ==> r == StringAt(data, pos)
    ensures r.result.Ok? ==> |r.result.value| == UvarintAt(data, pos).result.value
  {
    var length := UvarintAt(data, pos);
    match length.result
    case Fail(e) => Step(Fail(e), length.next)
    case Ok(n) =>
      if length.next + n <= |data| then
        Step(Ok(data[length.next..length.next + n]), length.next + n)
      else Step(Fail(if length.next == |data| then Eof else UnexpectedEof), |data|)
  }

  /** The whole decode, failing as soon as any field fails. Whenever it
      succeeds, `parse` returns the same record with a nil error. */
  function StrictDecode(data: seq<byte>): (r: Result<CommandInfo>)
    ensures r.Ok? ==> Decode(data).err == None && Decode(data).info == r.value
    ensures r.Ok? ==> WellFormed(r.value)
  {
    var header := U8At(data, 0);
    if header.result.Fail? then Fail(header.result.error)
    else
      var command := StrictU32At(data, 1);
      if command.result.Fail? then Fail(command.result.error)
      else if command.result.value > 2 then Fail(UnknownCommandCode)
      else
        var key := StrictStringAt(data, 5);
        if key.result.Fail? then Fail(key.result.error)
        else if command.result.value == 0 then
          var value := StrictStringAt(data, key.next);
          if value.result.Fail? then Fail(value.result.error)
          else Ok(CommandInfo(SetCommand, key.result.value, value.result.value))
        else if command.result.value == 1 then Ok(CommandInfo(GetCommand, key.result.value, []))
        else Ok(CommandInfo(ClearCommand, key.result.value, []))
  }

  /** A string cut short anywhere, in its length or in its payload, makes
      the strict string read fail. */
  lemma StrictStringOfTruncated(data: seq<byte>, pos: nat, s: seq<byte>)
    requires |s| < TwoTo64
    requires pos <= |data| < pos + |EncodeString(s)|
    requires data[pos..] == EncodeString(s)[..|data| - pos]
    ensures StrictStringAt(data, pos).result.Fail?
  {
    var e := EncodeUvarint(|s|);
    var n := |data| - pos;
    assert EncodeString(s) == e + s;
    if n < |e| {
      assert EncodeString(s)[..n] == e[..n];
      UvarintOfTruncatedEncoding(data, pos, |s|);
    } else {
      assert data[pos..pos + |e|] == data[pos..][..|e|];
      assert EncodeString(s)[..n][..|e|] == e;
      UvarintOfEncoding(data, pos, |s|);
    }
  }

  /** A complete string reads back under the strict decoder too. */
  lemma StrictStringOfEncoding(data: seq<byte>, pos: nat, s: seq<byte>)
    requires |s| < TwoTo64
    requires pos + |EncodeString(s)| <= |data|
    requires data[pos..pos + |EncodeString(s)|] == EncodeString(s)
    ensures StrictStringAt(data, pos) == Step(Ok(s), pos + |EncodeString(s)|)
  {
    StringOfEncoding(data, pos, s);
  }

  /** The strict decoder on a buffer whose command code is that of `info`
      and whose strings read back in full as the fields of `info`. */
  lemma StrictDecodeOfFields(data: seq<byte>, info: CommandInfo, m: nat, end: nat)
    requires WellFormed(info) && 5 <= |data|
    requires data[1..5] == [CodeByte(info.cmd), 0, 0, 0]
    requires StrictStringAt(data, 5) == Step(Ok(info.key), m)
    requires info.cmd == SetCommand ==>
      m <= |data| && StrictStringAt(data, m) == Step(Ok(info.value), end)
    ensures StrictDecode(data) == Ok(info)
  {
    assert Uint32(data[1..5]) == CodeByte(info.cmd) as nat;
    assert StrictU32At(data, 1) == Step(Ok(CodeByte(info.cmd) as nat), 5);
  }

  /** The strict decoder accepts every well-formed buffer, whatever
      follows it, and agrees there with `parse`. */
  lemma StrictDecodeOfEncoding(tag: byte, info: CommandInfo, rest: seq<byte>)
    requires WellFormed(info)
    ensures StrictDecode(Encode(tag, info) + rest) == Ok(info)
    ensures Decode(Encode(tag, info) + rest).info == info
  {
    var e := Encode(tag, info);
    var data := e + rest;
    var k := EncodeString(info.key);
    EncodeLayout(tag, info);
    SliceOfExtension(e, rest, 1, 5);
    SliceOfExtension(e, rest, 5, 5 + |k|);
    StrictStringOfEncoding(data, 5, info.key);
    if info.cmd == SetCommand {
      SliceOfExtension(e, rest, 5 + |k|, |e|);
      StrictStringOfEncoding(data, 5 + |k|, info.value);
    }
    StrictDecodeOfFields(data, info, 5 + |k|, |e|);
    DecodeOfEncoding(tag, info, rest);
  }

  /** A buffer that ends inside the key of a Set, Get or Clear is rejected. */
  lemma StrictRejectsShortKey(data: seq<byte>, info: CommandInfo)
    requires WellFormed(info)
    requires 5 <= |data| < 5 + |EncodeString(info.key)|
    requires data[1..5] == [CodeByte(info.cmd), 0, 0, 0]
    requires data[5..] == EncodeString(info.key)[..|data| - 5]
    ensures StrictDecode(data).Fail?
  {
    assert Uint32(data[1..5]) == CodeByte(info.cmd) as nat;
    StrictStringOfTruncated(data, 5, info.key);
  }

  /** A buffer that ends inside the value of a Set is rejected. */
  lemma StrictRejectsShortValue(data: seq<byte>, info: CommandInfo)
    requires WellFormed(info) && info.cmd == SetCommand
    requires 5 + |EncodeString(info.key)| <= |data|
    requires |data| < 5 + |EncodeString(info.key)| + |EncodeString(info.value)|
    requires data[1..5] == [CodeByte(info.cmd), 0, 0, 0]
    requires data[5..5 + |EncodeString(info.key)|] == EncodeString(info.key)
    requires data[5 + |EncodeString(info.key)|..] ==
      EncodeString(info.value)[..|data| - (5 + |EncodeString(info.key)|)]
    ensures StrictDecode(data).Fail?
  {
    var k := EncodeString(info.key);
    assert Uint32(data[1..5]) == CodeByte(info.cmd) as nat;
    StrictStringOfEncoding(data, 5, info.key);
    StrictStringOfTruncated(data, 5 + |k|, info.value);
  }

  /** Every proper prefix of a well-formed buffer is rejected by the strict
      decoder: a truncated command never decodes as a shorter one. */
  lemma StrictRejectsTruncation(tag: byte, info: CommandInfo, n: nat)
    requires WellFormed(info) && n < |Encode(tag, info)|
    ensures StrictDecode(Encode(tag, info)[..n]).Fail?
  {
    var e := Encode(tag, info);
    var k := EncodeString(info.key);
    EncodeLayout(tag, info);
    if 5 <= n {
      SliceOfPrefix(e, n, 1, 5);
      if n < 5 + |k| {
        SuffixOfPrefix(e, n, 5);
        assert e[5..][..n - 5] == k[..n - 5];
        StrictRejectsShortKey(e[..n], info);
      } else {
        SliceOfPrefix(e, n, 5, 5 + |k|);
        SuffixOfPrefix(e, n, 5 + |k|);
        StrictRejectsShortValue(e[..n], info);
      }
    }
  }

  /** `getString` drops the error of a payload cut short: the Get body
      `[3, 'f', 'o']` parses as the empty key with a nil error. The strict
      read reports the truncation. */
  lemma TruncatedKeyAccepted()
    ensures ParseGetAt([1, 1, 0, 0, 0, 3, 102, 111], 5) ==
      Parsed(CommandInfo(GetCommand, [], []), None, 8)
    ensures Decode([1, 1, 0, 0, 0, 3, 102, 111]) == Parsed(CommandInfo(GetCommand, [], []), None, 8)
    ensures StrictDecode([1, 1, 0, 0, 0, 3, 102, 111]) == Fail(UnexpectedEof)
  {
    var data: seq<byte> := [1, 1, 0, 0, 0, 3, 102, 111];
    assert U32At(data, 1).result == Ok(1);
    assert Groups(data, 5, 0) == Step(Ok(3), 6);
    UvarintIsGroups(data, 5);
  }

  /** `parse` drops the body parser's error: a Get with no key at all is
      returned with a nil error although `parse_get` reported end of input. */
  lemma MissingKeyAccepted()
    ensures ParseGetAt([1, 1, 0, 0, 0], 5) == Parsed(CommandInfo(GetCommand, [], []), Some(Eof), 5)
    ensures Decode([1, 1, 0, 0, 0]) == Parsed(CommandInfo(GetCommand, [], []), None, 5)
    ensures StrictDecode([1, 1, 0, 0, 0]) == Fail(Eof)
  {
    var data: seq<byte> := [1, 1, 0, 0, 0];
    assert U32At(data, 1).result == Ok(1);
  }

  /** `getU32` accepts a short read: after the header, the single byte 2
      is taken as the whole command code, and the buffer decodes as Clear
      with a nil error. */
  lemma ShortCodeAccepted()
    ensures U32At([1, 2], 1) == Step(Ok(2), 2)
    ensures Decode([1, 2]) == Parsed(CommandInfo(ClearCommand, [], []), None, 2)
    ensures StrictDecode([1, 2]) == Fail(EndOfInput)
  {
    var data: seq<byte> := [1, 2];
    assert data[1..2] == [2];
  }
}
