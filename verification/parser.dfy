/** `parse` and the three body parsers `parse_set`, `parse_get` and
    `parse_clear`. Wire layout: one header byte, a four-byte little-endian
    command code (0 Set, 1 Get, 2 Clear), then the body: the key string,
    and for Set the value string after it. */
module Parser {
  import opened Bytes
  import opened Results
  import opened Reader
  import opened Fields
  import opened Commands
  import Uvarint

  /** What a parse function returns: the record, the error (`None` for
      Go's nil), and where the cursor stands afterwards. */
  datatype Parsed = Parsed(info: CommandInfo, err: Option<Error>, next: nat)

  /** What `parse_set` returns for a body at `pos`. */
  function ParseSetAt(data: seq<byte>, pos: nat): (r: Parsed)
    requires pos <= |data|
    ensures pos <= r.next <= |data|
    ensures r.info.cmd == SetCommand
    ensures StringAt(data, pos).result.Fail? ==> r.info.key == [] && r.info.value == []
    ensures StringAt(data, pos).result.Ok? ==> r.info.key == StringAt(data, pos).result.value
    ensures r.err.Some? ==> r.info.value == []
    ensures r.err.None? <==>
      StringAt(data, pos).result.Ok? && StringAt(data, StringAt(data, pos).next).result.Ok?
    ensures var key := StringAt(data, pos);
      && (key.result.Fail? ==> r.err == Some(key.result.error) && r.next == key.next)
      && (key.result.Ok? ==>
            var value := StringAt(data, key.next);
            && r.next == value.next
            && (value.result.Fail? ==> r.err == Some(value.result.error))
            && (value.result.Ok? ==> r.info.value == value.result.value))
  {
    var key := StringAt(data, pos);
    match key.result
    case Fail(e) => Parsed(CommandInfo(SetCommand, [], []), Some(e), key.next)
    case Ok(k) =>
      var value := StringAt(data, key.next);
      match value.result
      case Fail(e) => Parsed(CommandInfo(SetCommand, k, []), Some(e), value.next)
      case Ok(v) => Parsed(CommandInfo(SetCommand, k, v), None, value.next)
  }

  /** `parse_set` returns the two strings it read, in order, with a nil
      error when both reads succeed. */
  lemma SetOfStrings(data: seq<byte>, pos: nat)
    requires pos <= |data|
    requires StringAt(data, pos).result.Ok?
    requires StringAt(data, StringAt(data, pos).next).result.Ok?
    ensures var key := StringAt(data, pos); var value := StringAt(data, key.next);
      ParseSetAt(data, pos) ==
        Parsed(CommandInfo(SetCommand, key.result.value, value.result.value), None, value.next)
  {
  }

  /** What `parse_get` returns for a body at `pos`. */
  function ParseGetAt(data: seq<byte>, pos: nat): (r: Parsed)
    requires pos <= |data|
    ensures pos <= r.next <= |data|
    ensures r.info.cmd == GetCommand && r.info.value == []
    ensures r.err.Some? <==> StringAt(data, pos).result.Fail?
    ensures r.err.Some? ==> r.info.key == []
    ensures r.err.None? ==> r.info.key == StringAt(data, pos).result.value
    ensures r.err.Some? ==> r.err.value == StringAt(data, pos).result.error
    ensures r.next == StringAt(data, pos).next
  {
    var key := StringAt(data, pos);
    match key.result
    case Fail(e) => Parsed(CommandInfo(GetCommand, [], []), Some(e), key.next)
    case Ok(k) => Parsed(CommandInfo(GetCommand, k, []), None, key.next)
  }

  /** What `parse_clear` returns for a body at `pos`. */
  function ParseClearAt(data: seq<byte>, pos: nat): (r: Parsed)
    requires pos <= |data|
    ensures pos <= r.next <= |data|
    ensures r.info.cmd == ClearCommand && r.info.value == []
    ensures r.err.Some? <==> StringAt(data, pos).result.Fail?
    ensures r.err.Some? ==> r.info.key == []
    ensures r.err.None? ==> r.info.key == StringAt(data, pos).result.value
    ensures r.err.Some? ==> r.err.value == StringAt(data, pos).result.error
    ensures r.next == StringAt(data, pos).next
  {
    var key := StringAt(data, pos);
    match key.result
    case Fail(e) => Parsed(CommandInfo(ClearCommand, [], []), Some(e), key.next)
    case Ok(k) => Parsed(CommandInfo(ClearCommand, k, []), None, key.next)
  }

  /** What `parse` returns for a buffer read from `pos`. The header byte is
      read and thrown away; for codes 0, 1 and 2 the body parser's record
      is returned with a nil error, whatever error the body parser gave. */
  function ParseAt(data: seq<byte>, pos: nat): (r: Parsed)
    requires pos <= |data|
    ensures pos <= r.next <= |data|
    ensures r.err.Some? ==> r.err.value == EndOfInput || r.err.value == UnknownCommandCode
    ensures r.err == Some(UnknownCommandCode) ==> r.info == CommandInfo(UnknownCommand, [], [])
    ensures r.err.None? ==> r.info.cmd != UnknownCommand
    ensures r.info.cmd != SetCommand ==> r.info.value == []
  {
    var header := U8At(data, pos);
    if header.result.Fail? then Parsed(ZeroInfo, Some(header.result.error), header.next)
    else
      var command := U32At(data, header.next);
      if command.result.Fail? then
        Parsed(ZeroInfo.(cmd := UnknownCommand), Some(command.result.error), command.next)
      else if command.result.value == 0 then
        var body := ParseSetAt(data, command.next);
        Parsed(body.info, None, body.next)
      else if command.result.value == 1 then
        var body := ParseGetAt(data, command.next);
        Parsed(body.info, None, body.next)
      else if command.result.value == 2 then
        var body := ParseClearAt(data, command.next);
        Parsed(body.info, None, body.next)
      else
        Parsed(ZeroInfo.(cmd := UnknownCommand), Some(UnknownCommandCode), command.next)
  }

  /** `parse(bytes.NewReader(data))`. */
  function Decode(data: seq<byte>): Parsed
  {
    ParseAt(data, 0)
  }

  /** `parse_set`. */
  method ParseSet(cur: Cursor) returns (info: CommandInfo, err: Option<Error>)
    requires cur.Valid()
    modifies cur
    ensures cur.Valid()
    ensures Parsed(info, err, cur.pos) == ParseSetAt(cur.data, old(cur.pos))
  {
    info := CommandInfo(SetCommand, [], []);
    var key := GetString(cur);
    if key.Fail? {
      info := info.(key := []);
      return info, Some(key.error);
    }
    info := info.(key := key.value);
    var value := GetString(cur);
    if value.Fail? {
      info := info.(value := []);
      return info, Some(value.error);
    }
    info := info.(value := value.value);
    return info, None;
  }

  /** `parse_get`. */
  method ParseGet(cur: Cursor) returns (info: CommandInfo, err: Option<Error>)
    requires cur.Valid()
    modifies cur
    ensures cur.Valid()
    ensures Parsed(info, err, cur.pos) == ParseGetAt(cur.data, old(cur.pos))
  {
    info := CommandInfo(GetCommand, [], []);
    var key := GetString(cur);
    if key.Fail? {
      info := info.(key := []);
      return info, Some(key.error);
    }
    info := info.(key := key.value);
    return info, None;
  }

  /** `parse_clear`. */
  method ParseClear(cur: Cursor) returns (info: CommandInfo, err: Option<Error>)
    requires cur.Valid()
    modifies cur
    ensures cur.Valid()
    ensures Parsed(info, err, cur.pos) == ParseClearAt(cur.data, old(cur.pos))
  {
    info := CommandInfo(ClearCommand, [], []);
    var key := GetString(cur);
    if key.Fail? {
      info := info.(key := []);
      return info, Some(key.error);
    }
    info := info.(key := key.value);
    return info, None;
  }

  /** `parse`. */
  method Parse(cur: Cursor) returns (info: CommandInfo, err: Option<Error>)
    requires cur.Valid()
    modifies cur
    ensures cur.Valid()
    ensures Parsed(info, err, cur.pos) == ParseAt(cur.data, old(cur.pos))
  {
    info := ZeroInfo;
    var header := GetU8(cur);
    if header.Fail? {
      return info, Some(header.error);
    }
    var command := GetU32(cur);
    if command.Fail? {
      info := info.(cmd := UnknownCommand);
      return info, Some(command.error);
    }
    var bodyErr: Option<Error>;
    if command.value == 0 {
      info, bodyErr := ParseSet(cur);
      return info, None;
    } else if command.value == 1 {
      info, bodyErr := ParseGet(cur);
      return info, None;
    } else if command.value == 2 {
      info, bodyErr := ParseClear(cur);
      return info, None;
    } else {
      info := info.(cmd := UnknownCommand);
      return info, Some(UnknownCommandCode);
    }
  }

  /** A whole buffer through a fresh reader, as the demo program does. */
  method DecodeBuffer(data: seq<byte>) returns (info: CommandInfo, err: Option<Error>)
    ensures info == Decode(data).info && err == Decode(data).err
  {
    var cur := new Cursor(data);
    info, err := Parse(cur);
  }

  /** The command code `getU32` reads after the header byte, short reads
      included. */
  function CodeOf(data: seq<byte>): nat
    requires 2 <= |data|
  {
    LittleEndian(data[1..Min(5, |data|)])
  }

  /** Only a buffer of at most one byte makes `parse` report end of input:
      an empty one leaves the zero record, whose command is Set; a single
      header byte marks the command Unknown. */
  lemma EndOfInputCases(data: seq<byte>)
    ensures (Decode(data).err == Some(EndOfInput)) == (|data| <= 1)
    ensures |data| == 0 ==>
      Decode(data) == Parsed(CommandInfo(SetCommand, [], []), Some(EndOfInput), 0)
    ensures |data| == 1 ==>
      Decode(data) == Parsed(CommandInfo(UnknownCommand, [], []), Some(EndOfInput), 1)
  {
  }

  /** Codes 0, 1 and 2 give Set, Get and Clear with a nil error, carrying
      whatever record the body parser built, even when it failed. */
  lemma KnownCodeAccepted(data: seq<byte>)
    requires 2 <= |data| && CodeOf(data) <= 2
    ensures Decode(data).err == None
    ensures CodeOf(data) == 0 ==> Decode(data) == ParseSetAt(data, Min(5, |data|)).(err := None)
    ensures CodeOf(data) == 1 ==> Decode(data) == ParseGetAt(data, Min(5, |data|)).(err := None)
    ensures CodeOf(data) == 2 ==> Decode(data) == ParseClearAt(data, Min(5, |data|)).(err := None)
  {
  }

  /** Every other code gives Unknown and the "Unknown command" error, and no
      body byte is read. */
  lemma UnknownCodeRejected(data: seq<byte>)
    requires 2 <= |data| && CodeOf(data) > 2
    ensures Decode(data) ==
      Parsed(CommandInfo(UnknownCommand, [], []), Some(UnknownCommandCode), Min(5, |data|))
  {
  }

  /** The value of the header byte never matters. */
  lemma HeaderIgnored(d1: seq<byte>, d2: seq<byte>)
    requires 1 <= |d1| && 1 <= |d2| && d1[1..] == d2[1..]
    ensures Decode(d1) == Decode(d2)
  {
    assert |d1| == |d2|;
    if 2 <= |d1| {
      var n := Min(5, |d1|);
      assert U32At(d1, 1) == U32At(d2, 1) by {
        SliceOfSuffix(d1, d2, 1, 1, n);
      }
      SuffixOfSuffix(d1, d2, 1, n);
      BodiesLocal(d1, d2, n);
    }
  }

  /** The body parsers depend on nothing before `pos`. */
  lemma BodiesLocal(d1: seq<byte>, d2: seq<byte>, pos: nat)
    requires pos <= |d1| && pos <= |d2| && d1[pos..] == d2[pos..]
    ensures ParseSetAt(d1, pos) == ParseSetAt(d2, pos)
    ensures ParseGetAt(d1, pos) == ParseGetAt(d2, pos)
    ensures ParseClearAt(d1, pos) == ParseClearAt(d2, pos)
  {
    StringLocal(d1, d2, pos);
    var key := StringAt(d1, pos);
    if key.result.Ok? {
      SuffixOfSuffix(d1, d2, pos, key.next);
      StringLocal(d1, d2, key.next);
    }
  }

  lemma SuffixOfSuffix(d1: seq<byte>, d2: seq<byte>, pos: nat, later: nat)
    requires pos <= later <= |d1| && pos <= |d2| && d1[pos..] == d2[pos..]
    ensures later <= |d2| && d1[later..] == d2[later..]
  {
    assert d1[later..] == d1[pos..][later - pos..];
    assert d2[later..] == d2[pos..][later - pos..];
  }

  /** The demonstration buffer `{1, 1, 0, 0, 0, 3, 'f', 'o', 'o', 3, 'b',
      'a', 'r'}` carries code 1, so it decodes as Get of key "foo"; the
      four bytes after the key are never read. */
  lemma DemoBuffer()
    ensures Decode([1, 1, 0, 0, 0, 3, 102, 111, 111, 3, 98, 97, 114]) ==
      Parsed(CommandInfo(GetCommand, [102, 111, 111], []), None, 9)
  {
    var data: seq<byte> := [1, 1, 0, 0, 0, 3, 102, 111, 111, 3, 98, 97, 114];
    assert U32At(data, 1).result == Ok(1);
    assert Uvarint.Groups(data, 5, 0) == Step(Ok(3), 6);
    Uvarint.UvarintIsGroups(data, 5);
    assert data[6..9] == [102, 111, 111];
  }
}
