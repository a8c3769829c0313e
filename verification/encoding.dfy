/** The layout a sender gives a command. The repository has no encoder;
    this one only states which buffers are well formed, so that the round
    trip through `parse` can be proved. */
module Encoding {
  import opened Bytes
  import opened Results
  import opened Uvarint
  import opened Fields
  import opened Commands
  import opened Parser

  /** A record some buffer can carry: a known command, lengths that fit a
      `uint64` varint, and a value only for Set. */
  predicate WellFormed(info: CommandInfo)
  {
    && info.cmd != UnknownCommand
    && |info.key| < TwoTo64
    && |info.value| < TwoTo64
    && (info.cmd != SetCommand ==> info.value == [])
  }

  /** The command code `parse` dispatches on. */
  function CodeByte(c: Command): (b: byte)
    requires c != UnknownCommand
    ensures b <= 2
  {
    match c
    case SetCommand => 0
    case GetCommand => 1
    case ClearCommand => 2
  }

  /** `[tag][code as u32 LE][key]`, then `[value]` for Set. */
  ghost function Encode(tag: byte, info: CommandInfo): seq<byte>
    requires WellFormed(info)
  {
    [tag, CodeByte(info.cmd), 0, 0, 0] + EncodeString(info.key) +
    (if info.cmd == SetCommand then EncodeString(info.value) else [])
  }

  /** Where each field of an encoded command sits. */
  lemma EncodeLayout(tag: byte, info: CommandInfo)
    requires WellFormed(info)
    ensures var e := Encode(tag, info); var k := EncodeString(info.key);
      && 5 + |k| <= |e|
      && e[1..5] == [CodeByte(info.cmd), 0, 0, 0]
      && e[5..5 + |k|] == k
      && (info.cmd == SetCommand ==> e[5 + |k|..] == EncodeString(info.value))
      && (info.cmd != SetCommand ==> |e| == 5 + |k|)
  {
    var e := Encode(tag, info);
    var k := EncodeString(info.key);
    var v := if info.cmd == SetCommand then EncodeString(info.value) else [];
    assert e == [tag, CodeByte(info.cmd), 0, 0, 0] + k + v;
    assert e[5 + |k|..] == v;
  }

  lemma SliceOfPrefix(e: seq<byte>, n: nat, lo: nat, hi: nat)
    requires lo <= hi <= n <= |e|
    ensures e[..n][lo..hi] == e[lo..hi]
  {
  }

  lemma SliceOfExtension(e: seq<byte>, rest: seq<byte>, lo: nat, hi: nat)
    requires lo <= hi <= |e|
    ensures (e + rest)[lo..hi] == e[lo..hi]
  {
  }

  lemma SuffixOfPrefix(e: seq<byte>, n: nat, lo: nat)
    requires lo <= n <= |e|
    ensures e[..n][lo..] == e[lo..][..n - lo]
  {
  }

  /** `parse` on a buffer whose command code is that of `info` and whose
      strings read back as the fields of `info`, whatever the header byte. */
  lemma DecodeOfFields(data: seq<byte>, info: CommandInfo, m: nat, end: nat)
    requires WellFormed(info) && 5 <= |data|
    requires data[1..5] == [CodeByte(info.cmd), 0, 0, 0]
    requires StringAt(data, 5) == Step(Ok(info.key), m)
    requires info.cmd != SetCommand ==> end == m
    requires info.cmd == SetCommand ==>
      m <= |data| && StringAt(data, m) == Step(Ok(info.value), end)
    ensures Decode(data) == Parsed(info, None, end)
  {
    assert Min(5, |data|) == 5;
    assert CodeOf(data) == CodeByte(info.cmd) as nat by {
      assert Uint32(data[1..5]) == CodeByte(info.cmd) as nat;
    }
    KnownCodeAccepted(data);
    if info.cmd == SetCommand {
      SetOfStrings(data, 5);
    }
  }

  /** Round trip: `parse` gives back every well-formed record with a nil
      error, reads exactly its encoding and ignores whatever follows. */
  lemma DecodeOfEncoding(tag: byte, info: CommandInfo, rest: seq<byte>)
    requires WellFormed(info)
    ensures Decode(Encode(tag, info) + rest) == Parsed(info, None, |Encode(tag, info)|)
  {
    var e := Encode(tag, info);
    var data := e + rest;
    var k := EncodeString(info.key);
    EncodeLayout(tag, info);
    SliceOfExtension(e, rest, 1, 5);
    SliceOfExtension(e, rest, 5, 5 + |k|);
    StringOfEncoding(data, 5, info.key);
    if info.cmd == SetCommand {
      SliceOfExtension(e, rest, 5 + |k|, |e|);
      StringOfEncoding(data, 5 + |k|, info.value);
    }
    DecodeOfFields(data, info, 5 + |k|, |e|);
  }
}
