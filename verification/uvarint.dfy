/** `binary.ReadUvarint`: an unsigned LEB128 number of at most ten bytes.
    Each byte gives seven data bits, least significant group first; a set
    high bit says another byte follows. */
module Uvarint {
  import opened Bytes
  import opened Results
  import opened Reader

  /** The most bytes a 64-bit varint may take (`binary.MaxVarintLen64`). */
  const MaxVarintLen64: nat := 10

  /** One more than the largest `uint64`. */
  const TwoTo64: nat := 0x1_0000_0000_0000_0000

  /** The reference reading of the varint whose group number `i` (counting
      from 0) sits at `pos`: the value of the groups from there on, not yet
      shifted into place. */
  function Groups(data: seq<byte>, pos: nat, i: nat): (r: Step<nat>)
    requires pos <= |data| && i < MaxVarintLen64
    decreases MaxVarintLen64 - i
    ensures pos <= r.next <= |data|
  {
    if pos == |data| then
      Step(Fail(if i > 0 then UnexpectedEof else Eof), pos)
    else if data[pos] < 0x80 then
      if i == MaxVarintLen64 - 1 && data[pos] > 1 then Step(Fail(Overflow), pos + 1)
      else Step(Ok(data[pos] as nat), pos + 1)
    else if i == MaxVarintLen64 - 1 then
      Step(Fail(Overflow), pos + 1)
    else
      var rest := Groups(data, pos + 1, i + 1);
      match rest.result
      case Ok(v) => Step(Ok((data[pos] % 0x80) as nat + 0x80 * v), rest.next)
      case Fail(e) => rest
  }

  /** Where a read of the groups from number `i` on stops, and how it fails:
      end of input on the very first byte, end of input later on, or a
      number longer than ten bytes. */
  lemma {:induction false} GroupsShape(data: seq<byte>, pos: nat, i: nat)
    requires pos <= |data| && i < MaxVarintLen64
    decreases MaxVarintLen64 - i
    ensures var r := Groups(data, pos, i);
      && r.next <= pos + (MaxVarintLen64 - i)
      && (r.result.Ok? ==> pos < r.next)
      && ((r.result == Fail(Eof)) == (i == 0 && pos == |data|))
      && (r.result == Fail(UnexpectedEof) ==> r.next == |data|)
      && (r.result == Fail(Overflow) ==> r.next == pos + (MaxVarintLen64 - i))
      && (r.result.Fail? ==> r.result.error in {Eof, UnexpectedEof, Overflow})
  {
    if pos < |data| && data[pos] >= 0x80 && i < MaxVarintLen64 - 1 {
      GroupsShape(data, pos + 1, i + 1);
    }
  }

  /** Overflow, both ways: the read from group `i` overflows exactly when
      the bytes up to group 9 all carry the continuation bit and the byte of
      group 9 is above 1, whether it continues or not. */
  lemma {:induction false} GroupsOverflow(data: seq<byte>, pos: nat, i: nat)
    requires pos <= |data| && i < MaxVarintLen64
    decreases MaxVarintLen64 - i
    ensures var last := pos + (MaxVarintLen64 - 1 - i);
      (Groups(data, pos, i).result == Fail(Overflow)) <==>
        && last < |data|
        && (forall k :: pos <= k < last ==> data[k] >= 0x80)
        && data[last] > 1
  {
    if pos < |data| && data[pos] >= 0x80 && i < MaxVarintLen64 - 1 {
      GroupsOverflow(data, pos + 1, i + 1);
    }
  }

  /** A number that reads successfully ends at the first byte without the
      continuation bit; every byte before it carries that bit. */
  lemma {:induction false} GroupsEndAtTerminator(data: seq<byte>, pos: nat, i: nat)
    requires pos <= |data| && i < MaxVarintLen64
    requires Groups(data, pos, i).result.Ok?
    ensures var n := Groups(data, pos, i).next;
      && data[n - 1] < 0x80
      && forall k :: pos <= k < n - 1 ==> data[k] >= 0x80
    decreases MaxVarintLen64 - i
  {
    GroupsShape(data, pos, i);
    if data[pos] >= 0x80 {
      GroupsEndAtTerminator(data, pos + 1, i + 1);
    }
  }

  /** The groups from number `i` on fill at most the `64 - 7 * i` bits
      left of a 64-bit number. */
  lemma {:induction false} GroupsFit(data: seq<byte>, pos: nat, i: nat)
    requires pos <= |data| && i < MaxVarintLen64
    requires Groups(data, pos, i).result.Ok?
    ensures Groups(data, pos, i).result.value < Pow2(64 - 7 * i)
    decreases MaxVarintLen64 - i
  {
    if data[pos] < 0x80 {
      GroupFits(data[pos] as nat, 0, i);
    } else {
      GroupsFit(data, pos + 1, i + 1);
      GroupFits((data[pos] % 0x80) as nat, Groups(data, pos + 1, i + 1).result.value, i);
    }
  }

  /** A seven-bit group below a value that fits the remaining bits still
      fits in 64 bits; the last group may only carry one bit. */
  lemma GroupFits(g: nat, v: nat, i: nat)
    requires i < MaxVarintLen64 && g < 0x80
    requires i < MaxVarintLen64 - 1 ==> v < Pow2(57 - 7 * i)
    requires i == MaxVarintLen64 - 1 ==> g <= 1 && v == 0
    ensures g + 0x80 * v < Pow2(64 - 7 * i)
  {
    if i < MaxVarintLen64 - 1 {
      Pow2Add(7, 57 - 7 * i);
      assert Pow2(7) == 0x80;
    } else {
      assert Pow2(1) == 2;
    }
  }

  /** The varint at `pos`, as `binary.ReadUvarint` decodes it. */
  function UvarintAt(data: seq<byte>, pos: nat): (r: Step<nat>)
    requires pos <= |data|
    ensures pos <= r.next <= |data| && r.next <= pos + MaxVarintLen64
    ensures r.result.Ok? ==> r.result.value < TwoTo64
    ensures (r.result == Fail(Eof)) == (pos == |data|)
    ensures r.result == Fail(UnexpectedEof) ==> pos < r.next == |data|
    ensures r.result == Fail(Overflow) ==> r.next == pos + MaxVarintLen64
    ensures r.result.Fail? ==> r.result.error in {Eof, UnexpectedEof, Overflow}
  {
    UvarintFacts(data, pos);
    UvarintIsGroups(data, pos);
    Accumulate(data, pos, 0, 0, 0)
  }

  /** The decoder reads the same number as the positional reading. */
  lemma UvarintIsGroups(data: seq<byte>, pos: nat)
    requires pos <= |data|
    ensures Accumulate(data, pos, 0, 0, 0) == Groups(data, pos, 0)
  {
    AccumulateIsGroups(data, pos, 0, 0, 0);
    assert Pow2(0) == 1;
  }

  /** The contract of `UvarintAt`, stated of the positional reading. */
  lemma UvarintFacts(data: seq<byte>, pos: nat)
    requires pos <= |data|
    ensures var r := Groups(data, pos, 0);
      && r.next <= pos + MaxVarintLen64
      && (r.result.Ok? ==> r.result.value < TwoTo64)
      && ((r.result == Fail(Eof)) == (pos == |data|))
      && (r.result == Fail(UnexpectedEof) ==> pos < r.next == |data|)
      && (r.result == Fail(Overflow) ==> r.next == pos + MaxVarintLen64)
      && (r.result.Fail? ==> r.result.error in {Eof, UnexpectedEof, Overflow})
  {
    GroupsShape(data, pos, 0);
    if Groups(data, pos, 0).result.Ok? {
      UvarintFits(data, pos);
    }
  }

  /** `binary.ReadUvarint` reports overflow exactly when nine bytes with the
      continuation bit are followed by a tenth byte above 1. */
  lemma UvarintOverflow(data: seq<byte>, pos: nat)
    requires pos <= |data|
    ensures (UvarintAt(data, pos).result == Fail(Overflow)) <==>
      && pos + MaxVarintLen64 <= |data|
      && (forall k :: pos <= k < pos + MaxVarintLen64 - 1 ==> data[k] >= 0x80)
      && data[pos + MaxVarintLen64 - 1] > 1
  {
    GroupsOverflow(data, pos, 0);
    UvarintIsGroups(data, pos);
  }

  /** A number that reads successfully fits in a `uint64`. */
  lemma UvarintFits(data: seq<byte>, pos: nat)
    requires pos <= |data| && Groups(data, pos, 0).result.Ok?
    ensures Groups(data, pos, 0).result.value < TwoTo64
  {
    GroupsFit(data, pos, 0);
    Pow2Is64();
  }

  lemma Pow2Is64()
    ensures Pow2(64) == TwoTo64
  {
    assert Pow2(8) == 0x100;
    Pow2Add(8, 8);
    assert Pow2(16) == 0x1_0000;
    Pow2Add(16, 16);
    assert Pow2(32) == 0x1_0000_0000;
    Pow2Add(32, 32);
  }

  /** What the decoding loop still owes once it holds `x` and the next
      group is shifted by `s` bits. */
  ghost function Shifted(st: Step<nat>, x: nat, s: nat): Step<nat>
  {
    Step(if st.result.Ok? then Ok(Place(x, st.result.value, s)) else st.result, st.next)
  }

  /** `x | g << s` when the bits of `x` all lie below `s`. */
  function Place(x: nat, g: nat, s: nat): nat
  {
    x + Pow2(s) * g
  }

  /** Placing a seven-bit group above the bits of `x` keeps the result below
      the next shift, so the groups never overlap and `|` is `+`. */
  lemma PlaceBound(x: nat, g: nat, s: nat)
    requires x < Pow2(s) && g < 0x80
    ensures Place(x, g, s) < Pow2(s + 7)
  {
    Pow2Add(s, 7);
    assert Pow2(7) == 0x80;
    assert Pow2(s) * g + Pow2(s) <= Pow2(s) * 0x80 by {
      assert Pow2(s) * g + Pow2(s) == Pow2(s) * (g + 1);
    }
  }

  /** The loop of `binary.ReadUvarint` from group `i` at `pos`, with `x`
      holding the groups read so far and `s` the shift of the next one. */
  function Accumulate(data: seq<byte>, pos: nat, i: nat, x: nat, s: nat): Step<nat>
    requires pos <= |data| && i < MaxVarintLen64
    decreases MaxVarintLen64 - i
  {
    if pos == |data| then Step(Fail(if i > 0 then UnexpectedEof else Eof), pos)
    else if data[pos] < 0x80 then
      if i == MaxVarintLen64 - 1 && data[pos] > 1 then Step(Fail(Overflow), pos + 1)
      else Step(Ok(Place(x, data[pos] as nat, s)), pos + 1)
    else if i == MaxVarintLen64 - 1 then Step(Fail(Overflow), pos + 1)
    else Accumulate(data, pos + 1, i + 1, Place(x, (data[pos] % 0x80) as nat, s), s + 7)
  }

  /** Accumulating the groups into `x` from the low bits up reads the same
      number as the positional reading `Groups`. */
  lemma {:induction false} AccumulateIsGroups(data: seq<byte>, pos: nat, i: nat, x: nat, s: nat)
    requires pos <= |data| && i < MaxVarintLen64 && s == 7 * i
    ensures Accumulate(data, pos, i, x, s) == Shifted(Groups(data, pos, i), x, s)
    decreases MaxVarintLen64 - i
  {
    if pos < |data| && data[pos] >= 0x80 && i < MaxVarintLen64 - 1 {
      var x2 := Place(x, (data[pos] % 0x80) as nat, s);
      AccumulateIsGroups(data, pos + 1, i + 1, x2, s + 7);
      NextGroup(data, pos, i, data[pos], x, s, x2);
    }
  }

  /** `binary.ReadUvarint(cur)`: accumulates seven bits per byte into `x`.
      The invariant `x < 2^s` keeps the groups in disjoint bits, so Go's
      `x |= g << s` is `x + g * 2^s`. */
  method ReadUvarint(cur: Cursor) returns (r: Result<nat>)
    requires cur.Valid()
    modifies cur
    ensures cur.Valid()
    ensures Step(r, cur.pos) == UvarintAt(cur.data, old(cur.pos))
  {
    ghost var start := cur.pos;
    ghost var goal := Accumulate(cur.data, start, 0, 0, 0);
    var x: nat := 0;
    var s: nat := 0;
    var i: nat := 0;
    while i < MaxVarintLen64
      invariant cur.Valid() && i <= MaxVarintLen64 && s == 7 * i
      invariant cur.pos == start + i
      invariant x < Pow2(s)
      invariant i < MaxVarintLen64 ==> goal == Accumulate(cur.data, start + i, i, x, s)
      invariant i == MaxVarintLen64 ==> goal == Step(Fail(Overflow), start + i)
      decreases MaxVarintLen64 - i
    {
      var b := cur.ReadByte();
      if b.Fail? {
        var err := b.error;
        if i > 0 && err == Eof {
          err := UnexpectedEof;
        }
        return Fail(err);
      }
      var octet := b.value;
      if octet < 0x80 {
        if i == MaxVarintLen64 - 1 && octet > 1 {
          return Fail(Overflow);
        }
        return Ok(Place(x, octet as nat, s));
      }
      PlaceBound(x, (octet % 0x80) as nat, s);
      x := Place(x, (octet % 0x80) as nat, s);
      s := s + 7;
      i := i + 1;
    }
    return Fail(Overflow);
  }

  /** The decoding loop meets a byte with the continuation bit at `p`; the
      group it carries moves into `x2`. */
  lemma NextGroup(data: seq<byte>, p: nat, i: nat, octet: byte, x: nat, s: nat, x2: nat)
    requires p < |data| && data[p] == octet && octet >= 0x80 && i < MaxVarintLen64 && s == 7 * i
    requires x2 == Place(x, (octet % 0x80) as nat, s)
    ensures i == MaxVarintLen64 - 1 ==>
      Shifted(Groups(data, p, i), x, s) == Step(Fail(Overflow), p + 1)
    ensures i < MaxVarintLen64 - 1 ==>
      Shifted(Groups(data, p, i), x, s) == Shifted(Groups(data, p + 1, i + 1), x2, s + 7)
  {
    if i < MaxVarintLen64 - 1 {
      var rest := Groups(data, p + 1, i + 1);
      if rest.result.Ok? {
        var g := (data[p] % 0x80) as nat;
        var v := rest.result.value;
        Pow2Add(s, 7);
        assert Pow2(7) == 0x80;
        Distribute(x, g, v, Pow2(s), Pow2(s + 7));
      }
    }
  }

  lemma Distribute(x: nat, g: nat, v: nat, p: nat, q: nat)
    requires q == p * 0x80
    ensures x + p * (g + 0x80 * v) == x + g * p + q * v
  {
  }

  /** The encoder that `binary.PutUvarint` implements; no part of the
      decoder uses it, it only states what a well-formed varint is. */
  ghost function EncodeUvarint(n: nat): (e: seq<byte>)
    ensures 1 <= |e|
    decreases n
  {
    if n < 0x80 then [n as byte] else [(n % 0x80 + 0x80) as byte] + EncodeUvarint(n / 0x80)
  }

  /** Decoding an encoded number, from group `i` on, gives it back and
      stops right after its last byte. */
  lemma {:induction false} GroupsOfEncoding(data: seq<byte>, pos: nat, i: nat, n: nat)
    requires i < MaxVarintLen64 && n < Pow2(64 - 7 * i)
    requires pos + |EncodeUvarint(n)| <= |data|
    requires data[pos..pos + |EncodeUvarint(n)|] == EncodeUvarint(n)
    ensures Groups(data, pos, i) == Step(Ok(n), pos + |EncodeUvarint(n)|)
    decreases n
  {
    var e := EncodeUvarint(n);
    assert data[pos] == e[0];
    if n < 0x80 {
      if i == MaxVarintLen64 - 1 {
        assert Pow2(1) == 2;
      }
    } else {
      if i == MaxVarintLen64 - 1 {
        assert false;
      }
      SplitGroup(n, i);
      var tail := EncodeUvarint(n / 0x80);
      assert e == [e[0]] + tail;
      assert data[pos + 1..pos + 1 + |tail|] == tail by {
        assert data[pos + 1..pos + 1 + |tail|] == data[pos..pos + |e|][1..];
      }
      GroupsOfEncoding(data, pos + 1, i + 1, n / 0x80);
      assert data[pos] >= 0x80 && (data[pos] % 0x80) as nat == n % 0x80;
      assert Groups(data, pos, i) == Step(Ok(n % 0x80 + 0x80 * (n / 0x80)), pos + 1 + |tail|);
    }
  }

  /** The first byte of a multi-byte encoding: its low seven bits and the
      rest of the number, which fits the groups that remain. */
  lemma SplitGroup(n: nat, i: nat)
    requires n >= 0x80 && i < MaxVarintLen64 - 1 && n < Pow2(64 - 7 * i)
    ensures (n % 0x80 + 0x80) as byte >= 0x80
    ensures ((n % 0x80 + 0x80) as byte % 0x80) as nat == n % 0x80
    ensures n == n % 0x80 + 0x80 * (n / 0x80)
    ensures n / 0x80 < Pow2(57 - 7 * i)
  {
    LowGroup(n);
    Pow2Add(7, 57 - 7 * i);
    assert Pow2(7) == 0x80;
    QuotientBound(n, Pow2(57 - 7 * i));
  }

  /** The low seven bits of `n`, with the continuation bit set. */
  lemma LowGroup(n: nat)
    ensures (n % 0x80 + 0x80) as byte >= 0x80
    ensures ((n % 0x80 + 0x80) as byte % 0x80) as nat == n % 0x80
    ensures n == n % 0x80 + 0x80 * (n / 0x80)
  {
  }

  lemma QuotientBound(n: nat, m: nat)
    requires n < 0x80 * m
    ensures n / 0x80 < m
  {
  }

  /** Round trip: every 64-bit number reads back from its encoding. */
  lemma UvarintOfEncoding(data: seq<byte>, pos: nat, n: nat)
    requires n < TwoTo64
    requires pos + |EncodeUvarint(n)| <= |data|
    requires data[pos..pos + |EncodeUvarint(n)|] == EncodeUvarint(n)
    ensures UvarintAt(data, pos) == Step(Ok(n), pos + |EncodeUvarint(n)|)
  {
    Pow2Is64();
    GroupsOfEncoding(data, pos, 0, n);
    UvarintIsGroups(data, pos);
  }

  /** Cutting an encoding short, from group `i` on, makes the read fail with
      the end-of-input error and leaves the cursor at the end. */
  lemma {:induction false} GroupsOfTruncatedEncoding(data: seq<byte>, pos: nat, i: nat, n: nat)
    requires i < MaxVarintLen64 && n < Pow2(64 - 7 * i)
    requires pos <= |data| < pos + |EncodeUvarint(n)|
    requires data[pos..] == EncodeUvarint(n)[..|data| - pos]
    ensures Groups(data, pos, i) ==
      Step(Fail(if i == 0 && pos == |data| then Eof else UnexpectedEof), |data|)
    decreases n
  {
    if pos < |data| {
      var e := EncodeUvarint(n);
      assert data[pos] == e[0];
      if n < 0x80 {
        assert false;
      }
      if i == MaxVarintLen64 - 1 {
        assert false;
      }
      SplitGroup(n, i);
      var tail := EncodeUvarint(n / 0x80);
      assert e == [e[0]] + tail;
      assert data[pos + 1..] == tail[..|data| - (pos + 1)] by {
        assert data[pos + 1..] == data[pos..][1..];
      }
      GroupsOfTruncatedEncoding(data, pos + 1, i + 1, n / 0x80);
    }
  }

  /** A proper prefix of an encoding is never read as a number. */
  lemma UvarintOfTruncatedEncoding(data: seq<byte>, pos: nat, n: nat)
    requires n < TwoTo64
    requires pos <= |data| < pos + |EncodeUvarint(n)|
    requires data[pos..] == EncodeUvarint(n)[..|data| - pos]
    ensures UvarintAt(data, pos) == Step(Fail(if pos == |data| then Eof else UnexpectedEof), |data|)
  {
    Pow2Is64();
    GroupsOfTruncatedEncoding(data, pos, 0, n);
    UvarintIsGroups(data, pos);
  }

  /** The read depends on nothing before `pos`. */
  lemma {:induction false} GroupsLocal(d1: seq<byte>, d2: seq<byte>, pos: nat, i: nat)
    requires pos <= |d1| && pos <= |d2| && d1[pos..] == d2[pos..] && i < MaxVarintLen64
    ensures Groups(d1, pos, i) == Groups(d2, pos, i)
    decreases MaxVarintLen64 - i
  {
    assert |d1| == |d2|;
    if pos < |d1| {
      assert d1[pos] == d1[pos..][0] == d2[pos];
      if i < MaxVarintLen64 - 1 {
        assert d1[pos + 1..] == d1[pos..][1..];
        assert d2[pos + 1..] == d2[pos..][1..];
        GroupsLocal(d1, d2, pos + 1, i + 1);
      }
    }
  }
}
