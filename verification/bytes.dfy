/** Octets and the little-endian integers the decoder reads from them. */
module Bytes {

  /** One octet, as Go's `byte`. */
  newtype byte = x: int | 0 <= x < 0x100

  function Min(a: nat, b: nat): nat
  {
    if a <= b then a else b
  }

  function Pow2(n: nat): (r: nat)
    ensures r >= 1
  {
    if n == 0 then 1 else 2 * Pow2(n - 1)
  }

  lemma {:induction false} Pow2Add(a: nat, b: nat)
    ensures Pow2(a + b) == Pow2(a) * Pow2(b)
  {
    if b > 0 {
      Pow2Add(a, b - 1);
      calc {
        Pow2(a + b);
        2 * Pow2(a + b - 1);
        2 * (Pow2(a) * Pow2(b - 1));
        Pow2(a) * (2 * Pow2(b - 1));
        Pow2(a) * Pow2(b);
      }
    }
  }

  /** `k` zero bytes, as a freshly declared Go array holds. */
  function Zeros(k: nat): (z: seq<byte>)
    ensures |z| == k
    ensures forall i :: 0 <= i < k ==> z[i] == 0
  {
    seq(k, _ => 0)
  }

  /** The reference reading of a byte string as an unsigned number,
      least significant byte first. */
  function LittleEndian(bs: seq<byte>): nat
  {
    if bs == [] then 0 else bs[0] as nat + 0x100 * LittleEndian(bs[1..])
  }

  /** `binary.LittleEndian.Uint32`: four bytes, least significant first. */
  function Uint32(b: seq<byte>): (v: nat)
    requires |b| == 4
    ensures v == LittleEndian(b)
    ensures v < 0x1_0000_0000
  {
    assert b[3..][1..] == [] && b[2..][1..] == b[3..] && b[1..][1..] == b[2..];
    assert LittleEndian(b[3..]) == b[3] as nat;
    assert LittleEndian(b[2..]) == b[2] as nat + 0x100 * b[3] as nat;
    assert LittleEndian(b[1..]) == b[1] as nat + 0x100 * b[2] as nat + 0x1_0000 * b[3] as nat;
    b[0] as nat + 0x100 * b[1] as nat + 0x1_0000 * b[2] as nat + 0x100_0000 * b[3] as nat
  }

  /** A number read from `n` bytes needs no more than `8 * n` bits. */
  lemma {:induction false} LittleEndianBound(bs: seq<byte>)
    ensures LittleEndian(bs) < Pow2(8 * |bs|)
  {
    if bs != [] {
      LittleEndianBound(bs[1..]);
      Pow2Add(8, 8 * (|bs| - 1));
      assert Pow2(8) == 0x100;
    }
  }

  /** Zero bytes appended at the high end do not change the number. */
  lemma {:induction false} LittleEndianZeroPadding(bs: seq<byte>, k: nat)
    ensures LittleEndian(bs + Zeros(k)) == LittleEndian(bs)
  {
    if bs == [] {
      ZerosAreZero(k);
      assert bs + Zeros(k) == Zeros(k);
    } else {
      LittleEndianZeroPadding(bs[1..], k);
      assert (bs + Zeros(k))[1..] == bs[1..] + Zeros(k);
    }
  }

  lemma {:induction false} ZerosAreZero(k: nat)
    ensures LittleEndian(Zeros(k)) == 0
  {
    if k > 0 {
      ZerosAreZero(k - 1);
      assert Zeros(k)[1..] == Zeros(k - 1);
    }
  }
}
