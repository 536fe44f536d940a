/**
  Bytes as the C sources use them: `uint8_t` values, the bitwise `&` of the
  mask macros, and the LSB-first allocation of
  one-bit fields inside a byte that GCC uses for the packed structs of
  caddx.h.
*/
module Bytes {

  /** A `uint8_t` value; every wrap at 256 is written out where the C code wraps. */
  type byte = x: int | 0 <= x < 256

  function Pow2(n: nat): (p: nat)
    ensures p >= 1
  {
    if n == 0 then 1 else 2 * Pow2(n - 1)
  }

  lemma {:induction false} Pow2Grows(k: nat, n: nat)
    requires k < n
    ensures Pow2(k) < Pow2(n)
  {
    if k < n - 1 {
      Pow2Grows(k, n - 1);
    }
  }

  /** The low `n` bits of `x`, least significant first: the order GCC gives to bit-fields. */
  function BitsOf(x: nat, n: nat): (bits: seq<bool>)
    ensures |bits| == n
  {
    if n == 0 then [] else [x % 2 == 1] + BitsOf(x / 2, n - 1)
  }

  /** The number whose bits, least significant first, are `bits`. */
  function FromBits(bits: seq<bool>): nat {
    if bits == [] then 0 else (if bits[0] then 1 else 0) + 2 * FromBits(bits[1..])
  }

  /** Splitting a number below `2^n` into `n` bits and joining them again gives it back. */
  lemma {:induction false} FromBitsOfBits(x: nat, n: nat)
    requires x < Pow2(n)
    ensures FromBits(BitsOf(x, n)) == x
  {
    if n > 0 {
      FromBitsOfBits(x / 2, n - 1);
      assert BitsOf(x, n)[1..] == BitsOf(x / 2, n - 1);
    }
  }

  /** Joining `n` bits and splitting the result again gives the same bits. */
  lemma {:induction false} BitsOfFromBits(bits: seq<bool>)
    ensures FromBits(bits) < Pow2(|bits|)
    ensures BitsOf(FromBits(bits), |bits|) == bits
  {
    if bits != [] {
      BitsOfFromBits(bits[1..]);
      var x := FromBits(bits);
      assert x / 2 == FromBits(bits[1..]);
      assert [bits[0]] + bits[1..] == bits;
    }
  }

  /** A number is zero exactly when all its bits are clear. */
  lemma {:induction false} FromBitsZero(bits: seq<bool>)
    ensures FromBits(bits) == 0 <==> forall k :: 0 <= k < |bits| ==> !bits[k]
  {
    if bits != [] {
      FromBitsZero(bits[1..]);
      assert forall k :: 1 <= k < |bits| ==> bits[k] == bits[1..][k - 1];
    }
  }

  /** `2^k` has exactly bit `k` set. */
  lemma {:induction false} BitsOfPow2(k: nat, n: nat)
    requires k < n
    ensures forall m :: 0 <= m < n ==> BitsOf(Pow2(k), n)[m] == (m == k)
  {
    var bits := BitsOf(Pow2(k), n);
    if k > 0 {
      BitsOfPow2(k - 1, n - 1);
      assert bits[1..] == BitsOf(Pow2(k - 1), n - 1);
    } else {
      BitsOfZero(n - 1);
      assert bits[1..] == BitsOf(0, n - 1);
    }
    forall m | 0 <= m < n
      ensures bits[m] == (m == k)
    {
      if m > 0 {
        assert bits[m] == bits[1..][m - 1];
      }
    }
  }

  /** Zero has no bit set. */
  lemma {:induction false} BitsOfZero(n: nat)
    ensures forall m :: 0 <= m < n ==> !BitsOf(0, n)[m]
  {
    if n > 0 {
      BitsOfZero(n - 1);
      assert forall m :: 1 <= m < n ==> BitsOf(0, n)[m] == BitsOf(0, n - 1)[m - 1];
    }
  }

  /** The eight bits of a byte, least significant first. */
  function Bits(b: byte): (bits: seq<bool>)
    ensures |bits| == 8
  {
    BitsOf(b, 8)
  }

  /** The byte made of eight bits, least significant first. */
  function FromBits8(bits: seq<bool>): (b: byte)
    requires |bits| == 8
    ensures Bits(b) == bits
  {
    BitsOfFromBits(bits);
    assert Pow2(8) == 256;
    FromBits(bits)
  }

  /** Bit `k` (0 = least significant) of a byte. */
  predicate Bit(b: byte, k: nat)
    requires k < 8
  {
    Bits(b)[k]
  }

  /** Two bytes with the same bits are the same byte. */
  lemma BitsDetermineByte(a: byte, b: byte)
    requires forall k :: 0 <= k < 8 ==> Bit(a, k) == Bit(b, k)
    ensures a == b
  {
    assert Pow2(8) == 256;
    forall k | 0 <= k < 8
      ensures Bits(a)[k] == Bits(b)[k]
    {
      assert Bit(a, k) == Bit(b, k);
    }
    assert Bits(a) == Bits(b);
    FromBitsOfBits(a, 8);
    FromBitsOfBits(b, 8);
  }

  /** The C `a & b`, bit by bit. */
  function And(a: byte, b: byte): (r: byte)
    ensures forall k :: 0 <= k < 8 ==> Bit(r, k) == (Bit(a, k) && Bit(b, k))
  {
    FromBits8(seq(8, k requires 0 <= k < 8 => Bit(a, k) && Bit(b, k)))
  }

  /** Testing a bit-field of width one is testing the byte against the mask `1 << k`. */
  lemma BitIsMask(b: byte, k: nat)
    requires k < 8
    ensures Pow2(k) < 256
    ensures Bit(b, k) <==> And(b, Pow2(k)) != 0
  {
    Pow2Grows(k, 8);
    BitsOfPow2(k, 8);
    var r := And(b, Pow2(k));
    FromBitsZero(Bits(r));
    FromBitsOfBits(r, 8);
  }

  /** The byte with bit `k` set to `v` and every other bit kept: assignment to a one-bit field. */
  function SetBit(b: byte, k: nat, v: bool): (r: byte)
    requires k < 8
    ensures Bit(r, k) == v
    ensures forall m :: 0 <= m < 8 && m != k ==> Bit(r, m) == Bit(b, m)
  {
    FromBits8(Bits(b)[k := v])
  }
}
