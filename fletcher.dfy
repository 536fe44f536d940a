/**
  The Fletcher-255 checksum `fletcher_cksum` (util.c, with a verbatim copy in caddx.c).

  Two 8-bit accumulators run over the bytes: `sum1` adds each byte and
  `sum2` adds each new `sum1`, both modulo 255.  The C code does the modulus
  by hand on `uint8_t` variables; `WrapAdd` is that update step exactly, and
  `Checksum` is the closed form the loop computes.
*/
module Fletcher {

  import opened Bytes

  /** The accumulator pair of the C loop. */
  datatype Sums = Sums(sum1: byte, sum2: byte)

  /**
    One hand-coded update on a `uint8_t` accumulator: `if (255 - s < x) s++;
    s += x; if (s == 255) s = 0;`.  The comparison is done on `int` after
    promotion; the increment and the addition wrap at 256.
  */
  function WrapAdd(s: byte, x: byte): byte {
    var t := if 255 - s < x then (s + 1) % 256 else s;
    var u := (t + x) % 256;
    if u == 255 then 0 else u
  }

  /** One iteration of the loop body: update `sum1` with the byte, then `sum2` with the new `sum1`. */
  function Step(acc: Sums, x: byte): Sums {
    var s1 := WrapAdd(acc.sum1, x);
    Sums(s1, WrapAdd(acc.sum2, s1))
  }

  /** The accumulators after the loop has consumed `data`, starting from `sum1 = sum2 = 0`. */
  function Run(data: seq<byte>): Sums {
    if data == [] then Sums(0, 0) else Step(Run(data[..|data| - 1]), data[|data| - 1])
  }

  /** Plain sum of the bytes. */
  function Sum(data: seq<byte>): nat {
    if data == [] then 0 else Sum(data[..|data| - 1]) + data[|data| - 1]
  }

  /** Sum of the sums of every non-empty prefix: what `sum2` accumulates before the modulus. */
  function PrefixSumTotal(data: seq<byte>): nat {
    if data == [] then 0 else PrefixSumTotal(data[..|data| - 1]) + Sum(data)
  }

  /** Closed form of `sum1`: the high byte of the checksum. */
  function High(data: seq<byte>): nat { Sum(data) % 255 }

  /** Closed form of `sum2`: the low byte of the checksum. */
  function Low(data: seq<byte>): nat { PrefixSumTotal(data) % 255 }

  /** The 16-bit value `(sum1 << 8) | sum2`, stated over the closed forms. */
  function Checksum(data: seq<byte>): nat { High(data) * 256 + Low(data) }

  /** The wraparound idiom is addition modulo 255 whenever the accumulator is already below 255. */
  lemma WrapAddIsMod255(s: byte, x: byte)
    requires s < 255
    ensures WrapAdd(s, x) == (s + x) % 255
  {
  }

  /** Each loop step keeps `sum1 = (sum1 + b) % 255` and then `sum2 = (sum2 + sum1') % 255`. */
  lemma StepIsMod255(acc: Sums, x: byte)
    requires acc.sum1 < 255 && acc.sum2 < 255
    ensures Step(acc, x).sum1 == (acc.sum1 + x) % 255
    ensures Step(acc, x).sum2 == (acc.sum2 + Step(acc, x).sum1) % 255
    ensures Step(acc, x).sum1 < 255 && Step(acc, x).sum2 < 255
  {
    WrapAddIsMod255(acc.sum1, x);
    WrapAddIsMod255(acc.sum2, Step(acc, x).sum1);
  }

  /** Reducing a summand modulo 255 first does not change the sum modulo 255. */
  lemma ModAdd(a: int, b: int)
    ensures (a % 255 + b) % 255 == (a + b) % 255
    ensures (b + a % 255) % 255 == (b + a) % 255
  {
  }

  /** The byte-by-byte loop computes the closed forms `High` and `Low`. */
  lemma {:induction false} RunIsClosedForm(data: seq<byte>)
    ensures Run(data).sum1 == High(data)
    ensures Run(data).sum2 == Low(data)
  {
    if data != [] {
      var init, x := data[..|data| - 1], data[|data| - 1];
      RunIsClosedForm(init);
      StepIsMod255(Run(init), x);
      ModAdd(Sum(init), x);
      ModAdd(PrefixSumTotal(init), Sum(data) % 255);
      ModAdd(Sum(data), PrefixSumTotal(init));
    }
  }

  /** Both halves stay in 0..254, so neither checksum byte is ever 0xff. */
  lemma ChecksumBytes(data: seq<byte>)
    ensures Checksum(data) < 0xff00
    ensures Checksum(data) / 256 == High(data) < 255
    ensures Checksum(data) % 256 == Low(data) < 255
  {
  }

  /** The empty input gives checksum 0. */
  lemma EmptyChecksum()
    ensures Checksum([]) == 0
  {
  }

  /** Removing one byte from anywhere lowers the sum by that byte. */
  lemma {:induction false} SumRemove(data: seq<byte>, i: nat)
    requires i < |data|
    ensures Sum(data) == data[i] + Sum(data[..i] + data[i + 1..])
  {
    var init := data[..|data| - 1];
    if i == |data| - 1 {
      assert data[..i] + data[i + 1..] == init;
    } else {
      SumRemove(init, i);
      var rest := data[..i] + data[i + 1..];
      assert rest[..|rest| - 1] == init[..i] + init[i + 1..];
      assert rest[|rest| - 1] == data[|data| - 1];
    }
  }

  /** The plain sum depends only on the multiset of bytes. */
  lemma {:induction false} SumPermutation(a: seq<byte>, b: seq<byte>)
    requires multiset(a) == multiset(b)
    ensures Sum(a) == Sum(b)
  {
    if a == [] {
      assert |b| == |multiset(b)| == 0;
    } else {
      var init, x := a[..|a| - 1], a[|a| - 1];
      assert multiset(a) == multiset(init) + multiset{x} by {
        assert a == init + [x];
      }
      assert x in multiset(b);
      var j :| 0 <= j < |b| && b[j] == x;
      var rest := b[..j] + b[j + 1..];
      var left, right := multiset(b[..j]), multiset(b[j + 1..]);
      assert multiset(b) == left + multiset{x} + right by {
        assert b == b[..j] + [b[j]] + b[j + 1..];
      }
      assert multiset(rest) == left + right;
      assert multiset(init) == multiset(rest) by {
        forall y ensures multiset(init)[y] == multiset(rest)[y] {
          assert (multiset(init) + multiset{x})[y] == (multiset(rest) + multiset{x})[y];
        }
      }
      SumPermutation(init, rest);
      SumRemove(b, j);
    }
  }

  /** The high byte is the byte sum modulo 255, so it does not depend on byte order. */
  lemma HighIgnoresOrder(a: seq<byte>, b: seq<byte>)
    requires multiset(a) == multiset(b)
    ensures High(a) == High(b)
    ensures Checksum(a) / 256 == Checksum(b) / 256
  {
    SumPermutation(a, b);
  }

  /** The low byte depends on byte order: the same two bytes in either order give different checksums. */
  lemma LowDependsOnOrder()
    ensures Checksum([1, 2]) == 0x0304
    ensures Checksum([2, 1]) == 0x0305
  {
    assert [1, 2][..1] == [1 as byte];
    assert [2, 1][..1] == [2 as byte];
    assert Sum([1]) == 1 && Sum([2]) == 2;
    assert Sum([1, 2]) == 3 && Sum([2, 1]) == 3;
    assert PrefixSumTotal([1, 2]) == 4 && PrefixSumTotal([2, 1]) == 5;
  }

  /**
    `fletcher_cksum`: the accumulator loop on `uint8_t` variables, returning
    `(sum1 << 8) | sum2`.  util.c and caddx.c carry the same body, so this one
    method models both copies and the contract states what each returns.
  */
  method FletcherCksum(data: seq<byte>) returns (r: nat)
    ensures r == Checksum(data)
  {
    var sum1: byte, sum2: byte := 0, 0;
    for i := 0 to |data|
      invariant Sums(sum1, sum2) == Run(data[..i])
    {
      assert data[..i + 1][..i] == data[..i];
      var x: byte := data[i];
      if 255 - sum1 < x {
        sum1 := (sum1 + 1) % 256;
      }
      sum1 := (sum1 + x) % 256;
      if sum1 == 255 {
        sum1 := 0;
      }
      if 255 - sum2 < sum1 {
        sum2 := (sum2 + 1) % 256;
      }
      sum2 := (sum2 + sum1) % 256;
      if sum2 == 255 {
        sum2 := 0;
      }
    }
    assert data[..|data|] == data;
    RunIsClosedForm(data);
    r := Combine(sum1, sum2);
  }

  /** `(sum1 << 8) | sum2` as a 16-bit value: the two bytes occupy disjoint bits, so the `|` is a sum. */
  function Combine(hi: byte, lo: byte): (r: nat)
    ensures r < 0x10000 && r / 256 == hi && r % 256 == lo
  {
    hi * 256 + lo
  }
}
