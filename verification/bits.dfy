/** Exclusive or of octets and octet strings, for key streams and inverted octets. */
module Bits {
  import opened Words

  function Pow2(n: nat): nat {
    if n == 0 then 1 else 2 * Pow2(n - 1)
  }

  /** Exclusive or, bit by bit from the lowest. */
  function XorBits(a: nat, b: nat, n: nat): (r: nat)
    requires a < Pow2(n) && b < Pow2(n)
    ensures r < Pow2(n)
  {
    if n == 0 then 0
    else 2 * XorBits(a / 2, b / 2, n - 1) + if a % 2 == b % 2 then 0 else 1
  }

  function Xor(a: byte, b: byte): byte {
    assert Pow2(8) == 256;
    XorBits(a, b, 8)
  }

  lemma {:induction false} XorBitsInvolution(a: nat, b: nat, n: nat)
    requires a < Pow2(n) && b < Pow2(n)
    ensures XorBits(XorBits(a, b, n), b, n) == a
    ensures n > 0 && b % 2 == 1 ==> XorBits(a, b, n) != a
  {
    if n > 0 {
      XorBitsInvolution(a / 2, b / 2, n - 1);
      var r := XorBits(a, b, n);
      assert r / 2 == XorBits(a / 2, b / 2, n - 1);
    }
  }

  lemma XorFacts(a: byte, b: byte)
    ensures Xor(Xor(a, b), b) == a
    ensures Xor(a, 0xff) != a
  {
    assert Pow2(8) == 256;
    XorBitsInvolution(a, b, 8);
    XorBitsInvolution(a, 0xff, 8);
  }

  /** Bit i of a number, counted from the lowest. */
  function Bit(a: nat, i: nat): nat {
    if i == 0 then a % 2 else Bit(a / 2, i - 1)
  }

  lemma {:induction false} XorBitsByBits(a: nat, b: nat, n: nat, i: nat)
    requires a < Pow2(n) && b < Pow2(n) && i < n
    ensures Bit(XorBits(a, b, n), i) == 1 <==> Bit(a, i) != Bit(b, i)
  {
    var r := XorBits(a, b, n);
    assert r / 2 == XorBits(a / 2, b / 2, n - 1);
    if i > 0 { XorBitsByBits(a / 2, b / 2, n - 1, i - 1); }
  }

  lemma {:induction false} XorWithOnes(a: nat, n: nat)
    requires a < Pow2(n)
    ensures XorBits(a, Pow2(n) - 1, n) == Pow2(n) - 1 - a
  {
    if n > 0 { XorWithOnes(a / 2, n - 1); }
  }

  /** Bit i of the exclusive or is set exactly when the bits differ; all ones invert an octet. */
  lemma XorByBits(a: byte, b: byte, i: nat)
    requires i < 8
    ensures Bit(Xor(a, b), i) == 1 <==> Bit(a, i) != Bit(b, i)
    ensures Xor(a, 0xff) == 255 - a
  {
    assert Pow2(8) == 256;
    XorBitsByBits(a, b, 8, i);
    XorWithOnes(a, 8);
  }

  function XorAll(a: seq<byte>, k: seq<byte>): (r: seq<byte>)
    requires |a| == |k|
    ensures |r| == |a|
  {
    seq(|a|, i requires 0 <= i < |a| => Xor(a[i], k[i]))
  }

  lemma XorAllInvolution(a: seq<byte>, k: seq<byte>)
    requires |a| == |k|
    ensures XorAll(XorAll(a, k), k) == a
  {
    forall i | 0 <= i < |a| ensures XorAll(XorAll(a, k), k)[i] == a[i] {
      XorFacts(a[i], k[i]);
    }
  }

  lemma XorAllByBits(a: seq<byte>, k: seq<byte>)
    requires |a| == |k|
    ensures forall i, j: nat | 0 <= i < |a| && j < 8 :: Bit(XorAll(a, k)[i], j) == 1 <==> Bit(a[i], j) != Bit(k[i], j)
  {
    hide Xor, Bit;
    forall i, j: nat | 0 <= i < |a| && j < 8 ensures Bit(XorAll(a, k)[i], j) == 1 <==> Bit(a[i], j) != Bit(k[i], j) {
      XorByBits(a[i], k[i], j);
    }
  }
}
