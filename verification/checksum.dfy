/** The Internet checksum (internal/gtpu/ip.go:25-42; section 2 of RFC 1071). */
module Checksums {
  import opened Words

  /** The sum of the 16-bit words of a message; an odd last octet counts as a high octet. */
  function WordSum(b: seq<byte>): nat {
    if |b| == 0 then 0
    else if |b| == 1 then b[0] as nat * 0x100
    else U16(b[0], b[1]) as nat + WordSum(b[2..])
  }

  /** A sum with its carries folded in: congruent modulo 65535, and 0 only for 0. */
  function Folded(total: nat): uint16 {
    if total == 0 then 0 else (total - 1) % 0xffff + 1
  }

  /** The checksum of a message, computed in a 32-bit accumulator. */
  function Checksum(b: seq<byte>): uint16 {
    0xffff - Folded(WordSum(b) % 0x1_0000_0000)
  }

  lemma {:induction false} WordSumConcat(a: seq<byte>, b: seq<byte>)
    requires |a| % 2 == 0
    ensures WordSum(a + b) == WordSum(a) + WordSum(b)
  {
    if |a| == 0 {
      assert a + b == b;
    } else {
      WordSumConcat(a[2..], b);
      assert (a + b)[2..] == a[2..] + b;
    }
  }

  lemma {:induction false} WordSumBound(b: seq<byte>, words: nat)
    requires |b| <= 2 * words
    ensures WordSum(b) <= 0xffff * words
  {
    if |b| >= 2 { WordSumBound(b[2..], words - 1); }
  }

  /** Exactly when the checksum is that of the true sum, for a message of any length: when as many times
      as a multiple of 65535 a carry has left the accumulator, and the rest tells zero from non-zero. */
  lemma ChecksumIsRight(b: seq<byte>)
    ensures var lost, left := WordSum(b) / 0x1_0000_0000, WordSum(b) % 0x1_0000_0000;
            Checksum(b) == 0xffff - Folded(WordSum(b)) <==> lost == 0 || (left != 0 && lost % 0xffff == 0)
  {
    var t := WordSum(b);
    var lost, left := t / 0x1_0000_0000, t % 0x1_0000_0000;
    hide WordSum;
    assert t == 0x1_0000_0000 * lost + left;
    if lost != 0 && left != 0 {
      assert t - 1 == (left - 1 + lost) + 0xffff * (0x1_0001 * lost);
      CongruentShift(left - 1 + lost, 0x1_0001 * lost);
      ShiftIsSeen(left - 1, lost);
    }
  }

  lemma ShiftIsSeen(a: nat, h: nat)
    ensures (a + h) % 0xffff == a % 0xffff <==> h % 0xffff == 0
  {
    var q, r := h / 0xffff, h % 0xffff;
    assert a + h == (a + r) + 0xffff * q;
    CongruentShift(a + r, q);
    var s := a % 0xffff;
    assert a + r == (s + r) + 0xffff * (a / 0xffff);
    CongruentShift(s + r, a / 0xffff);
  }

  /** For every message whose word sum is below 0xffff times 2^32: exactly when no carry is lost. */
  lemma AccumulatorIsExact(b: seq<byte>)
    requires WordSum(b) < 0xffff * 0x1_0000_0000
    ensures Checksum(b) == 0xffff - Folded(WordSum(b)) <==> WordSum(b) < 0x1_0000_0000
  {
    ChecksumIsRight(b);
  }

  /** Up to 65537 words the accumulator does not overflow, and the checksum is that of the true sum. */
  lemma AccumulatorSuffices(b: seq<byte>)
    requires |b| <= 131074
    ensures WordSum(b) < 0x1_0000_0000
    ensures Checksum(b) == 0xffff - Folded(WordSum(b))
  {
    WordSumBound(b, 65537);
    AccumulatorIsExact(b);
  }

  /** The bound is sharp: with one word more the carries out of the accumulator are lost. */
  lemma AccumulatorOverflows()
    ensures var b := seq(131076, _ => 0xff as byte);
            WordSum(b) >= 0x1_0000_0000 && Checksum(b) != 0xffff - Folded(WordSum(b))
  {
    AllOnes(65538);
    AccumulatorIsExact(seq(131076, _ => 0xff as byte));
  }

  lemma {:induction false} AllOnes(n: nat)
    ensures WordSum(seq(2 * n, _ => 0xff as byte)) == n * 0xffff
  {
    if n > 0 {
      AllOnes(n - 1);
      assert seq(2 * n, _ => 0xff as byte)[2..] == seq(2 * (n - 1), _ => 0xff as byte);
    }
  }

  lemma CongruentShift(a: nat, h: nat)
    ensures (a + 0xffff * h) % 0xffff == a % 0xffff
  {
  }

  /** One folding step loses nothing. */
  lemma FoldStep(sum: nat)
    ensures Folded(sum % 0x1_0000 + sum / 0x1_0000) == Folded(sum)
  {
    var h, l := sum / 0x1_0000, sum % 0x1_0000;
    if sum > 0 {
      assert sum - 1 == (h + l - 1) + 0xffff * h;
      CongruentShift(h + l - 1, h);
    }
  }

  lemma WrappedAddition(x: nat, u: nat)
    ensures (x % 0x1_0000_0000 + u) % 0x1_0000_0000 == (x + u) % 0x1_0000_0000
  {
  }

  lemma ShortSums(hi: byte, lo: byte)
    ensures WordSum([hi]) == hi as nat * 0x100
    ensures WordSum([hi, lo]) == U16(hi, lo)
  {
    assert [hi, lo][2..] == [];
  }

  lemma PrefixSum(b: seq<byte>, i: nat)
    requires i % 2 == 0 && i < |b|
    ensures i + 1 < |b| ==> WordSum(b[..i + 2]) == WordSum(b[..i]) + U16(b[i], b[i + 1])
    ensures i + 1 == |b| ==> WordSum(b) == WordSum(b[..i]) + b[i] as nat * 0x100
  {
    hide WordSum, U16;
    if i + 1 < |b| {
      assert b[..i + 2] == b[..i] + [b[i], b[i + 1]];
      WordSumConcat(b[..i], [b[i], b[i + 1]]);
      ShortSums(b[i], b[i + 1]);
    } else {
      assert b == b[..i] + [b[i]];
      WordSumConcat(b[..i], [b[i]]);
      ShortSums(b[i], 0);
    }
  }

  /** The accumulation loop, in a 32-bit variable. */
  method Accumulate(b: seq<byte>) returns (sum: uint32)
    ensures sum == WordSum(b) % 0x1_0000_0000
  {
    sum := 0;
    assert WordSum(b[..0]) == 0;
    hide WordSum, U16;
    var i := 0;
    while i + 1 < |b|
      invariant 0 <= i <= |b| && i % 2 == 0
      invariant sum == WordSum(b[..i]) % 0x1_0000_0000
    {
      var word: nat := U16(b[i], b[i + 1]);
      PrefixSum(b, i);
      WrappedAddition(WordSum(b[..i]), word);
      sum := (sum as nat + word) % 0x1_0000_0000;
      i := i + 2;
    }
    if |b| % 2 == 1 {
      var last: nat := b[|b| - 1] as nat * 0x100;
      PrefixSum(b, i);
      WrappedAddition(WordSum(b[..i]), last);
      sum := (sum as nat + last) % 0x1_0000_0000;
    } else {
      assert b[..i] == b;
    }
  }

  method OnesComplementSum(b: seq<byte>) returns (r: uint16)
    ensures r == Checksum(b)
  {
    var sum := Accumulate(b);
    while sum / 0x1_0000 != 0
      invariant Folded(sum) == Folded(WordSum(b) % 0x1_0000_0000)
      decreases sum
    {
      FoldStep(sum);
      sum := sum % 0x1_0000 + sum / 0x1_0000;
    }
    r := 0xffff - sum;
  }

  /** The value of the checksum field of a message that is `a` and `c` around a zero field makes the
      finished message sum to all ones, so that its own checksum is zero; a zero field value may be
      replaced by 0xffff without harm. */
  lemma FieldMakesChecksumZero(a: seq<byte>, c: seq<byte>, cs: uint16)
    requires |a| % 2 == 0 && |a| + 2 + |c| <= 131074
    requires cs == Checksum(a + Put16(0) + c) || (cs == 0xffff && Checksum(a + Put16(0) + c) == 0)
    ensures Checksum(a + Put16(cs) + c) == 0
  {
    hide WordSum, Put16, Folded;
    FieldAddsItsValue(a, c, 0);
    FieldAddsItsValue(a, c, cs);
    AccumulatorSuffices(a + Put16(0) + c);
    AccumulatorSuffices(a + Put16(cs) + c);
    ComplementFolds(WordSum(a + Put16(0) + c));
  }

  lemma FieldAddsItsValue(a: seq<byte>, c: seq<byte>, v: uint16)
    requires |a| % 2 == 0
    ensures WordSum(a + Put16(v) + c) == WordSum(a) + v + WordSum(c)
  {
    WordSumConcat(a + Put16(v), c);
    WordSumConcat(a, Put16(v));
    assert WordSum(Put16(v)) == v;
  }

  lemma ComplementFolds(t: nat)
    ensures Folded(t + (0xffff - Folded(t))) == 0xffff
    ensures Folded(t) == 0xffff ==> Folded(t + 0xffff) == 0xffff
  {
    if t > 0 {
      var q, r := (t - 1) / 0xffff, (t - 1) % 0xffff;
      assert t + (0xffff - Folded(t)) - 1 == 0xfffe + 0xffff * q;
      CongruentShift(0xfffe, q);
      if r == 0xfffe {
        assert t + 0xffff - 1 == 0xfffe + 0xffff * (q + 1);
        CongruentShift(0xfffe, q + 1);
      }
    }
  }

  // ---- The sum as RFC 1071 defines it ----------------------------------------------------------

  /** Addition of 16-bit words with end-around carry. */
  function AddCarry(a: uint16, b: uint16): uint16 {
    if a as int + b as int >= 0x1_0000 then a as int + b as int - 0xffff else a as int + b as int
  }

  /** The one's complement sum of a message, padded with a zero octet if its length is odd. */
  function RunningSum(b: seq<byte>): uint16 {
    if b == [] then 0
    else
      var word := 0x100 * (b[0] as int) + if |b| == 1 then 0 else b[1] as int;
      AddCarry(word, if |b| == 1 then 0 else RunningSum(b[2..]))
  }

  lemma AddCarryFolds(a: uint16, t: nat)
    ensures Folded(a + t) == AddCarry(a, Folded(t))
  {
    if t > 0 {
      var q, r := (t - 1) / 0xffff, (t - 1) % 0xffff;
      assert a + t - 1 == (a + r) + 0xffff * q;
      CongruentShift(a + r, q);
    }
  }

  lemma {:induction false} RunningSumFolds(b: seq<byte>)
    ensures RunningSum(b) == Folded(WordSum(b))
  {
    if |b| == 1 {
      AddCarryFolds(b[0] as nat * 0x100, 0);
    } else if |b| > 1 {
      RunningSumFolds(b[2..]);
      AddCarryFolds(U16(b[0], b[1]), WordSum(b[2..]));
    }
  }

  /** The deferred carries and the folding loop compute the complement of that sum, for odd lengths too. */
  lemma ChecksumIsComplement(b: seq<byte>)
    requires |b| <= 131074
    ensures Checksum(b) as int + RunningSum(b) as int == 0xffff
  {
    AccumulatorSuffices(b);
    RunningSumFolds(b);
  }
}
