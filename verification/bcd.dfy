/** Decimal digits in semi-octets (internal/crypto/suci.go:81-98; section 9.11.3.4 of TS 24.501) and
    the hexadecimal strings they pass through. */
module BCD {
  import opened Words

  // ---- Hexadecimal -----------------------------------------------------------------------------

  function HexValue(c: char): (r: Option<byte>)
    ensures r.Some? ==> r.value < 16
  {
    if '0' <= c <= '9' then Some(c as int - '0' as int)
    else if 'a' <= c <= 'f' then Some(c as int - 'a' as int + 10)
    else if 'A' <= c <= 'F' then Some(c as int - 'A' as int + 10)
    else None
  }

  function HexDigit(v: byte): char
    requires v < 16
  {
    if v < 10 then ('0' as int + v) as char else ('a' as int + v - 10) as char
  }

  /** hex.DecodeString: an odd length or any other character is an error. */
  function HexDecode(s: string): (r: Option<seq<byte>>)
    ensures r.Some? ==> |s| == 2 * |r.value|
  {
    if s == [] then Some([])
    else if |s| == 1 then None
    else
      var hi, lo, rest := HexValue(s[0]), HexValue(s[1]), HexDecode(s[2..]);
      if hi.None? || lo.None? || rest.None? then None
      else Some([16 * hi.value + lo.value] + rest.value)
  }

  function HexEncode(b: seq<byte>): (s: string)
    ensures |s| == 2 * |b|
  {
    if b == [] then [] else [HexDigit(b[0] / 16), HexDigit(b[0] % 16)] + HexEncode(b[1..])
  }

  lemma HexDigitValue(v: byte)
    requires v < 16
    ensures HexValue(HexDigit(v)) == Some(v)
  {
  }

  function PairValue(hi: char, lo: char): byte
    requires HexValue(hi).Some? && HexValue(lo).Some?
  {
    16 * HexValue(hi).value + HexValue(lo).value
  }

  /** The alphabet: sixteen digits, written with small letters and read with either. */
  lemma HexAlphabet(v: byte, c: char)
    requires v < 16
    ensures HexDigit(v) == "0123456789abcdef"[v]
    ensures HexValue(c).Some? ==> c == "0123456789abcdef"[HexValue(c).value] || c == "0123456789ABCDEF"[HexValue(c).value]
    ensures HexValue("0123456789abcdef"[v]) == Some(v) && HexValue("0123456789ABCDEF"[v]) == Some(v)
  {
  }

  /** Two characters in front of a hexadecimal string. */
  lemma HexPair(hi: char, lo: char, rest: string, b: seq<byte>)
    requires HexValue(hi).Some? && HexValue(lo).Some? && HexDecode(rest) == Some(b)
    ensures HexDecode([hi, lo] + rest) == Some([PairValue(hi, lo)] + b)
  {
    assert ([hi, lo] + rest)[2..] == rest;
  }

  lemma {:induction false} HexRoundTrip(b: seq<byte>)
    ensures HexDecode(HexEncode(b)) == Some(b)
  {
    if b != [] {
      HexRoundTrip(b[1..]);
      var hi, lo, rest := b[0] / 16, b[0] % 16, HexEncode(b[1..]);
      HexDigitValue(hi);
      HexDigitValue(lo);
      assert HexEncode(b) == [HexDigit(hi), HexDigit(lo)] + rest;
      assert [16 * hi + lo] + b[1..] == b;
      assert PairValue(HexDigit(hi), HexDigit(lo)) == 16 * hi + lo;
      hide HexEncode, HexDecode, HexDigit, HexValue, PairValue;
      HexPair(HexDigit(hi), HexDigit(lo), rest, b[1..]);
    }
  }

  // ---- Semi-octets -----------------------------------------------------------------------------

  predicate IsDigits(s: string) {
    forall i | 0 <= i < |s| :: '0' <= s[i] <= '9'
  }

  function Padded(s: string): string {
    if |s| % 2 == 1 then s + ['F'] else s
  }

  /** Every two characters exchanged. */
  function Swapped(s: string): (r: string)
    requires |s| % 2 == 0
    ensures |r| == |s|
  {
    if s == [] then [] else [s[1], s[0]] + Swapped(s[2..])
  }

  /** The characters of pair h have changed places. */
  predicate Exchanged(s: string, r: string, h: nat)
    requires |r| == |s| && 2 * h + 1 < |s|
  {
    r[2 * h] == s[2 * h + 1] && r[2 * h + 1] == s[2 * h]
  }

  /** Swapped is the string in which every pair has. */
  lemma {:induction false} ExchangedIsSwapped(s: string, r: string)
    requires |s| % 2 == 0 && |r| == |s|
    requires forall h | 0 <= h < |s| / 2 :: Exchanged(s, r, h)
    ensures r == Swapped(s)
  {
    if s != [] {
      assert Exchanged(s, r, 0);
      forall h | 0 <= h < |s[2..]| / 2 ensures Exchanged(s[2..], r[2..], h) { assert Exchanged(s, r, h + 1); }
      ExchangedIsSwapped(s[2..], r[2..]);
      assert r == [r[0], r[1]] + r[2..];
    }
  }

  function TbcdOf(s: string): string
    requires s != []
  {
    var r := Swapped(Padded(s));
    if r[|r| - 1] == 'F' || r[|r| - 1] == 'f' then r[..|r| - 1] else r
  }

  /** The exchange of characters in place, which the TBCD and routing indicator encoders share. */
  method SwapPairs(a: array<char>)
    requires a.Length % 2 == 0
    modifies a
    ensures a[..] == Swapped(old(a[..]))
  {
    ghost var was := a[..];
    var i := 1;
    while i < a.Length
      invariant 1 <= i <= a.Length + 1 && i % 2 == 1
      invariant forall h | 0 <= h < (i - 1) / 2 :: Exchanged(was, a[..], h)
      invariant forall j | i - 1 <= j < a.Length :: a[j] == was[j]
    {
      ghost var before := a[..];
      a[i - 1], a[i] := a[i], a[i - 1];
      forall h | 0 <= h < (i + 1) / 2 ensures Exchanged(was, a[..], h) {
        assert h < (i - 1) / 2 ==> Exchanged(was, before, h);
      }
      i := i + 2;
    }
    ExchangedIsSwapped(was, a[..]);
  }

  /** Like the code, not for the empty string. */
  method Tbcd(value: string) returns (r: string)
    requires value != []
    ensures r == TbcdOf(value)
  {
    hide Swapped;
    var bytes := value;
    if |bytes| % 2 != 0 {
      bytes := bytes + ['F'];
    }
    assert bytes == Padded(value);
    hide Padded;
    var a := new char[|bytes|](i requires 0 <= i < |bytes| => bytes[i]);
    assert a[..] == bytes;
    SwapPairs(a);
    assert a[..] == Swapped(bytes);
    var i := a.Length - 1;
    assert a[..][..i] == a[..i];
    if a[i] == 'F' || a[i] == 'f' {
      r := a[..i];
    } else {
      r := a[..];
    }
  }

  /** Reading semi-octets: the low one first, a filler of 15 in the last high one is no digit. */
  function ReadDigits(b: seq<byte>): string {
    if b == [] then []
    else [HexDigit(b[0] % 16)] + (if |b| == 1 && b[0] / 16 == 15 then [] else [HexDigit(b[0] / 16)]) + ReadDigits(b[1..])
  }

  function DigitValue(c: char): (v: byte)
    requires '0' <= c <= '9'
    ensures v < 10
  {
    c as int - '0' as int
  }

  /** The second character, or a filler if there is none, and its value; and what follows them. */
  function Second(s: string): char
    requires s != []
  {
    if |s| == 1 then 'F' else s[1]
  }

  function HighNibble(s: string): (v: byte)
    requires s != [] && IsDigits(s)
    ensures v < 16
  {
    if |s| == 1 then 15 else DigitValue(s[1])
  }

  function Rest(s: string): string {
    if |s| <= 1 then [] else s[2..]
  }

  /** The octets of a digit string, written directly. */
  function DigitOctets(s: string): seq<byte>
    requires IsDigits(s)
    decreases |s|
  {
    if s == [] then [] else [16 * HighNibble(s) + DigitValue(s[0])] + DigitOctets(Rest(s))
  }

  lemma DigitFacts(c: char)
    requires '0' <= c <= '9'
    ensures HexValue(c) == Some(DigitValue(c))
    ensures DigitValue(c) < 10 && HexDigit(DigitValue(c)) == c
  {
  }

  lemma SwappedInFront(s: string)
    requires s != []
    ensures Swapped(Padded(s)) == [Second(s), s[0]] + Swapped(Padded(Rest(s)))
  {
    var p := Padded(s);
    assert p[0] == s[0] && p[1] == Second(s) && p[2..] == Padded(Rest(s));
    hide Padded, Second, Rest;
  }

  lemma OctetInFront(s: string)
    requires s != [] && IsDigits(s)
    ensures HexValue(Second(s)).Some? && HexValue(s[0]).Some?
    ensures PairValue(Second(s), s[0]) == 16 * HighNibble(s) + DigitValue(s[0])
  {
    DigitFacts(s[0]);
    assert HexValue(Second(s)) == Some(HighNibble(s));
  }

  lemma {:induction false} PairsDecode(s: string)
    requires IsDigits(s)
    ensures HexDecode(Swapped(Padded(s))) == Some(DigitOctets(s))
    decreases |s|
  {
    if s == [] {
      assert Swapped(Padded(s)) == [];
    } else {
      assert |Rest(s)| < |s| && IsDigits(Rest(s));
      assert DigitOctets(s) == [16 * HighNibble(s) + DigitValue(s[0])] + DigitOctets(Rest(s));
      hide PairValue, HexDecode, DigitOctets, Swapped, Padded, HexValue, DigitValue, Second, HighNibble, Rest;
      SwappedInFront(s);
      OctetInFront(s);
      PairsDecode(Rest(s));
      HexPair(Second(s), s[0], Swapped(Padded(Rest(s))), DigitOctets(Rest(s)));
    }
  }

  /** The characters of one octet with `rest` behind it. */
  function FrontDigits(high: byte, low: byte, rest: seq<byte>): string
    requires high < 16 && low < 16
  {
    if rest == [] && high == 15 then [HexDigit(low)] else [HexDigit(low), HexDigit(high)]
  }

  lemma ReadInFront(high: byte, low: byte, rest: seq<byte>)
    requires high < 16 && low < 16
    ensures ReadDigits([16 * high + low] + rest) == FrontDigits(high, low, rest) + ReadDigits(rest)
  {
    var b := [16 * high + low] + rest;
    assert b[0] % 16 == low && b[0] / 16 == high && b[1..] == rest;
    hide HexDigit;
  }

  lemma DigitsInFront(s: string)
    requires s != [] && IsDigits(s)
    ensures s == FrontDigits(HighNibble(s), DigitValue(s[0]), DigitOctets(Rest(s))) + Rest(s)
  {
    DigitFacts(s[0]);
    if |s| == 1 {
      assert Rest(s) == [] && DigitOctets(Rest(s)) == [] && s == [s[0]];
    } else {
      DigitFacts(s[1]);
      assert HighNibble(s) == DigitValue(s[1]) && s == [s[0], s[1]] + Rest(s);
    }
  }

  lemma {:induction false} DigitsReadBack(s: string)
    requires IsDigits(s)
    ensures ReadDigits(DigitOctets(s)) == s
    decreases |s|
  {
    if s != [] {
      assert |Rest(s)| < |s| && IsDigits(Rest(s));
      var high, low, rest := HighNibble(s), DigitValue(s[0]), Rest(s);
      assert DigitOctets(s) == [16 * high + low] + DigitOctets(rest);
      hide DigitValue, HexDigit, HexValue, DigitOctets, HighNibble, Rest, ReadDigits, IsDigits, FrontDigits;
      DigitsReadBack(rest);
      DigitsInFront(s);
      ReadInFront(high, low, DigitOctets(rest));
    }
  }

  /** Every non-empty digit string, of either parity, survives TBCD encoding and hexadecimal decoding. */
  lemma TbcdRoundTrip(s: string)
    requires s != [] && IsDigits(s)
    ensures HexDecode(TbcdOf(s)) == Some(DigitOctets(s))
    ensures ReadDigits(DigitOctets(s)) == s
  {
    hide HexDecode, DigitOctets, ReadDigits, Swapped, Padded;
    PairsDecode(s);
    DigitsReadBack(s);
    LastIsDigit(s);
  }

  /** A filler is exchanged with the digit in front of it. */
  lemma {:induction false} LastIsDigit(s: string)
    requires s != [] && IsDigits(s)
    ensures var r := Swapped(Padded(s)); |r| > 0 && '0' <= r[|r| - 1] <= '9'
    decreases |s|
  {
    SwappedInFront(s);
    if |s| > 2 {
      LastIsDigit(Rest(s));
    } else {
      assert Padded(Rest(s)) == [] && Swapped(Padded(Rest(s))) == [];
    }
  }
}
