/** Fixed-width words and octet strings shared by the codecs, and the usual option and result types. */
module Words {

  datatype Option<+T> = None | Some(value: T)

  datatype Result<+T, +E> = Ok(value: T) | Err(error: E)

  type byte = x: int | 0 <= x < 0x100
  type uint16 = x: int | 0 <= x < 0x1_0000
  type uint32 = x: int | 0 <= x < 0x1_0000_0000

  /** Big-endian reading and writing, as encoding/binary does it. */
  function U16(hi: byte, lo: byte): uint16 {
    hi * 0x100 + lo
  }

  function Put16(v: uint16): (b: seq<byte>)
    ensures |b| == 2
  {
    [v / 0x100, v % 0x100]
  }

  function U32(b: seq<byte>): uint32
    requires |b| == 4
  {
    var high: int := U16(b[0], b[1]);
    0x100 * (0x100 * high + b[2]) + b[3]
  }

  function Put32(v: uint32): (b: seq<byte>)
    ensures |b| == 4
  {
    var high := v / 0x100;
    [high / 0x100 / 0x100, high / 0x100 % 0x100, high % 0x100, v % 0x100]
  }

  /** The most significant octet comes first. */
  lemma NetworkByteOrder(v: uint16, w: uint32)
    ensures 0x100 * (Put16(v)[0] as int) + Put16(v)[1] as int == v
    ensures 0x100 * (0x100 * (0x100 * (Put32(w)[0] as int) + Put32(w)[1] as int) + Put32(w)[2] as int) + Put32(w)[3] as int == w
  {
  }

  /** A number in network byte order. */
  function Number(b: seq<byte>): nat {
    if b == [] then 0 else 256 * Number(b[..|b| - 1]) + b[|b| - 1]
  }

  lemma NumberOfTwo(v: uint16)
    ensures Number(Put16(v)) == v
  {
    NetworkByteOrder(v, 0);
    var b := Put16(v);
    assert b[..1][..0] == [] && b[..2] == b;
    assert Number(b[..1]) == b[0];
  }

  lemma NumberOfFour(w: uint32)
    ensures Number(Put32(w)) == w
  {
    NetworkByteOrder(0, w);
    hide Put32;
    var b := Put32(w);
    assert b[..1][..0] == [] && b[..2][..1] == b[..1] && b[..3][..2] == b[..2];
    assert Number(b[..1]) == b[0];
    assert Number(b[..2]) == 256 * b[0] as int + b[1] as int;
    assert Number(b[..3]) == 256 * (256 * b[0] as int + b[1] as int) + b[2] as int;
  }

  lemma Put16OfU16(hi: byte, lo: byte)
    ensures Put16(U16(hi, lo)) == [hi, lo]
  {
  }

  lemma U32OfPut32(v: uint32)
    ensures U32(Put32(v)) == v
  {
  }

  lemma Put32OfU32(b: seq<byte>)
    requires |b| == 4
    ensures Put32(U32(b)) == b
  {
    var high: nat := U16(b[0], b[1]);
    var middle: nat := 0x100 * high + b[2];
    DivisionStep(middle, b[3]);
    DivisionStep(high, b[2]);
    DivisionStep(b[0], b[1]);
    assert U32(b) / 0x100 == middle;
  }

  lemma DivisionStep(q: nat, r: byte)
    ensures (0x100 * q + r) / 0x100 == q && (0x100 * q + r) % 0x100 == r
  {
  }

  /** Go's conversion to uint16 keeps the low sixteen bits. */
  function Low16(v: nat): uint16 {
    v % 0x1_0000
  }

  lemma SubSlice<T>(b: seq<T>, at: nat, n: nat, i: nat, j: nat)
    requires i <= j <= n && at + n <= |b|
    ensures b[at..at + n][i..j] == b[at + i..at + j]
  {
    var l, r := b[at..at + n][i..j], b[at + i..at + j];
    forall k | 0 <= k < j - i ensures l[k] == r[k] {}
  }

  lemma Associative<T>(a: seq<T>, b: seq<T>, c: seq<T>)
    ensures (a + b) + c == a + (b + c)
  {
  }

  lemma Cut<T>(a: seq<T>, m: seq<T>, c: seq<T>)
    ensures (a + m + c)[..|a|] == a && (a + m + c)[|a| + |m|..] == c
    ensures (a + m + c)[|a|..|a| + |m|] == m
  {
  }

  lemma DropSlice<T>(b: seq<T>, at: nat, i: nat, j: nat)
    requires i <= j && at + j <= |b|
    ensures b[at..][i..j] == b[at + i..at + j]
    ensures b[at..][j..] == b[at + j..]
  {
    SubSlice(b, at, |b| - at, i, j);
    SubSlice(b, at, |b| - at, j, |b| - at);
    assert b[at..] == b[at..at + (|b| - at)];
  }

  function Zeros(n: nat): (b: seq<byte>)
    ensures |b| == n && forall i | 0 <= i < n :: b[i] == 0
  {
    seq(n, _ => 0)
  }
}
