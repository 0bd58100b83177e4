/** Filling octet buffers in place, as encoding/binary and copy do. */
module Buffers {
  import opened Words

  method PutUint16(out: array<byte>, at: nat, v: uint16)
    requires at + 2 <= out.Length
    modifies out
    ensures out[at] == Put16(v)[0] && out[at + 1] == Put16(v)[1]
    ensures forall i | 0 <= i < out.Length && !(at <= i < at + 2) :: out[i] == old(out[i])
  {
    out[at], out[at + 1] := v / 0x100, v % 0x100;
  }

  method PutUint32(out: array<byte>, at: nat, v: uint32)
    requires at + 4 <= out.Length
    modifies out
    ensures out[at] == Put32(v)[0] && out[at + 1] == Put32(v)[1]
    ensures out[at + 2] == Put32(v)[2] && out[at + 3] == Put32(v)[3]
    ensures forall i | 0 <= i < out.Length && !(at <= i < at + 4) :: out[i] == old(out[i])
  {
    var b := Put32(v);
    out[at], out[at + 1], out[at + 2], out[at + 3] := b[0], b[1], b[2], b[3];
  }

  method Copy(out: array<byte>, at: nat, b: seq<byte>)
    requires at + |b| <= out.Length
    modifies out
    ensures out[at..at + |b|] == b
    ensures forall i | 0 <= i < out.Length && !(at <= i < at + |b|) :: out[i] == old(out[i])
  {
    for i := 0 to |b|
      invariant forall j | 0 <= j < i :: out[at + j] == b[j]
      invariant forall j | 0 <= j < out.Length && !(at <= j < at + i) :: out[j] == old(out[j])
    {
      out[at + i] := b[i];
    }
  }
}
