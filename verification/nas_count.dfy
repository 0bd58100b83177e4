/** The NAS COUNT (internal/store/gnb_ue_context.go:214-229, internal/store/enb_ue_context.go:88-103):
    a 32-bit counter of which only the low octet is sent. */
module NasCount {
  import opened Words

  /** The next COUNT the receiver assumes for sequence number `sn`; the code masks with 0xffffff00
      and lets the 32-bit sum wrap. */
  function Estimate(stored: uint32, sn: byte): uint32 {
    var overflow := stored - stored % 256;
    if stored % 256 > sn then (overflow + 0x100 + sn) % 0x1_0000_0000 else overflow + sn
  }

  /** Short of the wrap the estimate is the least COUNT that is not below the stored one and has the
      received low octet. */
  lemma EstimateIsLeast(stored: uint32, sn: byte, c: uint32)
    requires stored <= 0xffff_ff00
    ensures Estimate(stored, sn) >= stored && Estimate(stored, sn) % 256 == sn
    ensures c >= stored && c % 256 == sn ==> Estimate(stored, sn) <= c
  {
  }

  /** The receiver finds the sender's COUNT exactly when it lies in the window of 256 values that
      starts at the stored one, taken modulo 2^32. */
  lemma EstimateIsRight(stored: uint32, sent: uint32)
    ensures Estimate(stored, sent % 256) == sent <==> (sent - stored) % 0x1_0000_0000 < 256
  {
    var a, b, c, d := stored / 256, stored % 256, sent / 256, sent % 256;
    assert stored == 256 * a + b && sent == 256 * c + d;
    var diff := sent - stored;
    assert diff % 0x1_0000_0000 == if diff < 0 then diff + 0x1_0000_0000 else diff;
    if b <= d {
      assert Estimate(stored, d) == 256 * a + d;
    } else if a == 0xff_ffff {
      assert Estimate(stored, d) == d;
    } else {
      assert Estimate(stored, d) == 256 * (a + 1) + d;
    }
  }

  /** Along a run of non-decreasing COUNTs with steps below 256 the receiver never loses the sender. */
  ghost predicate Steady(stored: uint32, sent: seq<uint32>)
    decreases |sent|
  {
    sent == [] || (stored <= sent[0] < stored + 256 && Steady(sent[0], sent[1..]))
  }

  ghost function Estimates(stored: uint32, octets: seq<byte>): seq<uint32>
    decreases |octets|
  {
    if octets == [] then [] else [Estimate(stored, octets[0])] + Estimates(Estimate(stored, octets[0]), octets[1..])
  }

  ghost function LowOctets(sent: seq<uint32>): seq<byte> {
    seq(|sent|, i requires 0 <= i < |sent| => sent[i] % 256)
  }

  lemma {:induction false} EstimatesFollow(stored: uint32, sent: seq<uint32>)
    requires Steady(stored, sent)
    ensures Estimates(stored, LowOctets(sent)) == sent
    decreases |sent|
  {
    if sent != [] {
      EstimateIsRight(stored, sent[0]);
      EstimatesFollow(sent[0], sent[1..]);
      assert LowOctets(sent)[1..] == LowOctets(sent[1..]);
    }
  }
}
