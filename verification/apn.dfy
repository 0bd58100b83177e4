/** Access point names (internal/naseps/esm.go:63-76; section 9.1 of TS 23.003). */
module AccessPointNames {
  import opened Words
  import opened Splitting

  const DOT: byte := 0x2e

  /** Each label behind its length, of which one octet is kept. */
  function LabelOctets(l: seq<byte>): seq<byte> {
    [|l| % 0x100] + l
  }

  function Encoded(labels: seq<seq<byte>>): seq<byte> {
    if labels == [] then [] else Encoded(labels[..|labels| - 1]) + LabelOctets(labels[|labels| - 1])
  }

  method EncodeAPN(apn: seq<byte>) returns (out: seq<byte>)
    ensures out == APNOctets(apn)
  {
    if |apn| == 0 { return []; }
    out := [];
    var labels := Split(apn, DOT);
    for i := 0 to |labels|
      invariant out == Encoded(labels[..i])
    {
      assert labels[..i + 1][..i] == labels[..i];
      ghost var before := out;
      out := out + [|labels[i]| % 0x100];
      out := out + labels[i];
      assert out == before + LabelOctets(labels[i]);
    }
    assert labels[..|labels|] == labels;
  }

  /** Reading labels by their lengths; None when a length runs past the end. */
  function Labels(b: seq<byte>): Option<seq<seq<byte>>> {
    if b == [] then Some([])
    else if 1 + b[0] as nat > |b| then None
    else
      match Labels(b[1 + b[0] as nat..])
      case None => None
      case Some(rest) => Some([b[1..1 + b[0] as nat]] + rest)
  }

  lemma LastLabel(labels: seq<seq<byte>>)
    requires labels != []
    ensures Encoded(labels) == Encoded(labels[..|labels| - 1]) + LabelOctets(labels[|labels| - 1])
  {
    hide LabelOctets;
  }

  lemma {:induction false} EncodedFromTheFront(labels: seq<seq<byte>>)
    requires labels != []
    ensures Encoded(labels) == LabelOctets(labels[0]) + Encoded(labels[1..])
  {
    var n, rest := |labels| - 1, labels[1..];
    LastLabel(labels);
    if n > 0 {
      LastLabel(rest);
      hide Encoded, LabelOctets;
      EncodedFromTheFront(labels[..n]);
      assert labels[..n][1..] == rest[..n - 1] && rest[n - 1] == labels[n];
      Associative(LabelOctets(labels[0]), Encoded(rest[..n - 1]), LabelOctets(labels[n]));
    } else {
      assert labels[..0] == [] && rest == [];
      hide LabelOctets;
    }
  }

  lemma FirstLabel(first: seq<byte>, e: seq<byte>)
    ensures var read := Labels(LabelOctets(first) + e);
            if |first| <= 255 then
              read == match Labels(e) case None => None case Some(rest) => Some([first] + rest)
            else read.None? || (read.value != [] && read.value[0] != first)
  {
    var b := LabelOctets(first) + e;
    var n := 1 + |first| % 0x100;
    assert |b| >= n && |b[1..n]| == |first| % 0x100;
    if |first| <= 255 { assert b[1..n] == first && b[n..] == e; }
  }

  /** The length-driven reading of an encoded list of labels gives the labels back exactly when no
      label has more than 255 octets. */
  lemma {:induction false} LabelsRoundTrip(labels: seq<seq<byte>>)
    ensures Labels(Encoded(labels)) == Some(labels) <==> forall l | l in labels :: |l| <= 255
  {
    if labels != [] {
      hide Labels, Encoded, LabelOctets;
      var first, rest := labels[0], labels[1..];
      EncodedFromTheFront(labels);
      FirstLabel(first, Encoded(rest));
      LabelsRoundTrip(rest);
      assert labels == [first] + rest;
      var read := Labels(Encoded(rest));
      if read.Some? { assert [first] + read.value == labels <==> read.value == rest by {
        assert ([first] + read.value)[1..] == read.value;
      } }
    }
  }

  /** The octets of an APN. */
  function APNOctets(apn: seq<byte>): seq<byte> {
    if apn == [] then [] else Encoded(Split(apn, DOT))
  }

  /** Every non-empty APN is recovered from its octets, by reading labels by their lengths and joining them
      with dots, exactly when the labels, which are what stands between the dots, fit their lengths. */
  lemma APNRoundTrip(apn: seq<byte>)
    requires apn != []
    ensures var labels := Split(apn, 0x2e);
            && (Labels(APNOctets(apn)) == Some(labels) <==> forall l | l in labels :: |l| <= 255)
            && Join(labels, 0x2e) == apn
            && forall l | l in labels :: 0x2e !in l
  {
    LabelsRoundTrip(Split(apn, DOT));
    JoinInvertsSplit(apn, DOT);
    PartsAreFree(apn, DOT);
  }
}
