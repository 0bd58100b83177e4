/** Lists of elements, each written to octets and measured from its front, in any format. */
module ElementLists {
  import opened Words

  /** The octets of a list, for a function that writes one element. */
  function AllOctets<E>(octets: E --> seq<byte>, xs: seq<E>): seq<byte>
    requires forall x | x in xs :: octets.requires(x)
  {
    if xs == [] then [] else octets(xs[0]) + AllOctets(octets, xs[1..])
  }

  /** A string is a list of elements and a tail of which no element can be read. */
  ghost predicate Splits<E>(octets: E --> seq<byte>, length: seq<byte> -> Option<nat>, b: seq<byte>, xs: seq<E>, tail: seq<byte>) {
    && (forall x | x in xs :: octets.requires(x))
    && b == AllOctets(octets, xs) + tail
    && length(tail) == None
  }

  /** An element of the measured length stands in front of the string. */
  ghost predicate StartsWithElement<E(!new)>(octets: E --> seq<byte>, length: seq<byte> -> Option<nat>, b: seq<byte>) {
    length(b).Some? ==>
      && 0 < length(b).value <= |b|
      && exists x :: octets.requires(x) && octets(x) == b[..length(b).value]
  }

  lemma SplitsInFront<E>(octets: E --> seq<byte>, length: seq<byte> -> Option<nat>, b: seq<byte>, n: nat, x: E, rest: seq<E>,
                         tail: seq<byte>)
    requires n <= |b| && octets.requires(x) && octets(x) == b[..n] && Splits(octets, length, b[n..], rest, tail)
    ensures Splits(octets, length, b, [x] + rest, tail)
  {
    var xs := [x] + rest;
    assert xs[1..] == rest;
    assert b == b[..n] + b[n..];
    Associative(octets(x), AllOctets(octets, rest), tail);
  }

  /** Every string splits, in any format whose measured elements can be written. */
  lemma {:induction false} EveryStringSplits<E(!new)>(octets: E --> seq<byte>, length: seq<byte> -> Option<nat>, b: seq<byte>)
    returns (xs: seq<E>, tail: seq<byte>)
    requires forall s :: StartsWithElement(octets, length, s)
    ensures Splits(octets, length, b, xs, tail)
    decreases |b|
  {
    assert StartsWithElement(octets, length, b);
    if length(b).None? {
      assert AllOctets<E>(octets, []) + b == b;
      return [], b;
    }
    var n := length(b).value;
    var x :| octets.requires(x) && octets(x) == b[..n];
    var rest;
    rest, tail := EveryStringSplits(octets, length, b[n..]);
    SplitsInFront(octets, length, b, n, x, rest, tail);
    xs := [x] + rest;
  }
}
