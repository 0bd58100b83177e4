/** Splitting at a separator, as strings.Split does, and joining again. */
module Splitting {

  /** At least one part, none with the separator. */
  function Split<T(==)>(s: seq<T>, at: T): (parts: seq<seq<T>>)
    ensures parts != []
  {
    if s == [] then [[]]
    else
      var rest := Split(s[1..], at);
      if s[0] == at then [[]] + rest else [[s[0]] + rest[0]] + rest[1..]
  }

  function Join<T>(parts: seq<seq<T>>, at: T): seq<T>
    requires parts != []
  {
    if |parts| == 1 then parts[0] else parts[0] + [at] + Join(parts[1..], at)
  }

  lemma {:induction false} JoinInvertsSplit<T>(s: seq<T>, at: T)
    ensures Join(Split(s, at), at) == s
  {
    if s != [] {
      JoinInvertsSplit(s[1..], at);
      var rest := Split(s[1..], at);
      if s[0] == at {
        assert ([[]] + rest)[1..] == rest;
      } else {
        var first := [s[0]] + rest[0];
        assert ([first] + rest[1..])[1..] == rest[1..];
      }
      assert s == [s[0]] + s[1..];
    }
  }

  lemma {:induction false} PartsAreFree<T>(s: seq<T>, at: T)
    ensures forall x | x in Split(s, at) :: at !in x
  {
    if s != [] {
      PartsAreFree(s[1..], at);
      var rest := Split(s[1..], at);
      assert rest[0] in rest;
    }
  }

  lemma {:induction false} PartIsSplitOff<T>(part: seq<T>, at: T, rest: seq<T>)
    ensures |Split(part + [at] + rest, at)| == |Split(part, at)| + |Split(rest, at)|
    ensures at !in part ==> Split(part, at) == [part] && Split(part + [at] + rest, at) == [part] + Split(rest, at)
    ensures at in part ==> |Split(part, at)| > 1
  {
    var s := part + [at] + rest;
    if part == [] {
      assert s[1..] == rest;
    } else {
      assert s[0] == part[0] && s[1..] == part[1..] + [at] + rest;
      assert part == [part[0]] + part[1..];
      PartIsSplitOff(part[1..], at, rest);
    }
  }

  /** Exactly when the joined parts can be told apart: when none has the separator. Otherwise splitting
      yields more parts than were joined. */
  lemma {:induction false} SplitInvertsJoin<T>(parts: seq<seq<T>>, at: T)
    requires parts != []
    ensures (forall x | x in parts :: at !in x) ==> Split(Join(parts, at), at) == parts
    ensures (exists x | x in parts :: at in x) ==> |Split(Join(parts, at), at)| > |parts|
  {
    var first, rest := parts[0], parts[1..];
    assert parts == [first] + rest;
    if rest == [] {
      PartIsSplitOff(first, at, []);
    } else {
      SplitInvertsJoin(rest, at);
      PartIsSplitOff(first, at, Join(rest, at));
      if forall x | x in rest :: at !in x {
      } else {
        assert |Split(Join(rest, at), at)| > |rest|;
      }
    }
  }
}
