/** The root key, the NAS keys and algorithms, and the activity of a security context over whole runs:
    what the 4G context (internal/api/enb_security.go:62-134) and the 5G context
    (internal/api/gnb_security.go:52-118) have in common. */
module KeyRuns {
  import opened Words
  import opened NasSecurity

  datatype KeyState = KeyState(root: seq<byte>, keys: Keys, active: bool)

  type Derivation = (seq<byte>, byte, byte) -> Option<(seq<byte>, seq<byte>)>

  /** An authentication replaces the root key, a command names algorithms, and nothing else matters. */
  datatype KeyEvent = NewRoot(root: seq<byte>) | Command(ciphering: byte, integrity: byte) | Other

  ghost function KeyStep(derive: Derivation, s: KeyState, e: KeyEvent): KeyState {
    match e
    case NewRoot(root) => s.(root := root)
    case Other => s
    case Command(c, i) =>
      match derive(s.root, c, i)
      case None => s.(keys := s.keys.(cipheringAlg := c, integrityAlg := i))
      case Some((enc, intg)) => KeyState(s.root, Keys(c, i, enc, intg), true)
  }

  ghost function KeysAfter(derive: Derivation, s: KeyState, es: seq<KeyEvent>): KeyState {
    if es == [] then s else KeyStep(derive, KeysAfter(derive, s, es[..|es| - 1]), es[|es| - 1])
  }

  /** What is derived for event j of a run, if it is a command: from the root key in force there. */
  ghost function DerivedAt(derive: Derivation, s: KeyState, es: seq<KeyEvent>, j: nat): Option<(seq<byte>, seq<byte>)>
    requires j < |es|
  {
    if es[j].Command? then derive(KeysAfter(derive, s, es[..j]).root, es[j].ciphering, es[j].integrity) else None
  }

  ghost predicate DerivesAt(derive: Derivation, s: KeyState, es: seq<KeyEvent>, j: nat, keys: Keys) {
    && j < |es| && DerivedAt(derive, s, es, j) == Some((keys.knasEnc, keys.knasInt))
    && es[j].ciphering == keys.cipheringAlg && es[j].integrity == keys.integrityAlg
  }

  /** Both algorithms and both keys come from one command of the run and from the root key in force when
      that command was processed. */
  ghost predicate Coherent(derive: Derivation, s: KeyState, es: seq<KeyEvent>, keys: Keys) {
    exists j: nat :: DerivesAt(derive, s, es, j, keys)
  }

  /** The index of the last command of the run, followed or not, and of the last that could be followed. */
  ghost function LastCommand(es: seq<KeyEvent>): (r: Option<nat>)
    ensures r.Some? ==> r.value < |es| && es[r.value].Command?
  {
    if es == [] then None
    else if es[|es| - 1].Command? then Some(|es| - 1)
    else LastCommand(es[..|es| - 1])
  }

  ghost function LastFollowed(derive: Derivation, s: KeyState, es: seq<KeyEvent>): (r: Option<nat>)
    ensures r.Some? ==> r.value < |es| && es[r.value].Command?
  {
    if es == [] then None
    else if DerivedAt(derive, s, es, |es| - 1).Some? then Some(|es| - 1)
    else LastFollowed(derive, s, es[..|es| - 1])
  }

  lemma DerivedInPrefix(derive: Derivation, s: KeyState, es: seq<KeyEvent>, n: nat, j: nat)
    requires j < n <= |es|
    ensures DerivedAt(derive, s, es[..n], j) == DerivedAt(derive, s, es, j) && es[..n][j] == es[j]
  {
    assert es[..n][..j] == es[..j];
  }

  /** Where an active context comes from, in every run: the algorithms from the last command, the keys
      from the last one that could be followed. */
  lemma {:induction false} OriginOfContext(derive: Derivation, s: KeyState, es: seq<KeyEvent>)
    requires !s.active
    ensures var s' := KeysAfter(derive, s, es); var l := LastFollowed(derive, s, es); var c := LastCommand(es);
            && (s'.active <==> l.Some?)
            && (l.Some? ==>
                  && c.Some? && l.value <= c.value
                  && s'.keys.cipheringAlg == es[c.value].ciphering && s'.keys.integrityAlg == es[c.value].integrity
                  && DerivedAt(derive, s, es, l.value) == Some((s'.keys.knasEnc, s'.keys.knasInt)))
  {
    if es != [] {
      var before := es[..|es| - 1];
      OriginOfContext(derive, s, before);
      var l := LastFollowed(derive, s, before);
      if l.Some? { DerivedInPrefix(derive, s, es, |es| - 1, l.value); }
    }
  }

  /** No two commands of the run that name different algorithms derive the same keys. */
  ghost predicate TellsApart(derive: Derivation, s: KeyState, es: seq<KeyEvent>) {
    forall j: nat, l: nat | j < |es| && l < |es| && DerivedAt(derive, s, es, j).Some?
                       && DerivedAt(derive, s, es, j) == DerivedAt(derive, s, es, l) :: es[j] == es[l]
  }

  /** Exactly when an active context is coherent, if derivations may fail: when the last command names
      the algorithms of the last command that could be followed. */
  lemma CoherenceExactly(derive: Derivation, s: KeyState, es: seq<KeyEvent>)
    requires !s.active && KeysAfter(derive, s, es).active && TellsApart(derive, s, es)
    ensures LastCommand(es).Some? && LastFollowed(derive, s, es).Some?
    ensures Coherent(derive, s, es, KeysAfter(derive, s, es).keys)
            <==> es[LastCommand(es).value] == es[LastFollowed(derive, s, es).value]
  {
    hide LastCommand, LastFollowed, KeysAfter;
    OriginOfContext(derive, s, es);
    var keys := KeysAfter(derive, s, es).keys;
    var c, l := LastCommand(es).value, LastFollowed(derive, s, es).value;
    assert es[c] == Command(keys.cipheringAlg, keys.integrityAlg);
    if Coherent(derive, s, es, keys) {
      var j: nat :| DerivesAt(derive, s, es, j, keys);
      assert es[j] == es[l] && es[j] == es[c];
    }
    if es[c] == es[l] {
      assert DerivesAt(derive, s, es, l, keys);
    }
  }

  /** An active context is told to use other algorithms, for which the derivation fails. */
  ghost predicate SwitchesInVain(derive: Derivation, s: KeyState, e: KeyEvent) {
    && s.active && e.Command? && derive(s.root, e.ciphering, e.integrity).None?
    && !(e.ciphering == s.keys.cipheringAlg && e.integrity == s.keys.integrityAlg)
  }

  /** Without such a step an active context is always coherent, whatever keys may coincide. A derivation
      may fail before the context is active and for a command that repeats the algorithms in use. */
  lemma {:induction false} KeysAreCoherent(derive: Derivation, s: KeyState, es: seq<KeyEvent>)
    requires !s.active
    requires forall j: nat | j < |es| :: !SwitchesInVain(derive, KeysAfter(derive, s, es[..j]), es[j])
    ensures var s' := KeysAfter(derive, s, es); s'.active ==> Coherent(derive, s, es, s'.keys)
  {
    if es != [] {
      var n := |es| - 1;
      var before := es[..n];
      forall j: nat | j < n ensures before[..j] == es[..j] && before[j] == es[j] {}
      KeysAreCoherent(derive, s, before);
      var s1, s2 := KeysAfter(derive, s, before), KeysAfter(derive, s, es);
      assert !SwitchesInVain(derive, KeysAfter(derive, s, es[..n]), es[n]);
      assert s2 == KeyStep(derive, s1, es[n]);
      if s2.active && DerivedAt(derive, s, es, n).Some? {
        assert DerivesAt(derive, s, es, n, s2.keys);
      } else if s2.active {
        assert s2.keys == s1.keys;
        var j: nat :| DerivesAt(derive, s, before, j, s1.keys);
        DerivedInPrefix(derive, s, es, n, j);
        assert DerivesAt(derive, s, es, j, s2.keys);
      }
    }
  }

  /** Such a step does harm: if a root key yields keys for one pair of algorithms and none for another,
      two commands take a context out of coherence. */
  lemma VainSwitchLosesCoherence(derive: Derivation, s: KeyState, known: KeyEvent, unknown: KeyEvent)
    requires !s.active && known.Command? && unknown.Command?
    requires derive(s.root, known.ciphering, known.integrity).Some?
    requires derive(s.root, unknown.ciphering, unknown.integrity).None?
    ensures var es := [known, unknown]; var s' := KeysAfter(derive, s, es);
            s'.active && !Coherent(derive, s, es, s'.keys)
  {
    var es := [known, unknown];
    assert es[..1] == [known] && es[..1][..0] == [];
    assert KeysAfter(derive, s, es[..1]) == KeyStep(derive, s, known);
    assert KeysAfter(derive, s, es) == KeyStep(derive, KeyStep(derive, s, known), unknown);
    assert forall j: nat | j < 2 && DerivedAt(derive, s, es, j).Some? :: es[j] == known;
  }
}
