/**
  What the engine's own isomorphism test decides. It renames the pattern atoms of one hypergraph so
  that it becomes the other; nothing asks the renaming to be injective, so the test is one-sided.
 */
module EngineIsomorphism {
  import opened Types
  import opened Collections
  import opened Matching
  import opened FreshNames

  type Hypergraph = seq<AtomsVector>

  // An arbitrary large atom that is put at the end of every token to connect the rule.
  const CONNECTING_ATOM: Atom := 943106676560858694

  ghost predicate IsPermutation(p: seq<int>, n: nat) {
    && |p| == n && Distinct(p)
    && forall i :: 0 <= i < n ==> 0 <= p[i] < n
  }

  // s and p carry the first hypergraph onto the second, edge by edge.
  ghost predicate Carries(s: Substitution, p: seq<int>, first: Hypergraph, second: Hypergraph) {
    && OnPatterns(s)
    && |first| == |second| && IsPermutation(p, |first|)
    && forall i :: 0 <= i < |first| ==> RenameVector(s, first[i]) == second[p[i]]
  }

  ghost predicate RenamesOnto(first: Hypergraph, second: Hypergraph) {
    exists s, p :: Carries(s, p, first, second)
  }

  ghost predicate HasAtom(h: Hypergraph, x: Atom) {
    exists i :: 0 <= i < |h| && x in h[i]
  }

  // A renaming of pattern atoms into pattern atoms, without identifying any two.
  ghost predicate TrulyCarries(s: Substitution, p: seq<int>, first: Hypergraph, second: Hypergraph) {
    && Carries(s, p, first, second)
    && (forall x :: HasAtom(first, x) && x < 0 ==> Rename(s, x) < 0)
    && (forall x, y :: HasAtom(first, x) && HasAtom(first, y) && Rename(s, x) == Rename(s, y) ==> x == y)
  }

  ghost predicate Isomorphic(first: Hypergraph, second: Hypergraph) {
    exists s, p :: TrulyCarries(s, p, first, second)
  }

  // ----- the engine's test: a single match of a rule against the other hypergraph

  function AppendAtom(h: Hypergraph, x: Atom): (r: Hypergraph)
    ensures |r| == |h| && forall i :: 0 <= i < |h| ==> r[i] == h[i] + [x]
  {
    seq(|h|, i requires 0 <= i < |h| => h[i] + [x])
  }

  ghost predicate IsLargestAtom(h: Hypergraph, x: Atom) {
    HasAtom(h, x) && forall y :: HasAtom(h, y) ==> y <= x
  }

  // The second hypergraph with the connecting atom, and its pattern atoms named after the largest atom.
  ghost predicate IsInstantiated(second: Hypergraph, instantiated: Hypergraph) {
    var connected := AppendAtom(second, CONNECTING_ATOM);
    exists largest ::
      && IsLargestAtom(connected, largest)
      && instantiated == RenameAll(Naming(Flatten(connected), largest), connected)
  }

  ghost predicate EngineIsomorphic(first: Hypergraph, second: Hypergraph) {
    && |first| == |second|
    && (|first| == 0 || exists instantiated ::
          IsInstantiated(second, instantiated) && RenamesOnto(AppendAtom(first, CONNECTING_ATOM), instantiated))
  }

  // ----- what it means

  ghost predicate ExplicitAtomsUpTo(h: Hypergraph, x: Atom) {
    forall y :: HasAtom(h, y) ==> y <= x
  }

  // No atom of the first hypergraph exceeds both the connecting atom and all atoms of the second,
  // so that it cannot be mistaken for the name of a pattern atom.
  ghost predicate NoAtomBeyond(first: Hypergraph, second: Hypergraph) {
    forall x :: HasAtom(first, x) ==> x <= CONNECTING_ATOM || exists y :: HasAtom(second, y) && x <= y
  }

  // A renaming of the pattern atoms of the first hypergraph that makes it equal to the second exists
  // iff the test says so and no atom is out of range. A renaming is always found.
  lemma RenamesOntoIff(first: Hypergraph, second: Hypergraph)
    ensures RenamesOnto(first, second) <==> EngineIsomorphic(first, second) && NoAtomBeyond(first, second)
  {
    if |first| == 0 && |second| == 0 {
      assert Carries(map[], [], first, second);
    } else if |first| == |second| {
      var connected := AppendAtom(second, CONNECTING_ATOM);
      assert CONNECTING_ATOM in connected[0] && HasAtom(connected, CONNECTING_ATOM);
      if EngineIsomorphic(first, second) && NoAtomBeyond(first, second) {
        var instantiated :| IsInstantiated(second, instantiated) &&
                            RenamesOnto(AppendAtom(first, CONNECTING_ATOM), instantiated);
        var largest :| IsLargestAtom(connected, largest) &&
                       instantiated == RenameAll(Naming(Flatten(connected), largest), connected);
        var s, p :| Carries(s, p, AppendAtom(first, CONNECTING_ATOM), instantiated);
        AtomsOfConnected(second, largest);
        UninstantiatedRenaming(first, second, largest, s, p);
      }
      if RenamesOnto(first, second) {
        var s, p :| Carries(s, p, first, second);
        var largest := LargestExists(connected);
        InstantiatedRenaming(first, second, largest, s, p);
        forall x | HasAtom(first, x) && x > CONNECTING_ATOM
          ensures HasAtom(second, x)
        {
          ExplicitAtomsAreKept(s, p, first, second, x);
        }
      }
    }
  }

  // Appending the connecting atom adds nothing else.
  lemma AtomsOfConnected(h: Hypergraph, largest: Atom)
    requires IsLargestAtom(AppendAtom(h, CONNECTING_ATOM), largest) && h != []
    ensures CONNECTING_ATOM <= largest && forall y :: HasAtom(h, y) ==> y <= largest
  {
    var connected := AppendAtom(h, CONNECTING_ATOM);
    assert CONNECTING_ATOM in connected[0] && HasAtom(connected, CONNECTING_ATOM);
    forall y | HasAtom(h, y)
      ensures HasAtom(connected, y)
    {
      var i :| 0 <= i < |h| && y in h[i];
      assert y in connected[i];
    }
  }

  // In particular the test is exact as long as explicit atoms do not exceed the connecting atom.
  lemma EngineTestIsRenaming(first: Hypergraph, second: Hypergraph)
    requires ExplicitAtomsUpTo(first, CONNECTING_ATOM)
    ensures EngineIsomorphic(first, second) <==> RenamesOnto(first, second)
  {
    RenamesOntoIff(first, second);
  }

  lemma LargestExists(h: Hypergraph) returns (x: Atom)
    requires exists y :: HasAtom(h, y)
    ensures IsLargestAtom(h, x)
  {
    var y :| HasAtom(h, y);
    var i :| 0 <= i < |h| && y in h[i];
    FlattenMember(h, y);
    x := LargestOf(Flatten(h));
    forall z
      ensures z in Flatten(h) <==> HasAtom(h, z)
    {
      FlattenMember(h, z);
    }
  }

  lemma {:induction false} LargestOf(v: seq<Atom>) returns (x: Atom)
    requires v != []
    ensures x in v && forall y :: y in v ==> y <= x
  {
    if |v| == 1 {
      x := v[0];
    } else {
      x := LargestOf(v[1..]);
      assert v == [v[0]] + v[1..];
      if x < v[0] {
        x := v[0];
      }
    }
  }

  // Naming is undone by sending every fresh name back to the atom it was given to.
  lemma UninstantiatedRenaming(
    first: Hypergraph, second: Hypergraph, largest: Atom, s: Substitution, p: seq<int>)
    requires ExplicitAtomsUpTo(first, largest) && |first| == |second|
    requires var connected := AppendAtom(second, CONNECTING_ATOM);
             && HasAtom(connected, CONNECTING_ATOM) && IsLargestAtom(connected, largest)
             && Carries(s, p, AppendAtom(first, CONNECTING_ATOM),
                        RenameAll(Naming(Flatten(connected), largest), connected))
    ensures RenamesOnto(first, second)
  {
    var connected := AppendAtom(second, CONNECTING_ATOM);
    var names := Naming(Flatten(connected), largest);
    NamesAreFresh(Flatten(connected), largest);
    var back := map x | x in s :: if exists y :: y in names && names[y] == s[x]
                                  then var y :| y in names && names[y] == s[x]; y
                                  else s[x];
    forall i | 0 <= i < |first|
      ensures RenameVector(back, first[i]) == second[p[i]]
    {
      var renamed := RenameVector(s, AppendAtom(first, CONNECTING_ATOM)[i]);
      assert renamed == RenameVector(names, connected[p[i]]);
      assert |first[i]| == |second[p[i]]|;
      forall k | 0 <= k < |first[i]|
        ensures Rename(back, first[i][k]) == second[p[i]][k]
      {
        var x, y := first[i][k], second[p[i]][k];
        assert renamed[k] == Rename(s, x) == Rename(names, y);
        assert x in first[i] && HasAtom(first, x);
        assert y in connected[p[i]] && HasAtom(connected, y);
        FlattenMember(connected, y);
      }
    }
    assert Carries(back, p, first, second);
  }

  lemma InstantiatedRenaming(
    first: Hypergraph, second: Hypergraph, largest: Atom, s: Substitution, p: seq<int>)
    requires |first| > 0 && Carries(s, p, first, second)
    requires IsLargestAtom(AppendAtom(second, CONNECTING_ATOM), largest)
    ensures EngineIsomorphic(first, second)
  {
    hide Naming, Flatten;
    var connected := AppendAtom(second, CONNECTING_ATOM);
    var names := Naming(Flatten(connected), largest);
    NamesAreFresh(Flatten(connected), largest);
    var forth := (map x | x in names :: names[x]) + map x | x in s :: Rename(names, s[x]);
    var instantiated := RenameAll(names, connected);
    forall i | 0 <= i < |first|
      ensures RenameVector(forth, AppendAtom(first, CONNECTING_ATOM)[i]) == instantiated[p[i]]
    {
      var v := AppendAtom(first, CONNECTING_ATOM)[i];
      assert |v| == |connected[p[i]]|;
      forall k | 0 <= k < |v|
        ensures Rename(forth, v[k]) == Rename(names, connected[p[i]][k])
      {
        if k < |first[i]| {
          assert RenameVector(s, first[i])[k] == second[p[i]][k];
        }
      }
    }
    assert Carries(forth, p, AppendAtom(first, CONNECTING_ATOM), instantiated);
    assert IsInstantiated(second, instantiated);
  }

  // ----- when it is isomorphism

  lemma TrueIsomorphismsAreFound(first: Hypergraph, second: Hypergraph)
    requires Isomorphic(first, second)
    ensures RenamesOnto(first, second)
  {
    var s, p :| TrulyCarries(s, p, first, second);
  }

  ghost function Atoms(h: Hypergraph): (r: set<Atom>)
    ensures forall x :: x in r <==> HasAtom(h, x)
  {
    AtomsAreFinite(h);
    Elements(Flatten(h))
  }

  lemma AtomsAreFinite(h: Hypergraph)
    ensures forall x :: x in Flatten(h) <==> HasAtom(h, x)
  {
    forall x
      ensures x in Flatten(h) <==> HasAtom(h, x)
    {
      FlattenMember(h, x);
    }
  }

  // A renaming onto a hypergraph reaches each of its atoms.
  lemma CarriesAtoms(s: Substitution, p: seq<int>, first: Hypergraph, second: Hypergraph)
    requires Carries(s, p, first, second)
    ensures Image(s, Atoms(first)) == Atoms(second)
  {
    forall y
      ensures y in Image(s, Atoms(first)) <==> y in Atoms(second)
    {
      if y in Atoms(second) {
        var j :| 0 <= j < |second| && y in second[j];
        var i := PermutationReaches(p, |second|, j);
        var k :| 0 <= k < |second[j]| && second[j][k] == y;
        assert RenameVector(s, first[i])[k] == y;
        assert first[i][k] in first[i] && HasAtom(first, first[i][k]);
        assert first[i][k] in Atoms(first);
      }
      if y in Image(s, Atoms(first)) {
        var x :| x in Atoms(first) && Rename(s, x) == y;
        var i :| 0 <= i < |first| && x in first[i];
        var k :| 0 <= k < |first[i]| && first[i][k] == x;
        assert RenameVector(s, first[i])[k] == y;
        assert y in second[p[i]] && HasAtom(second, y);
      }
    }
    SameElements(Image(s, Atoms(first)), Atoms(second));
  }

  lemma PermutationReaches(p: seq<int>, n: nat, j: int) returns (i: nat)
    requires IsPermutation(p, n) && 0 <= j < n
    ensures i < n && p[i] == j
  {
    DistinctSize(p);
    var below := Below(n);
    SizeOfBelow(n);
    assert Elements(p) <= below;
    SameSizeSubset(Elements(p), below);
    assert j in Elements(p);
    i :| 0 <= i < n && p[i] == j;
  }

  lemma ExplicitAtomsAreKept(s: Substitution, p: seq<int>, first: Hypergraph, second: Hypergraph, x: Atom)
    requires Carries(s, p, first, second) && HasAtom(first, x) && x >= 0
    ensures HasAtom(second, x)
  {
    CarriesAtoms(s, p, first, second);
    assert x in Atoms(first) && Rename(s, x) == x;
    assert x in Image(s, Atoms(first));
  }

  ghost function Patterns(h: Hypergraph): set<Atom> {
    set x | x in Atoms(h) && x < 0
  }

  // A renaming is an isomorphism iff it has as many pattern atoms to reach as there are.
  lemma RenamingIsIsomorphismIff(first: Hypergraph, second: Hypergraph)
    requires RenamesOnto(first, second)
    ensures Isomorphic(first, second) <==> |Patterns(first)| == |Patterns(second)|
  {
    if Isomorphic(first, second) {
      var t, q :| TrulyCarries(t, q, first, second);
      CarriesAtoms(t, q, first, second);
      forall y
        ensures y in Image(t, Patterns(first)) <==> y in Patterns(second)
      {
        if y in Image(t, Patterns(first)) {
          assert y in Image(t, Atoms(first));
        }
        if y in Patterns(second) {
          assert y in Image(t, Atoms(first));
        }
      }
      SameElements(Image(t, Patterns(first)), Patterns(second));
      ImageSize(t, Patterns(first));
    }
    if |Patterns(first)| == |Patterns(second)| {
      var s, p :| Carries(s, p, first, second);
      EqualPatternsAreNotIdentified(s, p, first, second);
    }
  }

  // Explicit atoms are kept, so that pattern atoms are reached from pattern atoms only.
  lemma PatternsAreReached(s: Substitution, p: seq<int>, first: Hypergraph, second: Hypergraph)
    requires Carries(s, p, first, second)
    ensures Patterns(second) <= Image(s, Patterns(first)) && |Patterns(second)| <= |Patterns(first)|
  {
    var image := Image(s, Patterns(first));
    CarriesAtoms(s, p, first, second);
    ImageSize(s, Patterns(first));
    forall y | y in Patterns(second)
      ensures y in image
    {
      assert y in Image(s, Atoms(first));
    }
    IntSubset(Patterns(second), image);
    SubsetSize(Patterns(second), image);
  }

  lemma EqualPatternsAreNotIdentified(s: Substitution, p: seq<int>, first: Hypergraph, second: Hypergraph)
    requires Carries(s, p, first, second) && |Patterns(first)| == |Patterns(second)|
    ensures TrulyCarries(s, p, first, second)
  {
    var image := Image(s, Patterns(first));
    PatternsAreReached(s, p, first, second);
    ImageSize(s, Patterns(first));
    SubsetSize(Patterns(second), image);
    SameSizeSubset(Patterns(second), image);
    forall x | HasAtom(first, x) && x < 0
      ensures Rename(s, x) < 0
    {
      assert x in Patterns(first) && Rename(s, x) in image;
    }
    forall x, y | HasAtom(first, x) && HasAtom(first, y) && Rename(s, x) == Rename(s, y)
      ensures x == y
    {
      assert x < 0 ==> x in Patterns(first);
      assert y < 0 ==> y in Patterns(first);
    }
  }

  // What the test has to be combined with to decide isomorphism.
  lemma IsomorphicIff(first: Hypergraph, second: Hypergraph)
    ensures Isomorphic(first, second) <==>
            && EngineIsomorphic(first, second) && NoAtomBeyond(first, second)
            && |Patterns(first)| == |Patterns(second)|
  {
    RenamesOntoIff(first, second);
    if Isomorphic(first, second) {
      TrueIsomorphismsAreFound(first, second);
    }
    if RenamesOnto(first, second) {
      RenamingIsIsomorphismIff(first, second);
    }
  }

  // If each hypergraph can be renamed onto the other, they are isomorphic.
  lemma BothWaysIsIsomorphic(first: Hypergraph, second: Hypergraph)
    requires RenamesOnto(first, second) && RenamesOnto(second, first)
    ensures Isomorphic(first, second)
  {
    var s, p :| Carries(s, p, first, second);
    var t, q :| Carries(t, q, second, first);
    PatternsAreReached(s, p, first, second);
    PatternsAreReached(t, q, second, first);
    RenamingIsIsomorphismIff(first, second);
  }

  // The test alone is not symmetric and does not imply isomorphism.
  lemma OneWayIsNotEnough()
    ensures var chain, loop := [[-1, -2]], [[-1, -1]];
            EngineIsomorphic(chain, loop) && !EngineIsomorphic(loop, chain) && !Isomorphic(chain, loop)
  {
    var chain: Hypergraph, loop: Hypergraph := [[-1, -2]], [[-1, -1]];
    var s: Substitution := map[-2 := -1];
    assert RenameVector(s, chain[0]) == loop[0];
    assert Carries(s, [0], chain, loop);
    EngineTestIsRenaming(chain, loop);
    EngineTestIsRenaming(loop, chain);
    forall t, q
      ensures !Carries(t, q, loop, chain)
    {
      var renamed := RenameVector(t, loop[0]);
      assert renamed[0] == renamed[1];
      assert renamed != chain[0];
    }
    assert -1 in chain[0] && -2 in chain[0];
    assert HasAtom(chain, -1) && HasAtom(chain, -2);
    forall t, q
      ensures !TrulyCarries(t, q, chain, loop)
    {
      var renamed := RenameVector(t, chain[0]);
      assert renamed[0] == Rename(t, -1) && renamed[1] == Rename(t, -2);
      assert renamed == loop[0] ==> Rename(t, -1) == Rename(t, -2);
    }
  }

  // Above the connecting atom the test can confuse an explicit atom with the name of a pattern.
  lemma LargeExplicitAtomsAreConfused()
    ensures var large, pattern := [[CONNECTING_ATOM + 1]], [[-1]];
            EngineIsomorphic(large, pattern) && !RenamesOnto(large, pattern)
  {
    var large: Hypergraph, pattern: Hypergraph := [[CONNECTING_ATOM + 1]], [[-1]];
    var connected := AppendAtom(pattern, CONNECTING_ATOM);
    assert connected[0] == [-1, CONNECTING_ATOM];
    assert connected == [connected[0]];
    assert connected[..0] == [];
    assert Flatten(connected) == [-1, CONNECTING_ATOM];
    var names := Naming([-1, CONNECTING_ATOM], CONNECTING_ATOM);
    assert [-1, CONNECTING_ATOM][..1] == [-1] && [-1][..0] == [];
    assert Naming([-1], CONNECTING_ATOM) == map[-1 := CONNECTING_ATOM + 1];
    assert names == map[-1 := CONNECTING_ATOM + 1];
    assert CONNECTING_ATOM in connected[0];
    assert IsLargestAtom(connected, CONNECTING_ATOM);
    var instantiated := RenameAll(names, connected);
    assert IsInstantiated(pattern, instantiated);
    var v := AppendAtom(large, CONNECTING_ATOM)[0];
    assert RenameVector(map[], v) == instantiated[0];
    assert Carries(map[], [0], AppendAtom(large, CONNECTING_ATOM), instantiated);
    forall t, q
      ensures !Carries(t, q, large, pattern)
    {
      assert RenameVector(t, large[0])[0] == Rename(t, CONNECTING_ATOM + 1);
      assert OnPatterns(t) ==> RenameVector(t, large[0]) != pattern[0];
    }
  }
}
