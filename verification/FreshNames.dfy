/** Giving new names to pattern atoms, one counter step per atom, in the order in which they are met. */
module FreshNames {
  import opened Types
  import opened Matching

  ghost function Flatten(vs: seq<AtomsVector>): seq<Atom> {
    if vs == [] then [] else Flatten(vs[..|vs| - 1]) + vs[|vs| - 1]
  }

  // The names given while reading the atoms from left to right, starting after start.
  ghost function Naming(atoms: seq<Atom>, start: Atom): Substitution {
    if atoms == [] then map[]
    else
      var names := Naming(atoms[..|atoms| - 1], start);
      var last := atoms[|atoms| - 1];
      if last < 0 && last !in names then names[last := start + |names| + 1] else names
  }

  lemma {:induction false} NamesAreFresh(atoms: seq<Atom>, start: Atom)
    ensures forall x :: x in Naming(atoms, start) <==> x in atoms && x < 0
    ensures forall x :: x in Naming(atoms, start) ==> start < Naming(atoms, start)[x] <= start + |Naming(atoms, start)|
    ensures forall x, y :: x in Naming(atoms, start) && y in Naming(atoms, start) && x != y ==>
              Naming(atoms, start)[x] != Naming(atoms, start)[y]
  {
    if atoms != [] {
      var n := |atoms| - 1;
      NamesAreFresh(atoms[..n], start);
      assert forall x :: x in atoms <==> x in atoms[..n] || x == atoms[n];
    }
  }

  // Atoms are named in the order in which they are met.
  lemma {:induction false} NamesFollowOrder(atoms: seq<Atom>, start: Atom, i: nat, j: nat)
    requires i < j < |atoms| && atoms[i] < 0 && atoms[j] < 0 && atoms[j] !in atoms[..j]
    ensures atoms[i] in Naming(atoms, start) && atoms[j] in Naming(atoms, start)
    ensures Naming(atoms, start)[atoms[i]] < Naming(atoms, start)[atoms[j]]
  {
    var n := |atoms| - 1;
    NamesAreFresh(atoms[..n], start);
    if j < n {
      assert atoms[..n][..j] == atoms[..j];
      NamesFollowOrder(atoms[..n], start, i, j);
    } else {
      assert atoms[i] in atoms[..n];
    }
  }

  ghost predicate IsPlace(vs: seq<AtomsVector>, i: int, k: int) {
    0 <= i < |vs| && 0 <= k < |vs[i]|
  }

  ghost predicate IsEarlier(i: int, k: int, j: int, l: int) {
    i < j || (i == j && k < l)
  }

  // The atom is met in some vector, or at some place of it, before place l of vector j.
  ghost predicate IsMetBefore(vs: seq<AtomsVector>, x: Atom, j: int, l: int) {
    exists i, k :: IsPlace(vs, i, k) && IsEarlier(i, k, j, l) && vs[i][k] == x
  }

  // Vectors are read one after the other, and each from its first place on.
  lemma NamesFollowPlaces(vs: seq<AtomsVector>, start: Atom, i: nat, k: nat, j: nat, l: nat)
    requires IsPlace(vs, i, k) && IsPlace(vs, j, l) && IsEarlier(i, k, j, l)
    requires vs[i][k] < 0 && vs[j][l] < 0 && !IsMetBefore(vs, vs[j][l], j, l)
    ensures var names := Naming(Flatten(vs), start);
            vs[i][k] in names && vs[j][l] in names && names[vs[i][k]] < names[vs[j][l]]
  {
    FlattenAt(vs, i, k);
    FlattenAt(vs, j, l);
    if i < j {
      assert vs[..j][i] == vs[i] && vs[..j][..i] == vs[..i];
      FlattenAt(vs[..j], i, k);
    }
    var x, before := vs[j][l], Flatten(vs[..j]);
    if x in before + vs[j][..l] {
      FlattenMember(vs[..j], x);
      if x in before {
        var i' :| 0 <= i' < j && x in vs[i'];
        var k' :| 0 <= k' < |vs[i']| && vs[i'][k'] == x;
        assert IsPlace(vs, i', k') && IsEarlier(i', k', j, l);
      } else {
        var k' :| 0 <= k' < l && vs[j][k'] == x;
        assert IsPlace(vs, j, k') && IsEarlier(j, k', j, l);
      }
    }
    NamesFollowOrder(Flatten(vs), start, |Flatten(vs[..i])| + k, |before| + l);
  }

  lemma {:induction false} FlattenAt(vs: seq<AtomsVector>, j: nat, l: nat)
    requires IsPlace(vs, j, l)
    ensures |Flatten(vs[..j])| + l < |Flatten(vs)| && Flatten(vs)[|Flatten(vs[..j])| + l] == vs[j][l]
    ensures Flatten(vs)[..|Flatten(vs[..j])| + l] == Flatten(vs[..j]) + vs[j][..l]
    decreases |vs|
  {
    var n := |vs| - 1;
    if j < n {
      assert vs[..n][..j] == vs[..j] && vs[..n][j] == vs[j];
      FlattenAt(vs[..n], j, l);
    }
  }

  lemma {:induction false} FlattenMember(vs: seq<AtomsVector>, x: Atom)
    ensures x in Flatten(vs) <==> exists i :: 0 <= i < |vs| && x in vs[i]
  {
    if vs != [] {
      var n := |vs| - 1;
      FlattenMember(vs[..n], x);
      if x in Flatten(vs[..n]) {
        var i :| 0 <= i < n && x in vs[..n][i];
        assert x in vs[i];
      }
      if i :| 0 <= i < n && x in vs[i] {
        assert x in vs[..n][i];
      }
    }
  }

  // The name of an atom does not change when more atoms are read.
  lemma {:induction false} NamingIsStable(atoms: seq<Atom>, more: seq<Atom>, start: Atom)
    ensures forall x :: x in Naming(atoms, start) ==>
              x in Naming(atoms + more, start) && Naming(atoms + more, start)[x] == Naming(atoms, start)[x]
    decreases |more|
  {
    if more == [] {
      assert atoms + more == atoms;
    } else {
      var n := |more| - 1;
      assert (atoms + more)[..|atoms + more| - 1] == atoms + more[..n];
      NamingIsStable(atoms, more[..n], start);
    }
  }

  lemma {:induction false} NamingGrows(atoms: seq<Atom>, more: seq<Atom>, start: Atom)
    ensures |Naming(atoms, start)| <= |Naming(atoms + more, start)|
    decreases |more|
  {
    if more == [] {
      assert atoms + more == atoms;
    } else {
      assert (atoms + more)[..|atoms + more| - 1] == atoms + more[..|more| - 1];
      NamingGrows(atoms, more[..|more| - 1], start);
    }
  }

  lemma NameIsMissing(before: seq<Atom>, v: AtomsVector, j: nat, start: Atom)
    requires j < |v| && v[j] < 0 && v[j] !in Naming(before + v[..j], start)
    ensures |Naming(before + v[..j], start)| < |Naming(before + v, start)|
  {
    SplitAround(before, v, j);
    NewName(before + v[..j], v[j], start);
    NamingGrows((before + v[..j]) + [v[j]], v[j + 1..], start);
  }

  lemma SplitAround(before: seq<Atom>, v: AtomsVector, j: nat)
    requires j < |v|
    ensures before + v == ((before + v[..j]) + [v[j]]) + v[j + 1..]
  {
  }

  lemma NewName(atoms: seq<Atom>, x: Atom, start: Atom)
    requires x < 0 && x !in Naming(atoms, start)
    ensures |Naming(atoms + [x], start)| == |Naming(atoms, start)| + 1
  {
    assert (atoms + [x])[..|atoms|] == atoms;
  }

  lemma {:induction false} NamingOfPrefix(vs: seq<AtomsVector>, i: nat, start: Atom)
    requires i <= |vs|
    ensures |Naming(Flatten(vs[..i]), start)| <= |Naming(Flatten(vs), start)|
    decreases |vs|
  {
    if i == |vs| {
      assert vs[..i] == vs;
    } else {
      var n := |vs| - 1;
      assert vs[..n][..i] == vs[..i];
      NamingOfPrefix(vs[..n], i, start);
      NamingGrows(Flatten(vs[..n]), vs[n], start);
    }
  }

  // Replaces the pattern atoms by new names, counting on from start. With a limit, running into it
  // is an error and leaves the counter there.
  method NamePatternAtoms(vs: seq<AtomsVector>, start: Atom, limit: Option<Atom>)
    returns (ok: bool, named: seq<AtomsVector>, counter: Atom)
    requires limit.Some? ==> start <= limit.value
    ensures ok ==> named == RenameAll(Naming(Flatten(vs), start), vs)
    ensures ok ==> counter == start + |Naming(Flatten(vs), start)|
    ensures ok <==> limit.None? || start + |Naming(Flatten(vs), start)| <= limit.value
    ensures !ok ==> counter == limit.value
    ensures limit.Some? ==> start <= counter <= limit.value
  {
    NextVector(vs, start);
    hide Naming, Flatten, Rename, RenameVector;
    named, counter := [], start;
    var names: Substitution := map[];
    for i := 0 to |vs|
      invariant names == Naming(Flatten(vs[..i]), start) && counter == start + |names|
      invariant limit.Some? ==> counter <= limit.value
      invariant |named| == i && forall k :: 0 <= k < i ==> named[k] == RenameVector(names, vs[k])
    {
      ok, names, counter := NameVector(vs[i], names, counter, limit, Flatten(vs[..i]), start);
      if !ok {
        NamingOfPrefix(vs, i + 1, start);
        return;
      }
      forall k | 0 <= k < i
        ensures RenameVector(names, vs[k]) == named[k]
      {
        NamedVectorIsStable(vs, i, k, start);
      }
      named := named + [RenameVector(names, vs[i])];
    }
    assert vs[..|vs|] == vs;
    ok := true;
  }

  lemma NextVector(vs: seq<AtomsVector>, start: Atom)
    ensures Naming(Flatten(vs[..0]), start) == map[]
    ensures forall i :: 0 <= i < |vs| ==> Flatten(vs[..i + 1]) == Flatten(vs[..i]) + vs[i]
  {
    forall i | 0 <= i < |vs|
      ensures Flatten(vs[..i + 1]) == Flatten(vs[..i]) + vs[i]
    {
      assert vs[..i + 1][..i] == vs[..i];
    }
  }

  // Names the atoms of one more vector, after the atoms read so far.
  method NameVector(
    v: AtomsVector, known: Substitution, from: Atom, limit: Option<Atom>, ghost before: seq<Atom>, ghost start: Atom)
    returns (ok: bool, names: Substitution, counter: Atom)
    requires known == Naming(before, start) && from == start + |known|
    requires limit.Some? ==> from <= limit.value
    ensures ok ==> names == Naming(before + v, start) && counter == start + |names|
    ensures !ok ==> limit.Some? && counter == limit.value && start + |Naming(before + v, start)| > limit.value
    ensures limit.Some? ==> from <= counter <= limit.value
    ensures limit.None? ==> ok
  {
    NothingRead(before, v);
    hide Naming;
    names, counter := known, from;
    for j := 0 to |v|
      invariant names == Naming(before + v[..j], start) && counter == start + |names| >= from
      invariant limit.Some? ==> counter <= limit.value
    {
      NextName(before, v, j, start);
      if v[j] < 0 && v[j] !in names {
        if limit == Some(counter) {
          NameIsMissing(before, v, j, start);
          return false, names, counter;
        }
        counter := counter + 1;
        names := names[v[j] := counter];
      }
    }
    ok := true;
  }

  lemma NothingRead(before: seq<Atom>, v: AtomsVector)
    ensures before + v[..0] == before && v[..|v|] == v
  {
  }

  // One more atom gets the next name, unless it has one or needs none.
  lemma NextName(before: seq<Atom>, v: AtomsVector, j: nat, start: Atom)
    requires j < |v|
    ensures var names := Naming(before + v[..j], start);
            Naming(before + v[..j + 1], start) ==
            if v[j] < 0 && v[j] !in names then names[v[j] := start + |names| + 1] else names
  {
    assert (before + v[..j + 1])[..|before| + j] == before + v[..j];
  }

  lemma NamedVectorIsStable(vs: seq<AtomsVector>, i: nat, k: nat, start: Atom)
    requires k < i < |vs|
    ensures RenameVector(Naming(Flatten(vs[..i]) + vs[i], start), vs[k]) ==
            RenameVector(Naming(Flatten(vs[..i]), start), vs[k])
  {
    var before, v := Flatten(vs[..i]), vs[k];
    NamesAreFresh(before, start);
    NamingIsStable(before, vs[i], start);
    var names := Naming(before + vs[i], start);
    NamesAreFresh(before + vs[i], start);
    forall l | 0 <= l < |v|
      ensures Rename(names, v[l]) == Rename(Naming(before, start), v[l])
    {
      assert vs[..i][k] == v && v[l] in v;
      FlattenMember(vs[..i], v[l]);
    }
  }
}
