/**
  How many tokens contain each atom, how an event is predicted to change that, and when the
  prediction, which is made before new atoms get their names, is exact.
 */
module AtomDegrees {
  import opened Types
  import opened Collections
  import opened Matching
  import opened FreshNames

  type Degrees = map<Atom, int>

  // How many of the vectors contain the atom.
  ghost function DegreeIn(vs: seq<AtomsVector>, x: Atom): nat {
    if vs == [] then 0 else DegreeIn(vs[..|vs| - 1], x) + if x in vs[|vs| - 1] then 1 else 0
  }

  ghost function At(degrees: Degrees, x: Atom): int {
    if x in degrees then degrees[x] else 0
  }

  ghost predicate HasNoZeros(degrees: Degrees) {
    forall x :: x in degrees ==> degrees[x] != 0
  }

  ghost function Signed(count: int, n: int): int {
    if count < 0 then -n else n
  }

  lemma {:induction false} DegreeIsPositive(vs: seq<AtomsVector>, x: Atom)
    ensures DegreeIn(vs, x) > 0 <==> exists i :: 0 <= i < |vs| && x in vs[i]
  {
    if vs != [] {
      var n := |vs| - 1;
      DegreeIsPositive(vs[..n], x);
      if DegreeIn(vs[..n], x) > 0 {
        var i :| 0 <= i < n && x in vs[..n][i];
        assert x in vs[i];
      }
      if i :| 0 <= i < n && x in vs[i] {
        assert x in vs[..n][i];
      }
    }
  }

  // ----- updating

  // Counts every vector once for each of its atoms.
  method UpdateAtomDegrees(degrees: Degrees, deltaTokens: seq<AtomsVector>, deltaCount: int, deleteIfZero: bool)
    returns (updated: Degrees)
    requires deltaCount == 1 || deltaCount == -1
    ensures forall x :: At(updated, x) == At(degrees, x) + Signed(deltaCount, DegreeIn(deltaTokens, x))
    ensures deleteIfZero && HasNoZeros(degrees) ==> HasNoZeros(updated)
    ensures !deleteIfZero ==> forall x :: x in updated <==> x in degrees || DegreeIn(deltaTokens, x) > 0
  {
    updated := degrees;
    for i := 0 to |deltaTokens|
      invariant forall x :: At(updated, x) == At(degrees, x) + Signed(deltaCount, DegreeIn(deltaTokens[..i], x))
      invariant deleteIfZero && HasNoZeros(degrees) ==> HasNoZeros(updated)
      invariant !deleteIfZero ==> forall x :: x in updated <==> x in degrees || DegreeIn(deltaTokens[..i], x) > 0
    {
      assert deltaTokens[..i + 1][..i] == deltaTokens[..i];
      updated := CountToken(updated, deltaTokens[i], deltaCount, deleteIfZero);
    }
    assert deltaTokens[..|deltaTokens|] == deltaTokens;
  }

  method CountToken(degrees: Degrees, token: AtomsVector, deltaCount: int, deleteIfZero: bool)
    returns (updated: Degrees)
    requires deltaCount == 1 || deltaCount == -1
    ensures forall x :: At(updated, x) == At(degrees, x) + if x in token then deltaCount else 0
    ensures deleteIfZero && HasNoZeros(degrees) ==> HasNoZeros(updated)
    ensures !deleteIfZero ==> forall x :: x in updated <==> x in degrees || x in token
  {
    updated := degrees;
    var remaining := set x | x in token;
    while remaining != {}
      invariant forall x :: x in remaining ==> x in token
      invariant forall x :: At(updated, x) == At(degrees, x) + if x in token && x !in remaining then deltaCount else 0
      invariant deleteIfZero && HasNoZeros(degrees) ==> HasNoZeros(updated)
      invariant !deleteIfZero ==> forall x :: x in updated <==> x in degrees || (x in token && x !in remaining)
    {
      var atom := Pick(remaining);
      var degree := (if atom in updated then updated[atom] else 0) + deltaCount;
      updated := if deleteIfZero && degree == 0 then updated - {atom} else updated[atom := degree];
      remaining := remaining - {atom};
    }
  }

  // ----- the prediction

  // The degree of an atom after tokens with contents inputs are replaced with outputs.
  ghost function After(degrees: Degrees, inputs: seq<AtomsVector>, outputs: seq<AtomsVector>, x: Atom): int {
    At(degrees, x) - DegreeIn(inputs, x) + DegreeIn(outputs, x)
  }

  ghost predicate IsInvolved(inputs: seq<AtomsVector>, outputs: seq<AtomsVector>, x: Atom) {
    DegreeIn(inputs, x) > 0 || DegreeIn(outputs, x) > 0
  }

  ghost function AtomsOf(vs: seq<AtomsVector>): (r: set<Atom>)
    ensures forall x :: x in r <==> exists i :: 0 <= i < |vs| && x in vs[i]
  {
    set i, x | 0 <= i < |vs| && x in vs[i] :: x
  }

  ghost function AtomsAfter(degrees: Degrees, inputs: seq<AtomsVector>, outputs: seq<AtomsVector>): set<Atom> {
    set x | x in degrees.Keys + AtomsOf(outputs) && After(degrees, inputs, outputs, x) > 0
  }

  // The degrees count tokens that include the inputs.
  ghost predicate CanConsume(degrees: Degrees, inputs: seq<AtomsVector>) {
    (forall x :: x in degrees ==> degrees[x] > 0) && forall x :: At(degrees, x) >= DegreeIn(inputs, x)
  }

  // While atoms are being looked at, those that are done count with their new degree.
  ghost function AtomsMeanwhile(
    degrees: Degrees, inputs: seq<AtomsVector>, outputs: seq<AtomsVector>, all: set<Atom>, waiting: set<Atom>): set<Atom>
  {
    set x | x in all && (if x in waiting then At(degrees, x) > 0 else After(degrees, inputs, outputs, x) > 0)
  }

  lemma MeanwhileStep(
    degrees: Degrees, inputs: seq<AtomsVector>, outputs: seq<AtomsVector>, all: set<Atom>, waiting: set<Atom>, x: Atom)
    requires x in waiting && x in all
    ensures |AtomsMeanwhile(degrees, inputs, outputs, all, waiting - {x})| ==
            |AtomsMeanwhile(degrees, inputs, outputs, all, waiting)| -
            (if At(degrees, x) > 0 then 1 else 0) + (if After(degrees, inputs, outputs, x) > 0 then 1 else 0)
  {
    SizeStep(AtomsMeanwhile(degrees, inputs, outputs, all, waiting),
             AtomsMeanwhile(degrees, inputs, outputs, all, waiting - {x}), x);
  }

  lemma MeanwhileStart(degrees: Degrees, inputs: seq<AtomsVector>, outputs: seq<AtomsVector>, waiting: set<Atom>)
    requires CanConsume(degrees, inputs)
    requires forall x :: x in waiting <==> IsInvolved(inputs, outputs, x)
    ensures |AtomsMeanwhile(degrees, inputs, outputs, degrees.Keys + waiting, waiting)| == |degrees|
    ensures AtomsMeanwhile(degrees, inputs, outputs, degrees.Keys + waiting, {}) == AtomsAfter(degrees, inputs, outputs)
  {
    SameElements(AtomsMeanwhile(degrees, inputs, outputs, degrees.Keys + waiting, waiting), degrees.Keys);
    forall x
      ensures x in AtomsMeanwhile(degrees, inputs, outputs, degrees.Keys + waiting, {}) <==>
              x in AtomsAfter(degrees, inputs, outputs)
    {
      DegreeIsPositive(outputs, x);
    }
    SameElements(AtomsMeanwhile(degrees, inputs, outputs, degrees.Keys + waiting, {}), AtomsAfter(degrees, inputs, outputs));
  }

  // Whether replacing the inputs with the outputs exceeds one of the limits on atoms.
  method WillExceedAtomLimits(
    degrees: Degrees, inputs: seq<AtomsVector>, outputs: seq<AtomsVector>, maxFinalAtoms: int, maxFinalAtomDegree: int)
    returns (reason: TerminationReason)
    requires (maxFinalAtoms == MAX_INT64 && maxFinalAtomDegree == MAX_INT64) || CanConsume(degrees, inputs)
    ensures reason == NotTerminated || reason == MaxFinalAtomDegree || reason == MaxFinalAtoms
    ensures maxFinalAtoms == MAX_INT64 && maxFinalAtomDegree == MAX_INT64 ==> reason == NotTerminated
    ensures !(maxFinalAtoms == MAX_INT64 && maxFinalAtomDegree == MAX_INT64) ==>
              && (reason == MaxFinalAtomDegree <==> exists x ::
                    IsInvolved(inputs, outputs, x) && After(degrees, inputs, outputs, x) > maxFinalAtomDegree)
              && (reason == MaxFinalAtoms ==> |AtomsAfter(degrees, inputs, outputs)| > maxFinalAtoms)
              && (reason == NotTerminated ==> |AtomsAfter(degrees, inputs, outputs)| <= maxFinalAtoms)
  {
    if maxFinalAtoms == MAX_INT64 && maxFinalAtomDegree == MAX_INT64 {
      return NotTerminated;
    }
    var currentAtomsCount := |degrees|;
    var deltas := UpdateAtomDegrees(map[], inputs, -1, false);
    deltas := UpdateAtomDegrees(deltas, outputs, 1, false);
    var newAtomsCount := currentAtomsCount;
    var remaining := deltas.Keys;
    ghost var all := degrees.Keys + deltas.Keys;
    MeanwhileStart(degrees, inputs, outputs, deltas.Keys);
    while remaining != {}
      invariant remaining <= deltas.Keys
      invariant newAtomsCount == |AtomsMeanwhile(degrees, inputs, outputs, all, remaining)|
      invariant forall x :: x in deltas && x !in remaining ==> After(degrees, inputs, outputs, x) <= maxFinalAtomDegree
    {
      var atom := Pick(remaining);
      var degreeDelta := deltas[atom];
      var currentDegree := if atom in degrees then degrees[atom] else 0;
      assert currentDegree + degreeDelta == After(degrees, inputs, outputs, atom);
      if currentDegree == 0 && degreeDelta > 0 {
        newAtomsCount := newAtomsCount + 1;
      } else if currentDegree > 0 && currentDegree + degreeDelta == 0 {
        newAtomsCount := newAtomsCount - 1;
      }
      if currentDegree + degreeDelta > maxFinalAtomDegree {
        assert IsInvolved(inputs, outputs, atom);
        return MaxFinalAtomDegree;
      }
      MeanwhileStep(degrees, inputs, outputs, all, remaining, atom);
      remaining := remaining - {atom};
    }
    assert forall x :: IsInvolved(inputs, outputs, x) ==> x in deltas;
    reason := if newAtomsCount > maxFinalAtoms then MaxFinalAtoms else NotTerminated;
  }

  // ----- when the prediction is exact

  // A new name is the same as an atom that is there anyway.
  ghost predicate NamesClash(atoms: set<Atom>, names: Substitution) {
    exists x, y :: x in names && y in atoms && y !in names && names[x] == y
  }

  // The names of an event are consecutive, so an atom clashes iff it lies among them.
  lemma {:induction false} NamesAreConsecutive(atoms: seq<Atom>, start: Atom, y: Atom)
    ensures (exists x :: x in Naming(atoms, start) && Naming(atoms, start)[x] == y) <==>
            start < y <= start + |Naming(atoms, start)|
  {
    if atoms != [] {
      var n := |atoms| - 1;
      NamesAreConsecutive(atoms[..n], start, y);
      NamesAreFresh(atoms, start);
      var names, earlier := Naming(atoms, start), Naming(atoms[..n], start);
      NamesAreFresh(atoms[..n], start);
      if x :| x in earlier && earlier[x] == y {
        assert x in names && names[x] == y;
      }
      if names != earlier && y == start + |names| {
        assert atoms[n] in names && names[atoms[n]] == y;
      }
    }
  }

  lemma ClashIffNotInjective(atoms: set<Atom>, vs: seq<Atom>, start: Atom)
    requires forall x :: x in Naming(vs, start) ==> x in atoms
    ensures NamesClash(atoms, Naming(vs, start)) <==> !IsInjectiveOn(Naming(vs, start), atoms)
  {
    NamesAreFresh(vs, start);
    var names := Naming(vs, start);
    if NamesClash(atoms, names) {
      var x, y :| x in names && y in atoms && y !in names && names[x] == y;
      assert Rename(names, x) == Rename(names, y);
    }
    if !IsInjectiveOn(names, atoms) {
      var x, y :| x in atoms && y in atoms && Rename(names, x) == Rename(names, y) && x != y;
      assert x in names || y in names;
    }
  }

  // Naming does not change how often an atom occurs, unless its name is taken.
  lemma {:induction false} NamedDegree(names: Substitution, vs: seq<AtomsVector>, atoms: set<Atom>, x: Atom)
    requires IsInjectiveOn(names, atoms) && x in atoms && forall i, y :: 0 <= i < |vs| && y in vs[i] ==> y in atoms
    ensures DegreeIn(RenameAll(names, vs), Rename(names, x)) == DegreeIn(vs, x)
  {
    if vs != [] {
      var n := |vs| - 1;
      NamedDegree(names, vs[..n], atoms, x);
      assert RenameAll(names, vs)[..n] == RenameAll(names, vs[..n]);
    }
  }

  ghost predicate IsGroundDegrees(degrees: Degrees) {
    forall x :: x in degrees ==> x >= 0
  }

  // The atoms after the event are the predicted ones under their new names.
  lemma AtomsAfterNaming(degrees: Degrees, inputs: seq<AtomsVector>, outputs: seq<AtomsVector>, start: Atom)
    requires CanConsume(degrees, inputs) && IsGroundDegrees(degrees)
    ensures var names := Naming(Flatten(outputs), start);
            && AtomsAfter(degrees, inputs, RenameAll(names, outputs)) == Image(names, AtomsAfter(degrees, inputs, outputs))
            && forall x :: x in names ==> x in AtomsAfter(degrees, inputs, outputs)
  {
    var names := Naming(Flatten(outputs), start);
    NamesAreFresh(Flatten(outputs), start);
    var predicted, actual := AtomsAfter(degrees, inputs, outputs), AtomsAfter(degrees, inputs, RenameAll(names, outputs));
    forall x | x in names
      ensures x in predicted
    {
      FlattenMember(outputs, x);
      DegreeIsPositive(outputs, x);
    }
    forall y
      ensures y in actual <==> y in Image(names, predicted)
    {
      NamedAtomIsImage(degrees, inputs, outputs, start, y);
      ImageIsNamedAtom(degrees, inputs, outputs, start, y);
    }
    SameElements(actual, Image(names, predicted));
  }

  lemma NamedAtomIsImage(degrees: Degrees, inputs: seq<AtomsVector>, outputs: seq<AtomsVector>, start: Atom, y: Atom)
    requires CanConsume(degrees, inputs) && IsGroundDegrees(degrees)
    ensures var names := Naming(Flatten(outputs), start);
            y in AtomsAfter(degrees, inputs, RenameAll(names, outputs)) ==>
              y in Image(names, AtomsAfter(degrees, inputs, outputs))
  {
    var names := Naming(Flatten(outputs), start);
    var named := RenameAll(names, outputs);
    NamesAreFresh(Flatten(outputs), start);
    if y in AtomsAfter(degrees, inputs, named) {
      DegreeIsPositive(named, y);
      if DegreeIn(named, y) > 0 {
        var i :| 0 <= i < |named| && y in named[i];
        var k :| 0 <= k < |named[i]| && named[i][k] == y;
        var x := outputs[i][k];
        assert x in outputs[i] && Rename(names, x) == y;
        DegreeIsPositive(outputs, x);
        assert x in AtomsOf(outputs) && x in AtomsAfter(degrees, inputs, outputs);
      } else {
        assert y in degrees && y !in names && Rename(names, y) == y;
        assert y in AtomsAfter(degrees, inputs, outputs);
      }
    }
  }

  lemma ImageIsNamedAtom(degrees: Degrees, inputs: seq<AtomsVector>, outputs: seq<AtomsVector>, start: Atom, y: Atom)
    requires CanConsume(degrees, inputs) && IsGroundDegrees(degrees)
    ensures var names := Naming(Flatten(outputs), start);
            y in Image(names, AtomsAfter(degrees, inputs, outputs)) ==>
              y in AtomsAfter(degrees, inputs, RenameAll(names, outputs))
  {
    var names := Naming(Flatten(outputs), start);
    var named := RenameAll(names, outputs);
    NamesAreFresh(Flatten(outputs), start);
    if y in Image(names, AtomsAfter(degrees, inputs, outputs)) {
      var x :| x in AtomsAfter(degrees, inputs, outputs) && Rename(names, x) == y;
      DegreeIsPositive(outputs, x);
      DegreeIsPositive(named, y);
      if DegreeIn(outputs, x) > 0 {
        var i :| 0 <= i < |outputs| && x in outputs[i];
        var k :| 0 <= k < |outputs[i]| && outputs[i][k] == x;
        assert named[i][k] == y;
        assert y in named[i];
      } else {
        assert x in degrees && x !in names;
      }
    }
  }

  // The predicted number of atoms is never too small, and it is exact iff no new name clashes.
  lemma AtomCountIsExactIff(degrees: Degrees, inputs: seq<AtomsVector>, outputs: seq<AtomsVector>, start: Atom)
    requires CanConsume(degrees, inputs) && IsGroundDegrees(degrees)
    ensures var names := Naming(Flatten(outputs), start);
            var predicted, actual := AtomsAfter(degrees, inputs, outputs), AtomsAfter(degrees, inputs, RenameAll(names, outputs));
            && |actual| <= |predicted|
            && (|actual| == |predicted| <==> !NamesClash(predicted, names))
  {
    var names := Naming(Flatten(outputs), start);
    var predicted := AtomsAfter(degrees, inputs, outputs);
    AtomsAfterNaming(degrees, inputs, outputs, start);
    ClashIffNotInjective(predicted, Flatten(outputs), start);
    ImageSize(names, predicted);
  }

  // Without a clash the predicted degrees are exact, too.
  lemma DegreesAreExact(degrees: Degrees, inputs: seq<AtomsVector>, outputs: seq<AtomsVector>, start: Atom, x: Atom)
    requires CanConsume(degrees, inputs) && IsGroundDegrees(degrees) && start >= 0
    requires x in AtomsAfter(degrees, inputs, outputs)
    requires !NamesClash(AtomsAfter(degrees, inputs, outputs), Naming(Flatten(outputs), start))
    ensures var names := Naming(Flatten(outputs), start);
            After(degrees, inputs, RenameAll(names, outputs), Rename(names, x)) == After(degrees, inputs, outputs, x)
  {
    var names := Naming(Flatten(outputs), start);
    OutputDegreeIsExact(degrees, inputs, outputs, start, x);
    NamesAreFresh(Flatten(outputs), start);
    RestOfNamed(degrees, inputs, outputs, names, x);
  }

  lemma OutputDegreeIsExact(
    degrees: Degrees, inputs: seq<AtomsVector>, outputs: seq<AtomsVector>, start: Atom, x: Atom)
    requires CanConsume(degrees, inputs) && IsGroundDegrees(degrees)
    requires x in AtomsAfter(degrees, inputs, outputs)
    requires !NamesClash(AtomsAfter(degrees, inputs, outputs), Naming(Flatten(outputs), start))
    ensures var names := Naming(Flatten(outputs), start);
            DegreeIn(RenameAll(names, outputs), Rename(names, x)) == DegreeIn(outputs, x)
  {
    var names := Naming(Flatten(outputs), start);
    var predicted := AtomsAfter(degrees, inputs, outputs);
    AtomsAfterNaming(degrees, inputs, outputs, start);
    ClashIffNotInjective(predicted, Flatten(outputs), start);
    assert IsInjectiveOn(names, predicted);
    OutputsArePredicted(degrees, inputs, outputs);
    NamedDegree(names, outputs, predicted, x);
  }

  lemma OutputsArePredicted(degrees: Degrees, inputs: seq<AtomsVector>, outputs: seq<AtomsVector>)
    requires CanConsume(degrees, inputs)
    ensures forall i, y :: 0 <= i < |outputs| && y in outputs[i] ==> y in AtomsAfter(degrees, inputs, outputs)
  {
    forall i, y | 0 <= i < |outputs| && y in outputs[i]
      ensures y in AtomsAfter(degrees, inputs, outputs)
    {
      DegreeIsPositive(outputs, y);
      assert y in AtomsOf(outputs);
    }
  }

  // Apart from the outputs, an atom and its new name have the same degree.
  lemma RestOfNamed(
    degrees: Degrees, inputs: seq<AtomsVector>, outputs: seq<AtomsVector>, names: Substitution, x: Atom)
    requires CanConsume(degrees, inputs) && IsGroundDegrees(degrees)
    requires x in names ==> x < 0 && names[x] !in AtomsAfter(degrees, inputs, outputs)
    ensures At(degrees, Rename(names, x)) - DegreeIn(inputs, Rename(names, x)) == At(degrees, x) - DegreeIn(inputs, x)
  {
    if x in names {
      assert x !in degrees;
    }
  }
}
