/** Where promises end: inputs for which a property that might be expected fails, and exactly when it holds. */
module Counterexamples {
  import opened Types
  import opened Collections
  import opened CausalHistory
  import opened DestroyerChoices
  import opened ExpressionsSeparation
  import opened Matching
  import opened FreshNames
  import opened AtomDegrees

  // ----- rules that match everything

  // Tokens of one event are spacelike as far as their cones can tell, ...
  lemma SiblingsLookSpacelike(h: History, a: TokenId, b: TokenId)
    requires WellFormed(h) && IsToken(h, a) && IsToken(h, b) && a != b && h.creators[a] == h.creators[b]
    ensures ConeSeparation(h, a, b) == Spacelike
  {
    PastIsEventSet(h, h.creators[a]);
    forall t
      ensures !OnBoundary(h, a, b, ExpressionVertex(t))
    {
      BoundaryExpressions(h, a, b, t);
      PastDoesNotConsume(h, a);
      PastDoesNotConsume(h, b);
    }
  }

  // ... but they can be present together iff nothing was consumed twice on the way to that event.
  lemma SiblingsAreCompatibleIff(h: History, a: TokenId, b: TokenId)
    requires WellFormed(h) && IsToken(h, a) && IsToken(h, b) && h.creators[a] == h.creators[b]
    ensures EventSet(h, Past(h, h.creators[a]))
    ensures Compatible(h, a, b) <==> ConflictFree(h, Past(h, h.creators[a]))
  {
    PastIsEventSet(h, h.creators[a]);
    if a != b {
      SiblingsLookSpacelike(h, a, b);
      CompatibleIffConesAndPasts(h, a, b);
    } else {
      PastDoesNotConsume(h, a);
      assert TokenPast(h, a) + TokenPast(h, a) == Past(h, h.creators[a]);
    }
  }

  // One token is consumed by two events whose outputs are merged by a third one.
  ghost function Merger(): History {
    History([Event(INITIAL_CONDITION_RULE, [], [0], 0), Event(0, [0], [1], 1), Event(0, [0], [2], 1),
             Event(0, [1, 2], [3, 4], 2)],
            [0, 1, 2, 3, 3])
  }

  lemma MergedTokensHaveNoHistory()
    ensures WellFormed(Merger()) && ConeSeparation(Merger(), 3, 4) == Spacelike && !Compatible(Merger(), 3, 4)
  {
    var h := Merger();
    MergerIsWellFormed();
    SiblingsLookSpacelike(h, 3, 4);
    SiblingsAreCompatibleIff(h, 3, 4);
    PastIsClosed(h, 3);
    assert Consumes(h, 3, 1) && Consumes(h, 3, 2);
    assert 1 in Past(h, 3) && 2 in Past(h, 3);
    assert Consumes(h, 1, 0) && Consumes(h, 2, 0);
  }

  lemma MergerIsWellFormed()
    ensures WellFormed(Merger())
  {
    var h := Merger();
    assert h.events[0].inputs == [] && h.events[1].inputs == [0] && h.events[2].inputs == [0];
    assert h.events[3].inputs == [1, 2];
    assert h.events[0].outputs == [0] && h.events[1].outputs == [1] && h.events[2].outputs == [2];
    assert h.events[3].outputs == [3, 4];
  }

  // ----- the order of the inputs

  // The last event consumes both a token and the token that was made from it, in one order or the other.
  ghost function Reuser(inputs: seq<TokenId>): History {
    History([Event(INITIAL_CONDITION_RULE, [], [0], 0), Event(0, [0], [1], 1), Event(0, inputs, [], 2)], [0, 1])
  }

  // A conflict is noticed in one order of the inputs and not in the other.
  lemma InputOrderDecidesConflict()
    ensures WellFormed(Reuser([0, 1])) && WellFormed(Reuser([1, 0]))
    ensures Recorded(Reuser([0, 1]), 3).None? && Recorded(Reuser([1, 0]), 3).Some?
  {
    TokenFirst();
    TokenLast();
  }

  lemma TokenFirst()
    ensures WellFormed(Reuser([0, 1])) && Recorded(Reuser([0, 1]), 3).None?
  {
    hide Recorded, Merge, WellFormed;
    var h := Reuser([0, 1]);
    var none: Choices, first: Choices, second: Choices := map[], map[0 := 1], map[0 := 2];
    ReuserRecords(h, [0, 1], none, first);
    RecordsStart(h, [none, first], 2);
    MergeNext([none, first], h.creators, [0, 1], 2, 1, none, none, second);
    assert second[1 := 2][0] == 2 && first[0] == 1;
    MergeFails([none, first], h.creators, [0, 1], 2, second, first);
    RecordFails(h, 2, [none, first]);
  }

  lemma TokenLast()
    ensures WellFormed(Reuser([1, 0])) && Recorded(Reuser([1, 0]), 3).Some?
  {
    hide Recorded, Merge, WellFormed;
    var h := Reuser([1, 0]);
    var none: Choices, first: Choices := map[], map[0 := 1];
    var second: Choices, third: Choices := map[1 := 2, 0 := 1], map[1 := 2, 0 := 2];
    ReuserRecords(h, [1, 0], none, first);
    RecordsStart(h, [none, first], 2);
    MergeNext([none, first], h.creators, [1, 0], 2, 1, none, first, second);
    MergeNext([none, first], h.creators, [1, 0], 2, 2, second, none, third);
    RecordNext(h, 2, [none, first], third, [none, first, third]);
  }

  lemma ReuserRecords(h: History, inputs: seq<TokenId>, none: Choices, first: Choices)
    requires h == Reuser(inputs) && (inputs == [0, 1] || inputs == [1, 0])
    requires none == map[] && first == map[0 := 1]
    ensures WellFormed(h) && Recorded(h, 2) == Some([none, first])
  {
    hide Recorded, Merge, WellFormed;
    ReuserIsWellFormed(inputs);
    EarlyRecords(h, none, first);
  }

  lemma EarlyRecords(h: History, none: Choices, first: Choices)
    requires WellFormed(h) && |h.events| >= 2 && h.events[0].inputs == [] && h.events[1].inputs == [0]
    requires h.creators == [0, 1] && none == map[] && first == map[0 := 1]
    ensures Recorded(h, 2) == Some([none, first])
  {
    hide Recorded, Merge, WellFormed;
    RecordsStart(h, [], 0);
    RecordNext(h, 0, [], none, [none]);
    RecordsStart(h, [none], 1);
    MergeNext([none], h.creators, [0], 1, 1, none, none, first);
    RecordNext(h, 1, [none], first, [none, first]);
  }

  lemma ReuserIsWellFormed(inputs: seq<TokenId>)
    requires inputs == [0, 1] || inputs == [1, 0]
    ensures WellFormed(Reuser(inputs))
  {
    var h := Reuser(inputs);
    assert h.events[0].inputs == [] && h.events[1].inputs == [0] && h.events[2].inputs == inputs;
  }

  lemma RecordsStart(h: History, choices: seq<Choices>, e: nat)
    requires WellFormed(h) && e < |h.events| && |choices| >= e
    ensures Recorded(h, 0) == Some([]) && InputsKnown(choices, h.creators, h.events[e].inputs)
    ensures Merge(choices, h.creators, h.events[e].inputs, e, 0) == Some(map[])
  {
    EventInputsKnown(h, choices, e);
  }

  lemma RecordNext(h: History, n: nat, choices: seq<Choices>, m: Choices, more: seq<Choices>)
    requires WellFormed(h) && n < |h.events| && Recorded(h, n) == Some(choices)
    requires InputsKnown(choices, h.creators, h.events[n].inputs)
    requires Merge(choices, h.creators, h.events[n].inputs, n, |h.events[n].inputs|) == Some(m)
    requires more == choices + [m]
    ensures Recorded(h, n + 1) == Some(more)
  {
  }

  lemma RecordFails(h: History, n: nat, choices: seq<Choices>)
    requires WellFormed(h) && n < |h.events| && Recorded(h, n) == Some(choices)
    requires InputsKnown(choices, h.creators, h.events[n].inputs)
    requires Merge(choices, h.creators, h.events[n].inputs, n, |h.events[n].inputs|).None?
    ensures Recorded(h, n + 1).None?
  {
  }

  lemma MergeFails(
    choices: seq<Choices>, creators: seq<EventId>, inputs: seq<TokenId>, e: EventId, before: Choices, d: Choices)
    requires InputsKnown(choices, creators, inputs) && inputs != []
    requires Merge(choices, creators, inputs, e, |inputs| - 1) == Some(before)
    requires InputChoices(choices, creators, inputs, |inputs| - 1) == d && !Agree(before[inputs[|inputs| - 1] := e], d)
    ensures Merge(choices, creators, inputs, e, |inputs|).None?
  {
  }

  lemma MergeNext(
    choices: seq<Choices>, creators: seq<EventId>, inputs: seq<TokenId>, e: EventId, n: nat, before: Choices,
    d: Choices, after: Choices)
    requires InputsKnown(choices, creators, inputs) && 0 < n <= |inputs|
    requires Merge(choices, creators, inputs, e, n - 1) == Some(before)
    requires InputChoices(choices, creators, inputs, n - 1) == d && Agree(before[inputs[n - 1] := e], d)
    requires forall t :: (t in after <==> t in before || t == inputs[n - 1] || t in d) &&
                         (t in after ==> after[t] == if t in d then d[t] else if t == inputs[n - 1] then e else before[t])
    ensures Merge(choices, creators, inputs, e, n) == Some(after)
  {
    var merged := before[inputs[n - 1] := e] + d;
    if merged != after {
      var t := MapDifference(merged, after);
    }
  }

  // The first new name of a state with the single atom 1 is 3, whether or not the rule uses it, too.
  lemma ExplicitAtomIsTaken()
    ensures var degrees, inputs, outputs := map[1 := 1], [[1]], [[1, -1], [3]];
            && NamesClash(AtomsAfter(degrees, inputs, outputs), Naming(Flatten(outputs), 2))
            && RenameAll(Naming(Flatten(outputs), 2), outputs) == [[1, 3], [3]]
  {
    hide Naming, Flatten;
    var outputs: seq<AtomsVector> := [[1, -1], [3]];
    var names: Substitution := map[-1 := 3];
    NamesOfExample(outputs, names);
    assert RenameVector(names, [1, -1]) == [1, 3] && RenameVector(names, [3]) == [3];
    assert 3 in outputs[1];
    OutputIsThere(map[1 := 1], [[1]], outputs, 3);
    assert -1 in names && 3 !in names && names[-1] == 3;
  }

  lemma NamesOfExample(outputs: seq<AtomsVector>, names: Substitution)
    requires outputs == [[1, -1], [3]] && names == map[-1 := 3]
    ensures Naming(Flatten(outputs), 2) == names
  {
    assert outputs[..1] == [[1, -1]] && outputs[..1][..0] == [];
    assert Flatten(outputs[..1]) == [1, -1];
    assert Flatten(outputs) == [1, -1, 3];
    var atoms := [1, -1, 3];
    assert atoms[..2] == [1, -1] && atoms[..2][..1] == [1] && [1][..0] == [];
    assert Naming([1], 2) == map[];
    assert Naming([1, -1], 2) == names;
    assert Naming(atoms, 2) == names;
  }

  lemma OutputIsThere(degrees: Degrees, inputs: seq<AtomsVector>, outputs: seq<AtomsVector>, x: Atom)
    requires At(degrees, x) == 0 && DegreeIn(inputs, x) == 0 && exists i :: 0 <= i < |outputs| && x in outputs[i]
    ensures x in AtomsAfter(degrees, inputs, outputs)
  {
    DegreeIsPositive(outputs, x);
  }
}
