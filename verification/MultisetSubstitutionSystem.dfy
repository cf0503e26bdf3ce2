/**
  The causal bookkeeping of multiset substitution systems. It merges destroyer choices without ever
  looking for a conflict, and gets the same records as the engine because it only makes events of
  inputs that are pairwise spacelike.
 */
module MultisetSubstitutionSystem {
  import opened Types
  import opened Collections
  import opened CausalHistory
  import opened DestroyerChoices
  import opened ExpressionsSeparation
  import opened SelectionFunctions
  import opened TokenEventGraph
  import Engine = TokenEventGraph

  ghost predicate ArePairwiseSpacelike(h: History, inputs: seq<TokenId>)
    requires WellFormed(h) && AreTokens(h, inputs)
  {
    forall i, j :: 0 <= i < j < |inputs| ==> TrackedSeparation(h, true, inputs[i], inputs[j]) == Spacelike
  }

  // There is a consistent history after which the two tokens are present together.
  ghost predicate CanBeTogether(h: History, a: TokenId, b: TokenId)
    requires WellFormed(h) && IsToken(h, a) && IsToken(h, b)
  {
    exists s :: HistoryWithBoth(h, s, a, b)
  }

  lemma SpacelikeCanBeTogether(h: History, inputs: seq<TokenId>)
    requires WellFormed(h) && SpacelikeHistory(h) && AreTokens(h, inputs) && Distinct(inputs)
    ensures ArePairwiseSpacelike(h, inputs) <==>
            forall i, j :: 0 <= i < j < |inputs| ==> CanBeTogether(h, inputs[i], inputs[j])
  {
    forall i, j | 0 <= i < j < |inputs|
      ensures TrackedSeparation(h, true, inputs[i], inputs[j]) == Spacelike <==> CanBeTogether(h, inputs[i], inputs[j])
    {
      SeparationsAgree(h, inputs[i], inputs[j]);
    }
  }

  // An event of such inputs keeps the history spacelike, so that merging its records meets no conflict.
  lemma SpacelikeInputsMerge(h: History, rule: int, inputs: seq<TokenId>, n: nat)
    requires WellFormed(h) && SpacelikeHistory(h) && AreTokens(h, inputs) && Distinct(inputs)
    requires ArePairwiseSpacelike(h, inputs)
    ensures var h' := Appended(h, rule, inputs, n);
            WellFormed(h') && SpacelikeHistory(h') && Recorded(h', |h'.events|).Some?
  {
    var h' := Appended(h, rule, inputs, n);
    AppendedIsWellFormed(h, rule, inputs, n);
    forall e | 0 <= e < |h.events|
      ensures SpacelikeEvent(h', e)
    {
      OldEventIsSpacelike(h, h', e);
    }
    forall i, j | 0 <= i < j < |inputs|
      ensures IsToken(h', inputs[i]) && IsToken(h', inputs[j]) && Compatible(h', inputs[i], inputs[j])
    {
      SeparationsAgree(h, inputs[i], inputs[j]);
      CompatibleIffHistoryExists(h, inputs[i], inputs[j]);
      CompatibleIsStable(h, h', inputs[i], inputs[j]);
    }
    assert SpacelikeEvent(h', |h.events|);
    SpacelikeIsRecorded(h', |h'.events|);
  }

  // Without a conflict an unchecked merge is a checked one.
  lemma UncheckedMergeIsMerge(
    choices: seq<Choices>, creators: seq<EventId>, inputs: seq<TokenId>, e: EventId, i: nat, m: Choices)
    requires InputsKnown(choices, creators, inputs) && i < |inputs|
    requires Merge(choices, creators, inputs, e, |inputs|).Some?
    requires Merge(choices, creators, inputs, e, i) == Some(m)
    ensures Merge(choices, creators, inputs, e, i + 1) == Some(m[inputs[i] := e] + InputChoices(choices, creators, inputs, i))
  {
    if Merge(choices, creators, inputs, e, i + 1).None? {
      Engine.TokenEventGraph.MergeStaysNone(choices, creators, inputs, e, i + 1);
    }
  }

  lemma NextMerge(h: History, h': History, choices: seq<Choices>)
    requires WellFormed(h) && WellFormed(h') && Extends(h, h') && |h'.events| == |h.events| + 1
    requires Recorded(h, |h.events|) == Some(choices) && Recorded(h', |h'.events|).Some?
    ensures InputsKnown(choices, h'.creators, h'.events[|h.events|].inputs)
    ensures Merge(choices, h'.creators, h'.events[|h.events|].inputs, |h.events|, |h'.events[|h.events|].inputs|).Some?
  {
    RecordedIsStable(h, h', |h.events|);
    EventInputsKnown(h', choices, |h.events|);
  }

  lemma NextRecord(h: History, h': History, choices: seq<Choices>, m: Choices)
    requires WellFormed(h) && WellFormed(h') && Extends(h, h') && |h'.events| == |h.events| + 1
    requires Recorded(h, |h.events|) == Some(choices)
    requires InputsKnown(choices, h'.creators, h'.events[|h.events|].inputs)
    requires Merge(choices, h'.creators, h'.events[|h.events|].inputs, |h.events|, |h'.events[|h.events|].inputs|) == Some(m)
    ensures Recorded(h', |h'.events|) == Some(choices + [m])
  {
    RecordedIsStable(h, h', |h.events|);
  }

  lemma InitialIsValid(h: History, n: nat)
    requires h == Appended(History([], []), 0, [], n)
    ensures WellFormed(h) && Layered(h) && SpacelikeHistory(h) && Recorded(h, |h.events|) == Some([map[]])
  {
    var none := History([], []);
    AppendedIsLayered(none, 0, [], n);
    assert h.events[0].inputs == [];
    assert SpacelikeEvent(h, 0);
    assert Recorded(h, 0) == Some([]);
    EventInputsKnown(h, [], 0);
    assert Merge([], h.creators, [], 0, 0) == Some(map[]);
    var first: Choices := map[];
    assert Recorded(h, 1) == Some([] + [first]);
    assert [] + [first] == [first];
  }

  class MultisetSubstitutionSystem {
    var events: seq<Event>
    var expressionCreatorEvents: seq<EventId>
    var destroyerChoices: seq<Choices>

    ghost function History(): History
      reads this`events, this`expressionCreatorEvents
    {
      CausalHistory.History(events, expressionCreatorEvents)
    }

    ghost predicate Valid()
      reads this
    {
      && WellFormed(History()) && Layered(History()) && SpacelikeHistory(History())
      && Recorded(History(), |events|) == Some(destroyerChoices)
    }

    // The first event is the one that creates the initial expressions; its rule index is 0.
    constructor (initialExpressionCount: nat)
      ensures Valid() && History() == Appended(CausalHistory.History([], []), 0, [], initialExpressionCount)
      ensures |events| == 1 && |events[0].outputs| == |expressionCreatorEvents| == initialExpressionCount
      ensures forall i :: 0 <= i < initialExpressionCount ==> events[0].outputs[i] == i
    {
      events := [Event(0, [], seq(initialExpressionCount, i => i), 0)];
      expressionCreatorEvents := seq(initialExpressionCount, i => 0);
      destroyerChoices := [map[]];
      new;
      ghost var none := CausalHistory.History([], []);
      assert events[0].outputs == IdsFrom(0, initialExpressionCount);
      assert History() == Appended(none, 0, [], initialExpressionCount);
      InitialIsValid(History(), initialExpressionCount);
    }

    // The same three comparisons as in the engine.
    method ExpressionsSeparation(first: TokenId, second: TokenId) returns (separation: SeparationType)
      requires Valid() && IsToken(History(), first) && IsToken(History(), second)
      ensures separation == TrackedSeparation(History(), true, first, second)
    {
      if first == second {
        return Identical;
      }
      var firstChoices := destroyerChoices[expressionCreatorEvents[first]];
      var secondChoices := destroyerChoices[expressionCreatorEvents[second]];
      if second in firstChoices || first in secondChoices {
        return Timelike;
      }
      var remaining := firstChoices.Keys;
      while remaining != {}
        invariant remaining <= firstChoices.Keys
        invariant forall t :: t in firstChoices && t in secondChoices && t !in remaining ==>
                    firstChoices[t] == secondChoices[t]
      {
        var expression := Pick(remaining);
        if expression in secondChoices && secondChoices[expression] != firstChoices[expression] {
          return Branchlike;
        }
        remaining := remaining - {expression};
      }
      separation := Spacelike;
    }

    method AreSpacelike(inputs: seq<TokenId>) returns (spacelike: bool)
      requires Valid() && AreTokens(History(), inputs)
      ensures spacelike <==> ArePairwiseSpacelike(History(), inputs)
    {
      hide Recorded, SpacelikeHistory, Layered, TrackedSeparation;
      for j := 0 to |inputs|
        invariant forall k, l :: 0 <= k < l < j ==> TrackedSeparation(History(), true, inputs[k], inputs[l]) == Spacelike
      {
        spacelike := IsSpacelikeFromEarlier(inputs, j);
        if !spacelike {
          return;
        }
      }
      spacelike := true;
    }

    method IsSpacelikeFromEarlier(inputs: seq<TokenId>, j: nat) returns (spacelike: bool)
      requires Valid() && AreTokens(History(), inputs) && j < |inputs|
      ensures spacelike <==>
              forall k :: 0 <= k < j ==> TrackedSeparation(History(), true, inputs[k], inputs[j]) == Spacelike
    {
      hide Recorded, SpacelikeHistory, Layered, TrackedSeparation;
      for i := 0 to j
        invariant forall k :: 0 <= k < i ==> TrackedSeparation(History(), true, inputs[k], inputs[j]) == Spacelike
      {
        var separation := ExpressionsSeparation(inputs[i], inputs[j]);
        if separation != Spacelike {
          return false;
        }
      }
      spacelike := true;
    }

    // Makes an event of the inputs if the rule has an instantiation for them and they can be present together.
    // For every instantiation it is known how many expressions it creates.
    method CreateEventIfPossible(rule: int, inputs: seq<TokenId>, instantiations: seq<nat>) returns (created: bool)
      requires Valid() && AreTokens(History(), inputs) && Distinct(inputs)
      modifies this
      ensures Valid()
      ensures created <==>
              && instantiations != []
              && forall i, j :: 0 <= i < j < |inputs| ==> old(CanBeTogether(History(), inputs[i], inputs[j]))
      ensures History() == old(if created then Appended(History(), rule, inputs, instantiations[0]) else History())
    {
      created := false;
      SpacelikeCanBeTogether(History(), inputs);
      if |instantiations| > 0 {
        created := AreSpacelike(inputs);
      }
      if created {
        CreateEvent(rule, inputs, instantiations[0]);
      }
    }

    method CreateEvent(rule: int, inputs: seq<TokenId>, outputCount: nat)
      requires Valid() && AreTokens(History(), inputs) && Distinct(inputs)
      requires ArePairwiseSpacelike(History(), inputs)
      modifies this
      ensures Valid() && History() == old(Appended(History(), rule, inputs, outputCount))
      ensures |events| == old(|events|) + 1 && |expressionCreatorEvents| == old(|expressionCreatorEvents|) + outputCount
      ensures var event := events[old(|events|)];
              && event.rule == rule && event.inputs == inputs && |event.outputs| == outputCount
              && forall i :: 0 <= i < outputCount ==> event.outputs[i] == old(|expressionCreatorEvents|) + i
    {
      hide Recorded, SpacelikeHistory, Layered, ArePairwiseSpacelike;
      ghost var h, n := History(), |events|;
      ghost var h' := Appended(h, rule, inputs, outputCount);
      SpacelikeInputsMerge(h, rule, inputs, outputCount);
      AppendedIsLayered(h, rule, inputs, outputCount);
      AppendedIsWellFormed(h, rule, inputs, outputCount);
      EventInputsKnown(h', destroyerChoices, n);
      NextMerge(h, h', destroyerChoices);
      var newDestroyerChoices := MergedChoices(inputs, h');
      var generation := NewEventGeneration(inputs);
      var first, event := |expressionCreatorEvents|, |events|;
      var outputs := seq(outputCount, i => first + i);
      expressionCreatorEvents := expressionCreatorEvents + seq(outputCount, i => event);
      assert outputs == IdsFrom(first, outputCount);
      events := events + [Event(rule, inputs, outputs, generation)];
      destroyerChoices := destroyerChoices + [newDestroyerChoices];
      assert History() == h';
      NextRecord(h, h', old(destroyerChoices), newDestroyerChoices);
    }

    method NewEventGeneration(inputs: seq<TokenId>) returns (generation: int)
      requires Valid() && AreTokens(History(), inputs)
      ensures generation == NextGeneration(History(), inputs)
    {
      GenerationsAreNatural(History(), |events|);
      var largest := -1;
      for i := 0 to |inputs|
        invariant AreTokens(History(), inputs[..i]) && largest + 1 == NextGeneration(History(), inputs[..i])
      {
        assert inputs[..i + 1][..i] == inputs[..i];
        var inputGeneration := events[expressionCreatorEvents[inputs[i]]].generation;
        largest := if largest < inputGeneration then inputGeneration else largest;
      }
      assert inputs[..|inputs|] == inputs;
      generation := largest + 1;
    }

    // h is the history with the event that is being made.
    method MergedChoices(inputs: seq<TokenId>, ghost h: History) returns (newDestroyerChoices: Choices)
      requires expressionCreatorEvents <= h.creators && InputsKnown(destroyerChoices, expressionCreatorEvents, inputs)
      requires InputsKnown(destroyerChoices, h.creators, inputs)
      requires Merge(destroyerChoices, h.creators, inputs, |events|, |inputs|).Some?
      ensures Merge(destroyerChoices, h.creators, inputs, |events|, |inputs|) == Some(newDestroyerChoices)
    {
      newDestroyerChoices := map[];
      for i := 0 to |inputs|
        invariant Merge(destroyerChoices, h.creators, inputs, |events|, i) == Some(newDestroyerChoices)
      {
        UncheckedMergeIsMerge(destroyerChoices, h.creators, inputs, |events|, i, newDestroyerChoices);
        var inputEvent := expressionCreatorEvents[inputs[i]];
        newDestroyerChoices := WithAll(newDestroyerChoices[inputs[i] := |events|], destroyerChoices[inputEvent]);
      }
    }

    // Sets the entries of d one by one, whatever was there before.
    static method WithAll(m: Choices, d: Choices) returns (merged: Choices)
      ensures merged == m + d
    {
      merged := m;
      var remaining := d.Keys;
      while remaining != {}
        invariant remaining <= d.Keys
        invariant merged.Keys == m.Keys + (d.Keys - remaining)
        invariant forall t :: t in merged ==> merged[t] == if t in d && t !in remaining then d[t] else m[t]
      {
        var expression := Pick(remaining);
        merged := merged[expression := d[expression]];
        remaining := remaining - {expression};
      }
      if merged != m + d {
        var expression := MapDifference(merged, m + d);
      }
    }
  }
}
