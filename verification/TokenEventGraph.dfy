/** The causal graph that the engine maintains while it evolves. */
module TokenEventGraph {
  import opened Types
  import opened CausalHistory
  import opened DestroyerChoices
  import opened Collections

  // Numbered one after another.
  ghost function IdsFrom(first: TokenId, count: nat): (r: seq<TokenId>)
    ensures |r| == count && forall i :: 0 <= i < count ==> r[i] == first + i
  {
    seq(count, i => first + i)
  }

  ghost function Repeated(e: EventId, count: nat): (r: seq<EventId>)
    ensures |r| == count && forall i :: 0 <= i < count ==> r[i] == e
  {
    seq(count, i => e)
  }

  ghost predicate AreTokens(h: History, inputs: seq<TokenId>) {
    forall i :: 0 <= i < |inputs| ==> IsToken(h, inputs[i])
  }

  ghost function TokenGeneration(h: History, t: TokenId): int
    requires WellFormed(h) && IsToken(h, t)
  {
    h.events[h.creators[t]].generation
  }

  // The layer of an event with the given inputs.
  ghost function NextGeneration(h: History, inputs: seq<TokenId>): int
    requires WellFormed(h) && AreTokens(h, inputs)
  {
    if inputs == [] then 0
    else
      var rest := NextGeneration(h, inputs[..|inputs| - 1]);
      var next := TokenGeneration(h, inputs[|inputs| - 1]) + 1;
      if rest < next then next else rest
  }

  // The history after one more event.
  ghost function Appended(h: History, rule: int, inputs: seq<TokenId>, outputCount: nat): History
    requires WellFormed(h) && AreTokens(h, inputs)
  {
    History(h.events + [Event(rule, inputs, IdsFrom(|h.creators|, outputCount), NextGeneration(h, inputs))],
            h.creators + Repeated(|h.events|, outputCount))
  }

  // How many times token t was consumed.
  ghost function DestroyerCount(events: seq<Event>, t: TokenId): nat {
    if events == [] then 0
    else DestroyerCount(events[..|events| - 1], t) + multiset(events[|events| - 1].inputs)[t]
  }

  // Every event lies in the layer after the latest of its inputs.
  ghost predicate Layered(h: History)
    requires WellFormed(h)
  {
    forall e :: 0 <= e < |h.events| ==>
      AreTokens(h, h.events[e].inputs) && h.events[e].generation == NextGeneration(h, h.events[e].inputs)
  }

  ghost predicate IsLargestGeneration(h: History, g: int) {
    && (forall e :: 0 <= e < |h.events| ==> h.events[e].generation <= g)
    && (if h.events == [] then g == 0 else exists e :: 0 <= e < |h.events| && h.events[e].generation == g)
  }

  // ----- properties of appended histories

  lemma AppendedIsWellFormed(h: History, rule: int, inputs: seq<TokenId>, outputCount: nat)
    requires WellFormed(h) && AreTokens(h, inputs)
    ensures var h' := Appended(h, rule, inputs, outputCount);
            WellFormed(h') && Extends(h, h')
  {
    var h' := Appended(h, rule, inputs, outputCount);
    var e := |h.events|;
    forall f, t | 0 <= f < |h'.events| && Consumes(h', f, t)
      ensures IsToken(h', t) && h'.creators[t] < f
    {
      assert f < e ==> Consumes(h, f, t);
    }
    forall f, t | 0 <= f < |h'.events|
      ensures t in h'.events[f].outputs <==> IsToken(h', t) && h'.creators[t] == f
    {
      if f < e {
        assert t in h.events[f].outputs <==> IsToken(h, t) && h.creators[t] == f;
      } else if IsToken(h', t) && h'.creators[t] == e {
        assert h'.events[e].outputs[t - |h.creators|] == t;
      }
    }
  }

  lemma {:induction false} NextGenerationIsStable(h: History, h': History, inputs: seq<TokenId>)
    requires WellFormed(h) && WellFormed(h') && Extends(h, h') && AreTokens(h, inputs)
    ensures AreTokens(h', inputs) && NextGeneration(h', inputs) == NextGeneration(h, inputs)
  {
    if inputs != [] {
      NextGenerationIsStable(h, h', inputs[..|inputs| - 1]);
    }
  }

  lemma AppendedIsLayered(h: History, rule: int, inputs: seq<TokenId>, outputCount: nat)
    requires WellFormed(h) && AreTokens(h, inputs) && Layered(h)
    ensures WellFormed(Appended(h, rule, inputs, outputCount)) && Layered(Appended(h, rule, inputs, outputCount))
  {
    AppendedIsWellFormed(h, rule, inputs, outputCount);
    var h' := Appended(h, rule, inputs, outputCount);
    forall e | 0 <= e < |h'.events|
      ensures AreTokens(h', h'.events[e].inputs)
      ensures h'.events[e].generation == NextGeneration(h', h'.events[e].inputs)
    {
      NextGenerationIsStable(h, h', h'.events[e].inputs);
    }
  }

  // The layer is one more than that of the latest input; it is 0 only without inputs.
  lemma {:induction false} NextGenerationIsNextLayer(h: History, inputs: seq<TokenId>)
    requires WellFormed(h) && AreTokens(h, inputs)
    requires forall e :: 0 <= e < |h.events| ==> h.events[e].generation >= 0
    ensures forall i :: 0 <= i < |inputs| ==> TokenGeneration(h, inputs[i]) < NextGeneration(h, inputs)
    ensures inputs != [] ==> exists i :: 0 <= i < |inputs| && NextGeneration(h, inputs) == TokenGeneration(h, inputs[i]) + 1
    ensures NextGeneration(h, inputs) >= 0
  {
    if inputs != [] {
      var n := |inputs| - 1;
      NextGenerationIsNextLayer(h, inputs[..n]);
      assert NextGeneration(h, inputs) == TokenGeneration(h, inputs[n]) + 1 ||
             NextGeneration(h, inputs) == NextGeneration(h, inputs[..n]);
      assert forall i :: 0 <= i < n ==> inputs[..n][i] == inputs[i];
    }
  }

  lemma {:induction false} GenerationsAreNatural(h: History, n: nat)
    requires WellFormed(h) && Layered(h) && n <= |h.events|
    ensures forall e :: 0 <= e < n ==> h.events[e].generation >= 0
  {
    if n > 0 {
      GenerationsAreNatural(h, n - 1);
      var inputs := h.events[n - 1].inputs;
      assert AreTokens(h, inputs);
      if inputs != [] {
        assert Consumes(h, n - 1, inputs[|inputs| - 1]);
      }
    }
  }

  lemma DestroyerCountOfAppended(events: seq<Event>, event: Event, t: TokenId)
    ensures DestroyerCount(events + [event], t) == DestroyerCount(events, t) + multiset(event.inputs)[t]
  {
    assert (events + [event])[..|events|] == events;
  }

  lemma {:induction false} CountedIffConsumed(events: seq<Event>, t: TokenId)
    ensures DestroyerCount(events, t) > 0 <==> exists e :: 0 <= e < |events| && t in events[e].inputs
  {
    if events != [] {
      var n := |events| - 1;
      CountedIffConsumed(events[..n], t);
      assert t in events[n].inputs <==> multiset(events[n].inputs)[t] > 0;
      if DestroyerCount(events[..n], t) > 0 {
        var e :| 0 <= e < n && t in events[..n][e].inputs;
        assert t in events[e].inputs;
      }
    }
  }

  lemma NewTokensAreNotConsumed(h: History, t: TokenId)
    requires WellFormed(h) && t >= |h.creators|
    ensures DestroyerCount(h.events, t) == 0
  {
    CountedIffConsumed(h.events, t);
    if DestroyerCount(h.events, t) > 0 {
      var e :| 0 <= e < |h.events| && t in h.events[e].inputs;
      assert Consumes(h, e, t);
    }
  }

  lemma LargestOfAppended(h: History, rule: int, inputs: seq<TokenId>, outputCount: nat, largest: int)
    requires WellFormed(h) && AreTokens(h, inputs) && IsLargestGeneration(h, largest)
    ensures var g := NextGeneration(h, inputs);
            IsLargestGeneration(Appended(h, rule, inputs, outputCount), if largest < g then g else largest)
  {
    var g := NextGeneration(h, inputs);
    var h' := Appended(h, rule, inputs, outputCount);
    assert h'.events[|h.events|].generation == g;
    assert inputs != [] ==> IsToken(h, inputs[0]);
    if largest >= g && h.events != [] {
      var e :| 0 <= e < |h.events| && h.events[e].generation == largest;
      assert h'.events[e].generation == largest;
    }
  }

  // The verdict about old tokens changes only by becoming Unknown.
  lemma SeparationIsStable(h: History, h': History, tracksChoices: bool, a: TokenId, b: TokenId)
    requires WellFormed(h) && WellFormed(h') && Extends(h, h') && IsToken(h, a) && IsToken(h, b)
    requires Recorded(h', |h'.events|).Some?
    ensures TrackedSeparation(h', tracksChoices, a, b) == TrackedSeparation(h, tracksChoices, a, b)
  {
    RecordedIsPrefix(h', |h.events|, |h'.events|);
    RecordedIsStable(h, h', |h.events|);
  }

  // The order of the two tokens never matters.
  lemma SeparationIsSymmetric(h: History, tracksChoices: bool, a: TokenId, b: TokenId)
    requires WellFormed(h) && IsToken(h, a) && IsToken(h, b)
    ensures TrackedSeparation(h, tracksChoices, a, b) == TrackedSeparation(h, tracksChoices, b, a)
  {
  }

  class TokenEventGraph {
    var events: seq<Event>
    var creatorEvents: seq<EventId>
    var destroyerEventsCounts: seq<int>
    var largestGeneration: int
    // False if separation is not tracked at all.
    const tracksChoices: bool
    var destroyerChoices: seq<Choices>
    var isSpacelikeEvolution: bool

    ghost function History(): History
      reads this`events, this`creatorEvents
    {
      CausalHistory.History(events, creatorEvents)
    }

    ghost predicate ChoicesAreRecorded()
      requires WellFormed(History())
      reads this`events, this`creatorEvents, this`destroyerChoices, this`isSpacelikeEvolution
    {
      var recorded := Recorded(History(), |events|);
      if tracksChoices then
        && (isSpacelikeEvolution <==> recorded.Some?)
        && destroyerChoices == (if recorded.Some? then recorded.value else [])
      else isSpacelikeEvolution && destroyerChoices == []
    }

    ghost predicate CountsAreRight()
      reads this`events, this`creatorEvents, this`destroyerEventsCounts
    {
      && |destroyerEventsCounts| == |creatorEvents|
      && forall t :: 0 <= t < |creatorEvents| ==> destroyerEventsCounts[t] == DestroyerCount(events, t)
    }

    // Holds from the first assignment on; Valid adds that the initial event is there.
    ghost predicate Consistent()
      reads this
    {
      && WellFormed(History())
      && CountsAreRight()
      && Layered(History())
      && IsLargestGeneration(History(), largestGeneration)
      && ChoicesAreRecorded()
    }

    ghost predicate Valid()
      reads this
    {
      Consistent() && events != [] && events[0].rule == INITIAL_CONDITION_RULE && events[0].inputs == []
    }

    constructor (initialTokenCount: nat, tracksChoices: bool)
      ensures Valid() && this.tracksChoices == tracksChoices
      ensures History() == Appended(CausalHistory.History([], []), INITIAL_CONDITION_RULE, [], initialTokenCount)
      ensures |events| == 1 && events[0].rule == INITIAL_CONDITION_RULE && events[0].inputs == []
      ensures |creatorEvents| == |events[0].outputs| == initialTokenCount
      ensures forall i :: 0 <= i < initialTokenCount ==> events[0].outputs[i] == i && creatorEvents[i] == 0
    {
      events, creatorEvents, destroyerEventsCounts := [], [], [];
      largestGeneration, destroyerChoices, isSpacelikeEvolution := 0, [], true;
      this.tracksChoices := tracksChoices;
      new;
      var _ := AddEvent(INITIAL_CONDITION_RULE, [], initialTokenCount);
    }

    method AddEvent(rule: int, inputs: seq<TokenId>, outputCount: nat) returns (newTokens: seq<TokenId>)
      requires Consistent() && AreTokens(History(), inputs)
      modifies this
      ensures Consistent() && (old(Valid()) ==> Valid())
      ensures History() == old(Appended(History(), rule, inputs, outputCount))
      ensures |events| == old(|events|) + 1 && |creatorEvents| == old(|creatorEvents|) + outputCount
      ensures var event := events[old(|events|)];
              event.rule == rule && event.inputs == inputs && event.outputs == newTokens
      ensures |newTokens| == outputCount && forall i :: 0 <= i < outputCount ==>
                newTokens[i] == old(|creatorEvents|) + i && creatorEvents[newTokens[i]] == old(|events|)
    {
      ghost var h := History();
      newTokens := AppendEvent(rule, inputs, outputCount);
      if tracksChoices {
        AddLastEventDestroyerChoices(h);
      }
    }

    // The part of adding an event that does not depend on tracking.
    method AppendEvent(rule: int, inputs: seq<TokenId>, outputCount: nat) returns (newTokens: seq<TokenId>)
      requires Consistent() && AreTokens(History(), inputs)
      modifies this`events, this`creatorEvents, this`destroyerEventsCounts, this`largestGeneration
      ensures History() == old(Appended(History(), rule, inputs, outputCount))
      ensures WellFormed(History()) && Extends(old(History()), History())
      ensures CountsAreRight() && Layered(History())
      ensures IsLargestGeneration(History(), largestGeneration)
      ensures newTokens == IdsFrom(old(|creatorEvents|), outputCount)
    {
      ghost var h := History();
      IncrementDestroyerEventsCount(inputs);
      newTokens := CreateTokens(|events|, outputCount);
      var generation := NewEventGeneration(inputs, h);
      events := events + [Event(rule, inputs, newTokens, generation)];
      largestGeneration := if largestGeneration < generation then generation else largestGeneration;
      assert History() == Appended(h, rule, inputs, outputCount);
      AppendedIsLayered(h, rule, inputs, outputCount);
      AppendedIsWellFormed(h, rule, inputs, outputCount);
      CountsAfterEvent(h, inputs);
      LargestOfAppended(h, rule, inputs, outputCount, old(largestGeneration));
    }

    lemma CountsAfterEvent(h: History, inputs: seq<TokenId>)
      requires WellFormed(h) && AreTokens(h, inputs)
      requires h.creators <= creatorEvents
      requires |events| == |h.events| + 1 && h.events <= events && events[|h.events|].inputs == inputs
      requires |destroyerEventsCounts| == |creatorEvents|
      requires forall t :: 0 <= t < |creatorEvents| ==>
                 destroyerEventsCounts[t] ==
                 (if t < |h.creators| then DestroyerCount(h.events, t) + multiset(inputs)[t] else 0)
      ensures CountsAreRight()
    {
      forall t | 0 <= t < |creatorEvents|
        ensures destroyerEventsCounts[t] == DestroyerCount(events, t)
      {
        assert events == h.events + [events[|h.events|]];
        DestroyerCountOfAppended(h.events, events[|h.events|], t);
        if t >= |h.creators| {
          NewTokensAreNotConsumed(h, t);
          assert t !in inputs;
        }
      }
    }

    method IncrementDestroyerEventsCount(inputs: seq<TokenId>)
      requires forall i :: 0 <= i < |inputs| ==> 0 <= inputs[i] < |destroyerEventsCounts|
      modifies this`destroyerEventsCounts
      ensures |destroyerEventsCounts| == old(|destroyerEventsCounts|)
      ensures forall t :: 0 <= t < |destroyerEventsCounts| ==>
                destroyerEventsCounts[t] == old(destroyerEventsCounts)[t] + multiset(inputs)[t]
    {
      for i := 0 to |inputs|
        invariant |destroyerEventsCounts| == old(|destroyerEventsCounts|)
        invariant forall t :: 0 <= t < |destroyerEventsCounts| ==>
                    destroyerEventsCounts[t] == old(destroyerEventsCounts)[t] + multiset(inputs[..i])[t]
      {
        assert inputs[..i + 1] == inputs[..i] + [inputs[i]];
        destroyerEventsCounts := destroyerEventsCounts[inputs[i] := destroyerEventsCounts[inputs[i]] + 1];
      }
      assert inputs[..|inputs|] == inputs;
    }

    method CreateTokens(creatorEvent: EventId, count: nat) returns (ids: seq<TokenId>)
      requires |destroyerEventsCounts| == |creatorEvents|
      modifies this`creatorEvents, this`destroyerEventsCounts
      ensures creatorEvents == old(creatorEvents) + Repeated(creatorEvent, count)
      ensures |destroyerEventsCounts| == |creatorEvents|
      ensures forall t :: 0 <= t < |creatorEvents| ==>
                destroyerEventsCounts[t] == if t < old(|creatorEvents|) then old(destroyerEventsCounts)[t] else 0
      ensures ids == IdsFrom(old(|creatorEvents|), count)
      ensures |ids| == count && forall i :: 0 <= i < count ==>
                ids[i] == old(|creatorEvents|) + i && creatorEvents[ids[i]] == creatorEvent
    {
      var beginIndex := |creatorEvents|;
      creatorEvents := creatorEvents + seq(count, i => creatorEvent);
      destroyerEventsCounts := destroyerEventsCounts + seq(count, i => 0);
      ids := IdsRange(beginIndex, |creatorEvents|);
    }

    static method IdsRange(beginIndex: TokenId, endIndex: TokenId) returns (ids: seq<TokenId>)
      requires beginIndex <= endIndex
      ensures ids == IdsFrom(beginIndex, endIndex - beginIndex)
      ensures |ids| == endIndex - beginIndex && forall i :: 0 <= i < |ids| ==> ids[i] == beginIndex + i
    {
      ids := [];
      for i := beginIndex to endIndex
        invariant ids == IdsFrom(beginIndex, i - beginIndex)
      {
        ids := ids + [i];
      }
    }

    // h is the history before the event that is being added; its events are still all of the events.
    method NewEventGeneration(inputs: seq<TokenId>, ghost h: History) returns (generation: int)
      requires WellFormed(h) && AreTokens(h, inputs) && h.events == events && h.creators <= creatorEvents
      ensures generation == NextGeneration(h, inputs)
    {
      generation := 0;
      for i := 0 to |inputs|
        invariant AreTokens(h, inputs[..i]) && generation == NextGeneration(h, inputs[..i])
      {
        assert inputs[..i + 1][..i] == inputs[..i];
        var next := events[creatorEvents[inputs[i]]].generation + 1;
        if generation < next {
          generation := next;
        }
      }
      assert inputs[..|inputs|] == inputs;
    }

    // h is the history before the last event.
    method AddLastEventDestroyerChoices(ghost h: History)
      requires tracksChoices && WellFormed(h) && WellFormed(History()) && Extends(h, History())
      requires |events| == |h.events| + 1
      requires isSpacelikeEvolution <==> Recorded(h, |h.events|).Some?
      requires destroyerChoices == if isSpacelikeEvolution then Recorded(h, |h.events|).value else []
      modifies this`destroyerChoices, this`isSpacelikeEvolution
      ensures ChoicesAreRecorded()
    {
      RecordedIsStable(h, History(), |h.events|);
      RecordedNext(History(), |h.events|);
      hide WellFormed, Recorded, Merge, Agree, InputsKnown;
      if !isSpacelikeEvolution {
        return;
      }
      var e := |events| - 1;
      var inputs := events[e].inputs;
      var newDestroyerChoices: Choices := map[];
      EventInputsKnown(History(), destroyerChoices, e);
      for i := 0 to |inputs|
        invariant InputsKnown(destroyerChoices, creatorEvents, inputs)
        invariant Merge(destroyerChoices, creatorEvents, inputs, e, i) == Some(newDestroyerChoices)
        invariant isSpacelikeEvolution && destroyerChoices == old(destroyerChoices)
      {
        var marked := newDestroyerChoices[inputs[i] := e];
        MergeNext(destroyerChoices, creatorEvents, inputs, e, i, newDestroyerChoices);
        var conflict;
        conflict, newDestroyerChoices := MergeChoices(marked, destroyerChoices[creatorEvents[inputs[i]]]);
        if conflict {
          isSpacelikeEvolution := false;
          destroyerChoices := [];
          return;
        }
      }
      destroyerChoices := destroyerChoices + [newDestroyerChoices];
    }

    static lemma RecordedNext(h: History, n: nat)
      requires WellFormed(h) && n < |h.events|
      ensures Recorded(h, n).None? ==> Recorded(h, n + 1).None?
      ensures Recorded(h, n).Some? ==>
                var choices, inputs := Recorded(h, n).value, h.events[n].inputs;
                && InputsKnown(choices, h.creators, inputs)
                && var merged := Merge(choices, h.creators, inputs, n, |inputs|);
                Recorded(h, n + 1) == if merged.Some? then Some(choices + [merged.value]) else None
    {
      if Recorded(h, n).Some? {
        EventInputsKnown(h, Recorded(h, n).value, n);
      }
    }

    static lemma MergeNext(
      choices: seq<Choices>, creators: seq<EventId>, inputs: seq<TokenId>, e: EventId, i: nat, m: Choices)
      requires InputsKnown(choices, creators, inputs) && i < |inputs| && Merge(choices, creators, inputs, e, i) == Some(m)
      ensures 0 <= inputs[i] < |creators| && 0 <= creators[inputs[i]] < |choices|
      ensures var marked, d := m[inputs[i] := e], choices[creators[inputs[i]]];
              if Agree(marked, d) then Merge(choices, creators, inputs, e, i + 1) == Some(marked + d)
              else Merge(choices, creators, inputs, e, |inputs|).None?
    {
      if !Agree(m[inputs[i] := e], choices[creators[inputs[i]]]) {
        MergeStaysNone(choices, creators, inputs, e, i + 1);
      }
    }

    static lemma {:induction false} MergeStaysNone(
      choices: seq<Choices>, creators: seq<EventId>, inputs: seq<TokenId>, e: EventId, n: nat)
      requires InputsKnown(choices, creators, inputs) && n <= |inputs|
      requires Merge(choices, creators, inputs, e, n).None?
      ensures Merge(choices, creators, inputs, e, |inputs|).None?
      decreases |inputs| - n
    {
      if n < |inputs| {
        MergeStaysNone(choices, creators, inputs, e, n + 1);
      }
    }

    // Adds the entries of d to m in no particular order, stopping at the first disagreement.
    static method MergeChoices(m: Choices, d: Choices) returns (conflict: bool, merged: Choices)
      ensures conflict <==> !Agree(m, d)
      ensures !conflict ==> merged == m + d
    {
      merged := m;
      var remaining := d.Keys;
      while remaining != {}
        invariant remaining <= d.Keys
        invariant forall t :: t in m && t in d && t !in remaining ==> m[t] == d[t]
        invariant merged.Keys == m.Keys + (d.Keys - remaining)
        invariant forall t :: t in merged ==>
                    merged[t] == if t in d && t !in remaining then d[t] else m[t]
      {
        var token := Pick(remaining);
        if token in merged && merged[token] != d[token] {
          return true, merged;
        }
        merged := merged[token := d[token]];
        remaining := remaining - {token};
      }
      if merged != m + d {
        var token := MapDifference(merged, m + d);
      }
      conflict := false;
    }

    function EventsCount(): int
      reads this`events
    {
      |events| - 1
    }

    function GenerationOf(token: TokenId): int
      requires 0 <= token < |creatorEvents| && 0 <= creatorEvents[token] < |events|
      reads this`events, this`creatorEvents
    {
      events[creatorEvents[token]].generation
    }

    method TokenSeparation(first: TokenId, second: TokenId) returns (separation: SeparationType)
      requires Consistent() && IsToken(History(), first) && IsToken(History(), second)
      ensures separation == TrackedSeparation(History(), tracksChoices, first, second)
    {
      if !isSpacelikeEvolution || !tracksChoices {
        return Unknown;
      } else if first == second {
        return Identical;
      }
      var firstChoices := destroyerChoices[creatorEvents[first]];
      var secondChoices := destroyerChoices[creatorEvents[second]];
      if second in firstChoices || first in secondChoices {
        return Timelike;
      }
      var remaining := firstChoices.Keys;
      while remaining != {}
        invariant remaining <= firstChoices.Keys
        invariant forall t :: t in firstChoices && t in secondChoices && t !in remaining ==>
                    firstChoices[t] == secondChoices[t]
      {
        var token := Pick(remaining);
        if token in secondChoices && secondChoices[token] != firstChoices[token] {
          return Branchlike;
        }
        remaining := remaining - {token};
      }
      separation := Spacelike;
    }
  }
}
