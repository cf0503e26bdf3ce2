/**
  Deduplication over whole runs. Matches are compared within one search only, but two matches of the
  same inputs are always found by the same search, so that nothing is ever pending or made twice.
 */
module GlobalDeduplication {
  import opened Types
  import opened Collections
  import opened CausalHistory
  import opened Matching
  import opened MatchOrder
  import opened TokenEventGraph
  import opened Deduplication
  import opened Evolution
  import opened Runs

  // The match is pending or became an event.
  ghost predicate IsMade(s: Snapshot, m: Match) {
    m in s.queue || Instantiated(s.history, m)
  }

  // Of all matches that were ever made, none repeats another.
  ghost predicate NothingRepeats(s: Snapshot, spec: OrderingSpec) {
    forall a, b :: IsMade(s, a) && IsMade(s, b) ==> !Repeats(spec, s.Space(s.indexed), a, b)
  }

  // Pending matches consist of tokens that were looked at.
  ghost predicate QueueIsOld(s: Snapshot) {
    forall m :: m in s.queue ==> !TouchesSet(m.inputs, s.unindexed)
  }

  // Whatever could happen was made, or repeats what was made.
  ghost predicate OnlyRepetitionsAreMissing(s: Snapshot, spec: OrderingSpec) {
    forall m :: s.Space(s.indexed).Allows(m) && !TouchesSet(m.inputs, s.unindexed) ==>
      IsMade(s, m) || RepeatsSome(s, spec, m)
  }

  ghost predicate RepeatsSome(s: Snapshot, spec: OrderingSpec, m: Match) {
    exists k :: IsMade(s, k) && Repeats(spec, s.Space(s.indexed), m, k)
  }

  ghost predicate IsDeduplicatedThroughout(s: Snapshot, spec: OrderingSpec) {
    NothingRepeats(s, spec) && QueueIsOld(s) && OnlyRepetitionsAreMissing(s, spec)
  }

  // ----- the same inputs

  lemma SameInputsTouchTheSame(a: Match, b: Match, tokens: set<TokenId>)
    requires SameInputs(a, b) && TouchesSet(a.inputs, tokens)
    ensures TouchesSet(b.inputs, tokens)
  {
    var i :| 0 <= i < |a.inputs| && a.inputs[i] in tokens;
    assert a.inputs[i] in Elements(b.inputs);
    var j :| 0 <= j < |b.inputs| && b.inputs[j] == a.inputs[i];
  }

  // Whenever one of two matches of the same inputs is found, so is the other one.
  lemma SameInputsAreFoundByOneSearch(s: Snapshot, s': Snapshot, a: Match, b: Match)
    requires SameInputs(a, b) && s'.Space(s'.indexed).Allows(a) && s'.Space(s'.indexed).Allows(b)
    ensures IsNewMatch(s, s', a) <==> IsNewMatch(s, s', b)
  {
    if TouchesSet(a.inputs, s.unindexed) {
      SameInputsTouchTheSame(a, b, s.unindexed);
    }
    if TouchesSet(b.inputs, s.unindexed) {
      SameInputsTouchTheSame(b, a, s.unindexed);
    }
  }

  // ----- looking for matches

  lemma RepetitionIgnoresPool(spec: OrderingSpec, s: Snapshot, s': Snapshot, a: Match, b: Match)
    requires s'.rules == s.rules && s'.contents == s.contents
    ensures Repeats(spec, s'.Space(s'.indexed), a, b) <==> Repeats(spec, s.Space(s.indexed), a, b)
  {
  }

  lemma KeptDoNotRepeat(
    spec: OrderingSpec, space: MatchSpace, found: set<Match>, kept: set<Match>, a: Match, b: Match)
    requires IsDeduplicated(Copies(spec, space, found), found, kept) && a in kept && b in kept
    requires space.Allows(a) && space.Allows(b)
    ensures !Repeats(spec, space, a, b)
  {
    var copies := Copies(spec, space, found);
    assert (a, b) !in copies;
  }

  // A match of tokens that were looked at before was allowed before.
  lemma OldMatchWasAllowed(s: Snapshot, s': Snapshot, m: Match)
    requires s'.rules == s.rules && s'.contents == s.contents && s'.history == s.history
    requires s'.tracksChoices == s.tracksChoices && s'.indexed == s.indexed + s.unindexed
    requires s'.Space(s'.indexed).Allows(m) && !TouchesSet(m.inputs, s.unindexed)
    ensures s.Space(s.indexed).Allows(m)
  {
    forall i | 0 <= i < |m.inputs|
      ensures m.inputs[i] in s.indexed
    {
      assert m.inputs[i] in s'.indexed;
    }
  }

  // A repetition of what was made repeats it still.
  lemma RepetitionStays(s: Snapshot, s': Snapshot, spec: OrderingSpec, m: Match)
    requires s'.rules == s.rules && s'.contents == s.contents
    requires forall k :: IsMade(s, k) ==> IsMade(s', k)
    requires RepeatsSome(s, spec, m)
    ensures RepeatsSome(s', spec, m)
  {
    var k :| IsMade(s, k) && Repeats(spec, s.Space(s.indexed), m, k);
    RepetitionIgnoresPool(spec, s, s', m, k);
  }

  lemma CompletedSearch(s: Snapshot, s': Snapshot, spec: OrderingSpec)
    requires Invariant(s) && IsDeduplicatedThroughout(s, spec) && IsIndexed(s, s', spec, true)
    ensures IsDeduplicatedThroughout(s', spec)
  {
    var found, kept :| AddsDeduplicated(s, s', spec, found, kept);
    forall a, b | IsMade(s', a) && IsMade(s', b)
      ensures !Repeats(spec, s'.Space(s'.indexed), a, b)
    {
      MadeIsFoundOrOld(s, s', spec, found, kept, a, b);
    }
    forall m | s'.Space(s'.indexed).Allows(m)
      ensures IsMade(s', m) || RepeatsSome(s', spec, m)
    {
      AllowedIsMade(s, s', spec, found, kept, m);
    }
  }

  lemma MadeIsFoundOrOld(
    s: Snapshot, s': Snapshot, spec: OrderingSpec, found: set<Match>, kept: set<Match>, a: Match, b: Match)
    requires Invariant(s) && NothingRepeats(s, spec) && QueueIsOld(s)
    requires IsSearched(s, s') && AddsDeduplicated(s, s', spec, found, kept)
    requires IsMade(s', a) && IsMade(s', b)
    ensures !Repeats(spec, s'.Space(s'.indexed), a, b)
  {
    hide Invariant, LooksTheSame;
    RepetitionIgnoresPool(spec, s, s', a, b);
    if Repeats(spec, s'.Space(s'.indexed), a, b) {
      NewIsNotMade(s, s', spec, found, kept, a);
      NewIsNotMade(s, s', spec, found, kept, b);
      if TouchesSet(a.inputs, s.unindexed) {
        SameInputsTouchTheSame(a, b, s.unindexed);
        FoundIsAllowed(s, s', spec, found, kept, a);
        FoundIsAllowed(s, s', spec, found, kept, b);
        KeptDoNotRepeat(spec, s'.Space(s'.indexed), found, kept, a, b);
      } else if TouchesSet(b.inputs, s.unindexed) {
        SameInputsTouchTheSame(b, a, s.unindexed);
      }
    }
  }

  // What touches a new token was not made before; what does not was.
  lemma NewIsNotMade(s: Snapshot, s': Snapshot, spec: OrderingSpec, found: set<Match>, kept: set<Match>, m: Match)
    requires Invariant(s) && QueueIsOld(s) && IsSearched(s, s') && AddsDeduplicated(s, s', spec, found, kept)
    requires IsMade(s', m)
    ensures TouchesSet(m.inputs, s.unindexed) ==> m in kept && !IsMade(s, m)
    ensures !TouchesSet(m.inputs, s.unindexed) ==> IsMade(s, m)
  {
    if TouchesSet(m.inputs, s.unindexed) {
      UnusedTokenIsNotInstantiated(s.history, m, s.unindexed);
    } else if m in kept && m in s.leftover {
      assert IsLeftBehind(s, m);
    }
  }

  lemma FoundIsAllowed(s: Snapshot, s': Snapshot, spec: OrderingSpec, found: set<Match>, kept: set<Match>, m: Match)
    requires Invariant(s) && IsSearched(s, s') && AddsDeduplicated(s, s', spec, found, kept) && m in found
    ensures s'.Space(s'.indexed).Allows(m)
  {
    if m in s.leftover {
      assert IsLeftBehind(s, m);
    }
  }

  lemma AllowedIsMade(s: Snapshot, s': Snapshot, spec: OrderingSpec, found: set<Match>, kept: set<Match>, m: Match)
    requires Invariant(s) && OnlyRepetitionsAreMissing(s, spec)
    requires IsSearched(s, s') && AddsDeduplicated(s, s', spec, found, kept)
    requires s'.Space(s'.indexed).Allows(m)
    ensures IsMade(s', m) || RepeatsSome(s', spec, m)
  {
    hide Invariant, Repeats;
    if TouchesSet(m.inputs, s.unindexed) {
      assert IsNewMatch(s, s', m) && m in found;
      if m !in kept {
        var k :| k in kept && (m, k) in Copies(spec, s'.Space(s'.indexed), found);
        assert IsMade(s', k) && Repeats(spec, s'.Space(s'.indexed), m, k);
      }
    } else {
      OldMatchWasAllowed(s, s', m);
      if !IsMade(s, m) {
        RepetitionStays(s, s', spec, m);
      }
    }
  }

  // An interrupted search leaves the queue alone.
  lemma InterruptedSearch(s: Snapshot, s': Snapshot, spec: OrderingSpec)
    requires IsDeduplicatedThroughout(s, spec) && IsSearched(s, s')
    requires s'.queue == s.queue && s'.unindexed == s.unindexed
    ensures IsDeduplicatedThroughout(s', spec)
  {
    hide Repeats;
    forall a, b | IsMade(s', a) && IsMade(s', b)
      ensures !Repeats(spec, s'.Space(s'.indexed), a, b)
    {
      RepetitionIgnoresPool(spec, s, s', a, b);
    }
    forall m | s'.Space(s'.indexed).Allows(m) && !TouchesSet(m.inputs, s'.unindexed)
      ensures IsMade(s', m) || RepeatsSome(s', spec, m)
    {
      OldMatchWasAllowed(s, s', m);
      if !IsMade(s, m) {
        RepetitionStays(s, s', spec, m);
      }
    }
  }

  // ----- raising the generation limit

  lemma TouchesMore(a: seq<TokenId>, tokens: set<TokenId>, more: set<TokenId>)
    requires forall t :: t in tokens ==> t in more
    ensures TouchesSet(a, tokens) ==> TouchesSet(a, more)
  {
    if i :| 0 <= i < |a| && a[i] in tokens {
      var t := a[i];
      assert t in more;
    }
  }

  lemma RaisedLimit(s: Snapshot, s': Snapshot, spec: OrderingSpec)
    requires Invariant(s) && IsDeduplicatedThroughout(s, spec) && s.maxGeneration < s'.maxGeneration
    requires s' == s.(maxGeneration := s'.maxGeneration, unindexed := s'.unindexed)
    requires forall t :: t in s'.unindexed <==>
               t in s.unindexed || (IsToken(s.history, t) && TokenGeneration(s.history, t) == s.maxGeneration)
    ensures IsDeduplicatedThroughout(s', spec)
  {
    hide Repeats;
    forall m | m in s'.queue
      ensures !TouchesSet(m.inputs, s'.unindexed)
    {
      PendingInputs(s, m);
      assert !TouchesSet(m.inputs, s.unindexed);
      forall i | 0 <= i < |m.inputs|
        ensures m.inputs[i] !in s'.unindexed
      {
        var t := m.inputs[i];
        assert t !in s.unindexed;
      }
    }
    forall m | s'.Space(s'.indexed).Allows(m) && !TouchesSet(m.inputs, s'.unindexed)
      ensures IsMade(s', m) || RepeatsSome(s', spec, m)
    {
      TouchesMore(m.inputs, s.unindexed, s'.unindexed);
      if !IsMade(s, m) {
        RepetitionStays(s, s', spec, m);
      }
    }
  }

  // ----- events

  // The outputs of a match depend on the contents of its inputs only.
  lemma OutputsDependOnContents(space: MatchSpace, space': MatchSpace, m: Match, m': Match)
    requires space'.rules == space.rules && GroundContents(space.contents) && GroundContents(space'.contents)
    requires m'.rule == m.rule && |m'.inputs| == |m.inputs|
    requires forall i :: 0 <= i < |m.inputs| ==>
               && m.inputs[i] in space.contents && m'.inputs[i] in space'.contents
               && space'.contents[m'.inputs[i]] == space.contents[m.inputs[i]]
    ensures space'.IsExplained(m') <==> space.IsExplained(m)
    ensures space.IsExplained(m) ==> space'.Outputs(m') == space.Outputs(m)
  {
    if 0 <= m.rule < |space.rules| {
      var patterns := space.rules[m.rule].inputs;
      assert forall s :: Explains(s, patterns, space.contents, m.inputs) <==>
                         Explains(s, patterns, space'.contents, m'.inputs);
      if space.IsExplained(m) {
        var explanation := Explanation(patterns, space.contents, m.inputs);
        ExplanationExplains(patterns, space.contents, m.inputs);
        ExplanationIsUnique(patterns, space'.contents, m'.inputs, explanation);
      }
    }
  }

  // Old matches have the outputs they had.
  lemma OutputsAreStable(space: MatchSpace, space': MatchSpace, m: Match)
    requires space'.rules == space.rules && GroundContents(space.contents) && GroundContents(space'.contents)
    requires forall t :: t in space.contents ==> t in space'.contents && space'.contents[t] == space.contents[t]
    requires forall i :: 0 <= i < |m.inputs| ==> m.inputs[i] in space.contents
    ensures space'.IsExplained(m) <==> space.IsExplained(m)
    ensures space.IsExplained(m) ==> space'.Outputs(m) == space.Outputs(m)
  {
    forall i | 0 <= i < |m.inputs|
      ensures m.inputs[i] in space'.contents && space'.contents[m.inputs[i]] == space.contents[m.inputs[i]]
    {
      var t := m.inputs[i];
      assert t in space.contents;
    }
    OutputsDependOnContents(space, space', m, m);
  }

  lemma ExplanationExplains(patterns: seq<AtomsVector>, contents: Contents, a: seq<TokenId>)
    requires exists s :: Explains(s, patterns, contents, a)
    ensures Explains(Explanation(patterns, contents, a), patterns, contents, a)
    ensures forall x :: x in Explanation(patterns, contents, a) ==> IsInputAtom(patterns, x)
  {
  }

  lemma RepetitionIsStable(s: Snapshot, s': Snapshot, spec: OrderingSpec, a: Match, b: Match)
    requires s'.rules == s.rules && GroundContents(s.contents) && GroundContents(s'.contents)
    requires forall t :: t in s.contents ==> t in s'.contents && s'.contents[t] == s.contents[t]
    requires forall i :: 0 <= i < |a.inputs| ==> a.inputs[i] in s.contents
    requires forall i :: 0 <= i < |b.inputs| ==> b.inputs[i] in s.contents
    ensures Repeats(spec, s'.Space(s'.indexed), a, b) <==> Repeats(spec, s.Space(s.indexed), a, b)
  {
    hide GroundContents;
    OutputsAreStable(s.Space(s.indexed), s'.Space(s'.indexed), a);
    OutputsAreStable(s.Space(s.indexed), s'.Space(s'.indexed), b);
  }

  lemma MadeInputs(s: Snapshot, m: Match)
    requires Invariant(s) && IsMade(s, m)
    ensures forall i :: 0 <= i < |m.inputs| ==> m.inputs[i] in s.contents
  {
    if m in s.queue {
      PendingInputs(s, m);
    } else {
      var e :| 0 <= e < |s.history.events| && s.history.events[e].rule == m.rule &&
               s.history.events[e].inputs == m.inputs;
      forall i | 0 <= i < |m.inputs|
        ensures m.inputs[i] in s.contents
      {
        assert Consumes(s.history, e, m.inputs[i]);
      }
    }
  }

  lemma EventIsDeduplicated(s: Snapshot, s': Snapshot, m: Match, n: nat, spec: OrderingSpec)
    requires CanHappen(s, m) && AreTokens(s.history, m.inputs) && IsEvent(s, s', m, n)
    requires IsDeduplicatedThroughout(s, spec)
    ensures IsDeduplicatedThroughout(s', spec)
  {
    hide Repeats, Invariant;
    EventKeepsInvariant(s, s', m, n);
    forall x
      ensures IsMade(s', x) ==> IsMade(s, x)
    {
      OnlyNewInstance(s.history, s'.history, m, x);
    }
    forall a, b | IsMade(s', a) && IsMade(s', b)
      ensures !Repeats(spec, s'.Space(s'.indexed), a, b)
    {
      MadeInputs(s, a);
      MadeRepetition(s, s', m, n, spec, a, b);
    }
    forall x | x in s'.queue
      ensures !TouchesSet(x.inputs, s'.unindexed)
    {
      PendingInputs(s, x);
    }
    forall x | s'.Space(s'.indexed).Allows(x)
      ensures IsMade(s', x) || RepeatsSome(s', spec, x)
    {
      AllowedAfterEvent(s, s', m, n, spec, x);
    }
  }

  lemma MadeRepetition(s: Snapshot, s': Snapshot, m: Match, n: nat, spec: OrderingSpec, a: Match, b: Match)
    requires CanHappen(s, m) && AreTokens(s.history, m.inputs) && IsEvent(s, s', m, n)
    requires IsMade(s, b) && forall i :: 0 <= i < |a.inputs| ==> a.inputs[i] in s.contents
    ensures Repeats(spec, s'.Space(s'.indexed), a, b) <==> Repeats(spec, s.Space(s.indexed), a, b)
  {
    hide Repeats;
    MadeInputs(s, b);
    RepetitionIsStable(s, s', spec, a, b);
  }

  lemma AllowedAfterEvent(s: Snapshot, s': Snapshot, m: Match, n: nat, spec: OrderingSpec, x: Match)
    requires CanHappen(s, m) && AreTokens(s.history, m.inputs) && IsEvent(s, s', m, n)
    requires OnlyRepetitionsAreMissing(s, spec) && s'.Space(s'.indexed).Allows(x)
    ensures IsMade(s', x) || RepeatsSome(s', spec, x)
  {
    hide Repeats, CanHappen, IsEvent, IsMatch;
    StillAllowed(s, s', m, n, x);
    if IsMade(s, x) {
      StaysMade(s, s', m, n, x);
    } else {
      var k :| IsMade(s, k) && Repeats(spec, s.Space(s.indexed), x, k);
      assert SameInputs(x, k) by {
        RepetitionHasSameInputs(spec, s.Space(s.indexed), x, k);
      }
      forall i | 0 <= i < |k.inputs|
        ensures !IsSaturatedBy(s', m, k.inputs[i])
      {
        assert k.inputs[i] in Elements(x.inputs);
      }
      StaysMade(s, s', m, n, k);
      MadeRepetition(s, s', m, n, spec, x, k);
    }
  }

  lemma RepetitionHasSameInputs(spec: OrderingSpec, space: MatchSpace, a: Match, b: Match)
    requires Repeats(spec, space, a, b)
    ensures SameInputs(a, b)
  {
  }

  // What is allowed after an event was allowed before, and avoids what the event used up.
  lemma StillAllowed(s: Snapshot, s': Snapshot, m: Match, n: nat, x: Match)
    requires CanHappen(s, m) && AreTokens(s.history, m.inputs) && IsEvent(s, s', m, n)
    requires s'.Space(s'.indexed).Allows(x)
    ensures s.Space(s.indexed).Allows(x) && !TouchesSet(x.inputs, s.unindexed)
    ensures forall i :: 0 <= i < |x.inputs| ==> x.inputs[i] in s.contents && !IsSaturatedBy(s', m, x.inputs[i])
  {
    EventHistory(s, s', m, n);
    OldMatchesAreStable(s, s', s'.indexed, x);
    forall i | 0 <= i < |x.inputs|
      ensures x.inputs[i] in s.indexed && x.inputs[i] in s.contents && !IsSaturatedBy(s', m, x.inputs[i])
    {
      var t := x.inputs[i];
      assert t in s'.indexed && Eligible(s, t);
    }
  }

  lemma StaysMade(s: Snapshot, s': Snapshot, m: Match, n: nat, k: Match)
    requires CanHappen(s, m) && AreTokens(s.history, m.inputs) && IsEvent(s, s', m, n) && IsMade(s, k)
    requires forall i :: 0 <= i < |k.inputs| ==> !IsSaturatedBy(s', m, k.inputs[i])
    ensures IsMade(s', k)
  {
    OnlyNewInstance(s.history, s'.history, m, k);
  }

  // ----- what it means

  // Every match of tokens that may still be consumed is an event already, or repeats one.
  ghost predicate IsFixedPointUpToRepetition(s: Snapshot, spec: OrderingSpec) {
    forall m :: s.Space(UnsaturatedTokens(s)).Allows(m) ==>
      Instantiated(s.history, m) || exists k :: Instantiated(s.history, k) && Repeats(spec, s.Space(s.indexed), m, k)
  }

  lemma EmptyQueueIsFixedPointUpToRepetition(s: Snapshot, spec: OrderingSpec)
    requires Invariant(s) && IsDeduplicatedThroughout(s, spec) && s.unindexed == {} && s.queue == {}
    requires forall e :: 0 <= e < |s.history.events| ==> s.history.events[e].generation < s.maxGeneration
    ensures IsFixedPointUpToRepetition(s, spec)
  {
    hide Repeats;
    SameElements(s.indexed, UnsaturatedTokens(s));
    forall m | s.Space(UnsaturatedTokens(s)).Allows(m)
      ensures Instantiated(s.history, m) ||
              exists k :: Instantiated(s.history, k) && Repeats(spec, s.Space(s.indexed), m, k)
    {
      if !IsMade(s, m) {
        assert RepeatsSome(s, spec, m);
      }
    }
  }

  lemma NothingIsDeduplicated(s: Snapshot, spec: OrderingSpec)
    requires s.queue == {} && s.indexed == {}
    requires forall m :: Instantiated(s.history, m) ==> m.inputs == [] && m.rule < 0
    ensures IsDeduplicatedThroughout(s, spec)
  {
    forall m
      ensures !s.Space(s.indexed).Allows(m)
    {
      var a := m.inputs;
      assert a != [] ==> a[0] !in s.indexed;
    }
  }

  // ----- with and without deduplication

  // Nothing that could happen is missing from the queue, or only repetitions are.
  ghost predicate QueueIsRight(s: Snapshot, spec: OrderingSpec, deduplicates: bool)
    requires WellFormed(s.history)
  {
    if deduplicates then IsDeduplicatedThroughout(s, spec) else QueueIsComplete(s)
  }

  // Nothing that could happen is left, or only repetitions of events are.
  ghost predicate IsFinal(s: Snapshot, spec: OrderingSpec, deduplicates: bool) {
    if deduplicates then IsFixedPointUpToRepetition(s, spec) else IsFixedPoint(s)
  }

  // Every match of tokens that may still be consumed is an event already.
  ghost predicate IsFixedPoint(s: Snapshot) {
    forall m :: s.Space(UnsaturatedTokens(s)).Allows(m) ==> Instantiated(s.history, m)
  }

  lemma EmptyIsFinal(s: Snapshot, spec: OrderingSpec, deduplicates: bool, largest: int)
    requires Invariant(s) && QueueIsRight(s, spec, deduplicates) && s.unindexed == {} && s.queue == {}
    requires IsLargestGeneration(s.history, largest) && largest != s.maxGeneration && s.history.events != []
    ensures IsFinal(s, spec, deduplicates)
  {
    if deduplicates {
      EmptyQueueIsFixedPointUpToRepetition(s, spec);
    } else {
      EmptyQueueIsFixedPoint(s);
    }
  }

  lemma RaisingKeepsQueueRight(s: Snapshot, s': Snapshot, spec: OrderingSpec, deduplicates: bool)
    requires Invariant(s) && QueueIsRight(s, spec, deduplicates) && s.maxGeneration < s'.maxGeneration
    requires s' == s.(maxGeneration := s'.maxGeneration, unindexed := s'.unindexed)
    requires forall t :: t in s'.unindexed <==>
               t in s.unindexed || (IsToken(s.history, t) && TokenGeneration(s.history, t) == s.maxGeneration)
    ensures QueueIsRight(s', spec, deduplicates)
  {
    if deduplicates {
      RaisedLimit(s, s', spec);
    } else {
      RaisingEvolves(s, s');
    }
  }

  lemma EventKeepsQueueRight(
    s: Snapshot, s': Snapshot, m: Match, n: nat, spec: OrderingSpec, deduplicates: bool)
    requires CanHappen(s, m) && AreTokens(s.history, m.inputs) && IsEvent(s, s', m, n)
    requires QueueIsRight(s, spec, deduplicates)
    ensures WellFormed(s'.history) && QueueIsRight(s', spec, deduplicates)
  {
    hide IsDeduplicatedThroughout, QueueIsComplete;
    if deduplicates {
      EventIsDeduplicated(s, s', m, n, spec);
    } else {
      EventKeepsInvariant(s, s', m, n);
    }
  }
}
