/** What the parts of a step do to the state of an evolution, as relations on values. */
module Steps {
  import opened Types
  import opened Collections
  import opened CausalHistory
  import opened Matching
  import opened MatchOrder
  import opened FreshNames
  import opened AtomDegrees
  import opened LiveAtoms
  import opened SelectionFunctions
  import opened Evolution
  import opened Termination
  import opened Runs
  import opened Deduplication
  import opened GlobalDeduplication
  import Graph = TokenEventGraph
  import Index = AtomsIndex

  // All limits are "up to"; the largest integer disables one.
  datatype StepSpecification = StepSpecification(
    maxEvents: int, maxGenerationsLocal: int, maxFinalAtoms: int, maxFinalAtomDegree: int, maxFinalTokens: int)

  const UNLIMITED: StepSpecification :=
    StepSpecification(MAX_INT64, MAX_INT64, MAX_INT64, MAX_INT64, MAX_INT64)
  // The specification of a new system: it allows no events and no generations.
  const NOTHING: StepSpecification := StepSpecification(0, 0, 0, 0, 0)

  // How often a token is consumed at most. Nothing stops the first time.
  function DestroyerLimit(maxDestroyerEvents: int): Option<int> {
    if maxDestroyerEvents == MAX_INT64 then None
    else Some(if maxDestroyerEvents == 0 then 1 else maxDestroyerEvents)
  }

  ghost predicate InLimit(value: int, limit: int) {
    limit == MAX_INT64 || value <= limit
  }

  // ----- adding tokens, one after another

  ghost predicate AddsContents(before: Contents, after: Contents, ids: seq<TokenId>, vectors: seq<AtomsVector>) {
    && (forall t :: t in after <==> t in before || t in ids)
    && (forall t :: t in before ==> after[t] == before[t])
    && AreContents(after, ids, vectors)
  }

  lemma AddsNextContents(
    before: Contents, middle: Contents, ids: seq<TokenId>, vectors: seq<AtomsVector>, i: nat)
    requires i < |ids| == |vectors| && Distinct(ids) && forall t :: t in ids ==> t !in before
    requires AddsContents(before, middle, ids[..i], vectors[..i])
    ensures AddsContents(before, middle[ids[i] := vectors[i]], ids[..i + 1], vectors[..i + 1])
  {
    var id := ids[i];
    var after := middle[id := vectors[i]];
    assert ids[..i + 1] == ids[..i] + [id];
    forall t
      ensures t in after <==> t in before || t in ids[..i + 1]
    {
    }
    forall k | 0 <= k < i + 1
      ensures ids[..i + 1][k] in after && after[ids[..i + 1][k]] == vectors[k]
    {
      var t := ids[k];
      if k < i {
        assert ids[..i][k] == t && t in middle && middle[t] == vectors[..i][k];
      }
    }
  }

  // Tokens of the last generation are left out.
  ghost predicate AddsEarlier(h: History, g: int, before: seq<TokenId>, after: seq<TokenId>, ids: seq<TokenId>)
    requires WellFormed(h)
  {
    forall t :: t in after <==> t in before || (t in ids && IsToken(h, t) && Graph.TokenGeneration(h, t) < g)
  }

  lemma AddsNextEarlier(h: History, g: int, before: seq<TokenId>, middle: seq<TokenId>, ids: seq<TokenId>, i: nat)
    requires WellFormed(h) && i < |ids| && IsToken(h, ids[i]) && AddsEarlier(h, g, before, middle, ids[..i])
    ensures AddsEarlier(
              h, g, before, if Graph.TokenGeneration(h, ids[i]) < g then middle + [ids[i]] else middle, ids[..i + 1])
  {
    assert ids[..i + 1] == ids[..i] + [ids[i]];
  }

  // ----- the initial state

  lemma NoNewIds(unindexed: seq<TokenId>, h: History, ids: seq<TokenId>)
    requires WellFormed(h) && AddsEarlier(h, 0, [], unindexed, ids)
    requires forall e :: 0 <= e < |h.events| ==> h.events[e].generation == 0
    ensures unindexed == []
  {
    assert unindexed == [] || unindexed[0] in unindexed;
    forall t
      ensures t !in unindexed
    {
      assert IsToken(h, t) ==> h.events[h.creators[t]].generation == 0;
    }
  }

  ghost predicate IsInitial(s: Snapshot, initialTokens: seq<AtomsVector>, ids: seq<TokenId>) {
    && s.history == Graph.Appended(History([], []), INITIAL_CONDITION_RULE, [], |initialTokens|)
    && ids == Graph.IdsFrom(0, |initialTokens|)
    && AddsContents(map[], s.contents, ids, initialTokens)
    && (forall i, x :: 0 <= i < |initialTokens| && x in initialTokens[i] ==> x > 0)
    && s.maxGeneration == 0 && (s.limit.Some? ==> s.limit.value >= 1)
    && s.indexed == {} && s.unindexed == {} && s.queue == {} && s.leftover == {}
  }

  lemma NothingHappened(s: Snapshot, initialTokens: seq<AtomsVector>, ids: seq<TokenId>)
    requires IsInitial(s, initialTokens, ids)
    ensures Invariant(s)
    ensures forall spec, deduplicates :: QueueIsRight(s, spec, deduplicates)
  {
    InitialTokensAreRight(s, initialTokens, ids);
    forall t
      ensures Graph.DestroyerCount(s.history.events, t) == 0
    {
      Graph.CountedIffConsumed(s.history.events, t);
    }
    forall m
      ensures !s.Space(s.indexed).Allows(m)
    {
      NothingFromNothing(s.Space(s.indexed), m);
    }
    forall spec, deduplicates
      ensures QueueIsRight(s, spec, deduplicates)
    {
      NothingIsDeduplicated(s, spec);
    }
  }

  // If the rules agree about selection, no conflict is ever noticed, from the creation of the system on.
  lemma TrackingStaysIntact(
    s: Snapshot, s': Snapshot, initialTokens: seq<AtomsVector>, ids: seq<TokenId>, rules: seq<Rule>,
    maxDestroyerEvents: int)
    requires IsInitial(s, initialTokens, ids) && Invariant(s) && Invariant(s') && Evolves(s, s')
    requires s.rules == Optimized(rules, maxDestroyerEvents)
    requires s.tracksChoices == NeedsSeparation(maxDestroyerEvents, rules)
    requires AllSelective(rules) || forall i :: 0 <= i < |rules| ==> rules[i].selection == SelectAll
    ensures TrackingIsIntact(s')
  {
    InitialHistoryIsSpacelike(|initialTokens|);
    UniformRulesKeepTracking(s', rules, maxDestroyerEvents);
  }

  lemma NothingFromNothing(space: MatchSpace, m: Match)
    requires space.pool == {}
    ensures !space.Allows(m)
  {
    var a := m.inputs;
    if a != [] {
      var t := a[0];
      assert FromPool(space.pool, a) ==> t in space.pool;
    }
  }

  lemma InitialTokensAreRight(s: Snapshot, initialTokens: seq<AtomsVector>, ids: seq<TokenId>)
    requires IsInitial(s, initialTokens, ids)
    ensures TokensAreRight(s)
  {
    var h := History([], []);
    Graph.AppendedIsLayered(h, INITIAL_CONDITION_RULE, [], |initialTokens|);
    forall t
      ensures t in s.contents <==> IsToken(s.history, t)
      ensures t in s.contents ==> IsGround(s.contents[t])
    {
      if IsToken(s.history, t) {
        assert ids[t] == t;
        assert forall k :: 0 <= k < |initialTokens[t]| ==> initialTokens[t][k] in initialTokens[t];
      }
    }
  }

  lemma InitialDegrees(s: Snapshot, degrees: Degrees, initialTokens: seq<AtomsVector>, ids: seq<TokenId>)
    requires IsInitial(s, initialTokens, ids)
    requires HasNoZeros(degrees) && forall x :: At(degrees, x) == DegreeIn(initialTokens, x)
    ensures DegreesAreRight(degrees, s.contents, LiveOf(s)) && |LiveOf(s)| == |initialTokens|
  {
    forall t
      ensures Graph.DestroyerCount(s.history.events, t) == 0
    {
      Graph.CountedIffConsumed(s.history.events, t);
    }
    SameElements(LiveOf(s), {} + Elements(ids));
    DistinctSize(ids);
    SameElements(LiveOf(s), Elements(ids));
    forall x
      ensures LiveDegree(s.contents, LiveOf(s), x) == DegreeIn(initialTokens, x)
    {
      AddLive(s.contents, {}, ids, initialTokens, x);
      assert TokensWith(s.contents, {}, x) == {};
    }
  }

  // ----- searching

  // Everything the matcher relies on.
  lemma SearchCanStart(s: Snapshot, unindexed: seq<TokenId>)
    requires Invariant(s) && s.unindexed == Elements(unindexed)
    ensures Index.AreKnown(s.contents, unindexed) && FromPool(s.indexed + s.unindexed, unindexed)
    ensures GroundContents(s.contents)
    ensures forall t :: t in s.indexed + s.unindexed ==> IsToken(s.history, t) && t >= 0
    ensures AllAllowed(s.Space(s.indexed + s.unindexed), s.leftover)
  {
    forall i | 0 <= i < |unindexed|
      ensures unindexed[i] in s.contents && unindexed[i] in s.unindexed
    {
      var t := unindexed[i];
      assert t in unindexed;
      assert t in s.unindexed && Eligible(s, t);
    }
    forall m | m in s.leftover
      ensures s.Space(s.indexed + s.unindexed).Allows(m)
    {
      assert IsLeftBehind(s, m);
    }
  }

  // ----- what an event does

  ghost predicate Avoids(m: Match, ids: seq<TokenId>) {
    forall t :: t in ids ==> t !in m.inputs
  }

  // Of the matches other than m, those that avoid the tokens are left.
  ghost predicate Leaves(before: set<Match>, after: set<Match>, m: Match, ids: seq<TokenId>) {
    forall x :: x in after <==> x in before && x != m && Avoids(x, ids)
  }

  lemma NamedIsGround(outputs: seq<AtomsVector>, start: Atom)
    requires start >= 0
    ensures forall i :: 0 <= i < |outputs| ==> IsGround(RenameAll(Naming(Flatten(outputs), start), outputs)[i])
  {
    NamesAreFresh(Flatten(outputs), start);
    forall i, k | 0 <= i < |outputs| && 0 <= k < |outputs[i]|
      ensures Rename(Naming(Flatten(outputs), start), outputs[i][k]) >= 0
    {
      assert outputs[i][k] in outputs[i];
      FlattenMember(outputs, outputs[i][k]);
    }
  }

  // Of the new tokens, those that are not in the last generation still have to be looked at.
  ghost predicate AreUnindexed(h: History, g: int, unindexed: set<TokenId>, ids: seq<TokenId>)
    requires WellFormed(h)
  {
    forall t :: t in unindexed <==> t in ids && IsToken(h, t) && Graph.TokenGeneration(h, t) < g
  }

  // The changes one by one make up the event.
  ghost predicate IsApplied(
    s: Snapshot, s': Snapshot, m: Match, ids: seq<TokenId>, named: seq<AtomsVector>, removed: seq<TokenId>)
    requires WellFormed(s.history) && Graph.AreTokens(s.history, m.inputs)
  {
    && s'.rules == s.rules && s'.tracksChoices == s.tracksChoices
    && s'.maxGeneration == s.maxGeneration && s'.limit == s.limit
    && s'.history == Graph.Appended(s.history, m.rule, m.inputs, |named|) && WellFormed(s'.history)
    && ids == Graph.IdsFrom(|s.history.creators|, |named|)
    && AddsContents(s.contents, s'.contents, ids, named)
    && AreUnindexed(s'.history, s.maxGeneration, s'.unindexed, ids)
    && (forall t :: t in removed <==> IsSaturatedBy(s', m, t))
    && s'.indexed == s.indexed - Elements(removed)
    && Leaves(s.queue, s'.queue, m, removed)
    && s'.leftover == {}
  }

  lemma AppliedIsEvent(
    s: Snapshot, s': Snapshot, m: Match, ids: seq<TokenId>, named: seq<AtomsVector>, removed: seq<TokenId>)
    requires TokensAreRight(s) && Graph.AreTokens(s.history, m.inputs)
    requires IsApplied(s, s', m, ids, named, removed)
    requires forall i :: 0 <= i < |named| ==> IsGround(named[i])
    ensures IsEvent(s, s', m, |named|)
  {
    forall t
      ensures t in ids <==> IsNewToken(s, s', t)
    {
      if IsNewToken(s, s', t) {
        assert ids[t - |s.history.creators|] == t;
      }
    }
    forall t | t in s'.contents
      ensures IsGround(s'.contents[t])
    {
      if t !in s.contents {
        var i :| 0 <= i < |ids| && ids[i] == t;
        assert s'.contents[ids[i]] == named[i];
      }
    }
    forall x | x in s.queue
      ensures Avoids(x, removed) <==> forall t :: t in x.inputs ==> !IsSaturatedBy(s', m, t)
    {
    }
  }

  // No atom is beyond the counter, unless rules name such atoms.
  ghost predicate CounterIsBeyond(s: Snapshot, counter: Atom) {
    counter >= 1 && forall n :: n >= counter && RuleAtomsUpTo(s.rules, n) ==> AtomsUpTo(s.contents, n)
  }

  // Atoms are numbered up to the counter, unless rules name others, and the counts for the limits are right.
  ghost predicate AreCounted(
    s: Snapshot, maxDestroyerEvents: int, nextAtom: Atom, destroyedTokenCount: int, degrees: Degrees)
  {
    && nextAtom <= MAX_INT64 && CounterIsBeyond(s, nextAtom)
    && (maxDestroyerEvents == 1 ==>
          && DegreesAreRight(degrees, s.contents, LiveOf(s))
          && |s.history.creators| - destroyedTokenCount == |LiveOf(s)|)
  }

  lemma ReplacedIsCountedRight(
    contents: Contents, contents': Contents, live: set<TokenId>, live': set<TokenId>, ids: seq<TokenId>,
    inputs: seq<AtomsVector>, ids': seq<TokenId>, outputs: seq<AtomsVector>, degrees: Degrees, degrees': Degrees)
    requires IsReplaced(live, live', ids, ids')
    requires AreContents(contents, ids, inputs) && AreContents(contents', ids', outputs)
    requires forall t :: t in live ==> t in contents && t in contents' && contents'[t] == contents[t]
    requires DegreesAreRight(degrees, contents, live) && HasNoZeros(degrees')
    requires forall x :: At(degrees', x) == After(degrees, inputs, outputs, x)
    ensures DegreesAreRight(degrees', contents', live')
  {
    forall x
      ensures LiveDegree(contents', live', x) == At(degrees', x)
    {
      ReplacedDegree(contents, contents', live, live', ids, inputs, ids', outputs, x);
    }
  }

  // The live tokens and their atoms are counted right after the event, too.
  lemma EventIsCountedRight(
    s: Snapshot, s': Snapshot, m: Match, inputs: seq<AtomsVector>, named: seq<AtomsVector>,
    degrees: Degrees, degrees': Degrees)
    requires CanHappen(s, m) && Graph.AreTokens(s.history, m.inputs) && IsEvent(s, s', m, |named|) && s.limit == Some(1)
    requires AreContents(s.contents, m.inputs, inputs)
    requires AreContents(s'.contents, Graph.IdsFrom(|s.history.creators|, |named|), named)
    requires DegreesAreRight(degrees, s.contents, LiveOf(s)) && HasNoZeros(degrees')
    requires forall x :: At(degrees', x) == After(degrees, inputs, named, x)
    ensures DegreesAreRight(degrees', s'.contents, LiveOf(s'))
    ensures |LiveOf(s')| == |LiveOf(s)| - |inputs| + |named|
  {
    var ids := Graph.IdsFrom(|s.history.creators|, |named|);
    LiveAfterEvent(s, s', m, |named|);
    ReplacedCount(LiveOf(s), LiveOf(s'), m.inputs, ids);
    ReplacedIsCountedRight(
      s.contents, s'.contents, LiveOf(s), LiveOf(s'), m.inputs, inputs, ids, named, degrees, degrees');
  }

  // New atoms have names beyond all others, unless rules use such names themselves.
  lemma EventAtomsUpTo(s: Snapshot, s': Snapshot, m: Match, start: Atom, n: Atom)
    requires CanHappen(s, m) && s.Space(s.indexed).IsExplained(m)
    requires AtomsUpTo(s.contents, n) && RuleAtomsUpTo(s.rules, n)
    requires var outputs := s.Space(s.indexed).Outputs(m);
             var names := Naming(Flatten(outputs), start);
             && start + |names| <= n
             && AddsContents(s.contents, s'.contents, Graph.IdsFrom(|s.history.creators|, |outputs|),
                             RenameAll(names, outputs))
    ensures AtomsUpTo(s'.contents, n)
  {
    var outputs := s.Space(s.indexed).Outputs(m);
    var ids := Graph.IdsFrom(|s.history.creators|, |outputs|);
    OutputsUpTo(s.Space(s.indexed), m, n);
    NamedUpTo(outputs, start, n);
    forall t, x | t in s'.contents && x in s'.contents[t]
      ensures x <= n
    {
      if t !in s.contents {
        var i :| 0 <= i < |ids| && ids[i] == t;
        assert s'.contents[ids[i]] == RenameAll(Naming(Flatten(outputs), start), outputs)[i];
      }
    }
  }

  // The new tokens of the event, before and after their atoms are named.
  ghost predicate IsNamed(
    s: Snapshot, m: Match, start: Atom, counter: Atom, outputs: seq<AtomsVector>, named: seq<AtomsVector>)
  {
    && start >= 1 && counter <= MAX_INT64
    && s.Space(s.indexed).IsExplained(m) && outputs == s.Space(s.indexed).Outputs(m)
    && named == RenameAll(Naming(Flatten(outputs), start), outputs)
    && counter == start + |Naming(Flatten(outputs), start)|
  }

  lemma AppliedEvolves(
    s: Snapshot, s': Snapshot, m: Match, ids: seq<TokenId>, named: seq<AtomsVector>, removed: seq<TokenId>,
    start: Atom, counter: Atom, outputs: seq<AtomsVector>)
    requires CanHappen(s, m) && Graph.AreTokens(s.history, m.inputs)
    requires IsNamed(s, m, start, counter, outputs, named) && IsApplied(s, s', m, ids, named, removed)
    ensures IsEvent(s, s', m, |named|) && Invariant(s') && Evolves(s, s')
    ensures forall spec, deduplicates :: QueueIsRight(s, spec, deduplicates) ==> QueueIsRight(s', spec, deduplicates)
  {
    hide QueueIsRight;
    NamedIsGround(outputs, start);
    AppliedIsEvent(s, s', m, ids, named, removed);
    EventEvolves(s, s', m, |named|);
    forall spec, deduplicates | QueueIsRight(s, spec, deduplicates)
      ensures QueueIsRight(s', spec, deduplicates)
    {
      EventKeepsQueueRight(s, s', m, |named|, spec, deduplicates);
    }
  }

  lemma AppliedIsCounted(
    s: Snapshot, s': Snapshot, m: Match, ids: seq<TokenId>, inputs: seq<AtomsVector>, named: seq<AtomsVector>,
    removed: seq<TokenId>, start: Atom, counter: Atom, outputs: seq<AtomsVector>, d: int,
    destroyed: int, destroyed': int, degrees: Degrees, degrees': Degrees)
    requires CanHappen(s, m) && Graph.AreTokens(s.history, m.inputs) && s.limit == DestroyerLimit(d)
    requires IsNamed(s, m, start, counter, outputs, named) && IsApplied(s, s', m, ids, named, removed)
    requires IsEvent(s, s', m, |named|) && AreContents(s.contents, m.inputs, inputs)
    requires AreCounted(s, d, counter, destroyed, degrees)
    requires d == 1 ==>
               && destroyed' == destroyed + |inputs| && (HasNoZeros(degrees) ==> HasNoZeros(degrees'))
               && forall x :: At(degrees', x) == After(degrees, inputs, named, x)
    ensures AreCounted(s', d, counter, destroyed', degrees')
  {
    if d == 1 {
      EventIsCountedRight(s, s', m, inputs, named, degrees, degrees');
    }
    forall n | n >= counter && RuleAtomsUpTo(s.rules, n)
      ensures AtomsUpTo(s'.contents, n)
    {
      EventAtomsUpTo(s, s', m, start, n);
    }
  }

  // The match became an event: its outputs, with new names for new atoms, are the new tokens.
  ghost predicate Happened(s: Snapshot, s': Snapshot, m: Match, start: Atom, counter: Atom) {
    && CanHappen(s, m) && Graph.AreTokens(s.history, m.inputs) && s.Space(s.indexed).IsExplained(m)
    && var outputs := s.Space(s.indexed).Outputs(m);
    var names := Naming(Flatten(outputs), start);
    && IsEvent(s, s', m, |outputs|)
    && AreContents(s'.contents, Graph.IdsFrom(|s.history.creators|, |outputs|), RenameAll(names, outputs))
    && counter == start + |names|
  }

  // ----- limits on the final state

  // The match was given up because it would have led beyond a limit.
  ghost predicate WouldExceed(
    s: Snapshot, m: Match, reason: TerminationReason, spec: StepSpecification, degrees: Degrees, tokenCount: int)
  {
    && s.Space(s.indexed).IsExplained(m)
    && (forall i :: 0 <= i < |m.inputs| ==> m.inputs[i] in s.contents)
    && IsExceeded(reason, spec, degrees, tokenCount, InputVectors(s.contents, m), s.Space(s.indexed).Outputs(m))
  }

  ghost function InputVectors(contents: Contents, m: Match): seq<AtomsVector>
    requires forall i :: 0 <= i < |m.inputs| ==> m.inputs[i] in contents
  {
    seq(|m.inputs|, i requires 0 <= i < |m.inputs| => contents[m.inputs[i]])
  }

  // Why an event was not made: it would have led beyond a limit, and not beyond those that are looked at before.
  ghost predicate IsExceeded(
    reason: TerminationReason, spec: StepSpecification, degrees: Degrees, tokenCount: int,
    inputs: seq<AtomsVector>, outputs: seq<AtomsVector>)
  {
    match reason
    case MaxFinalAtomDegree =>
      && !AtomsAreUnlimited(spec)
      && exists x :: IsInvolved(inputs, outputs, x) && After(degrees, inputs, outputs, x) > spec.maxFinalAtomDegree
    case MaxFinalAtoms =>
      && !AtomsAreUnlimited(spec)
      && (forall x :: IsInvolved(inputs, outputs, x) ==> After(degrees, inputs, outputs, x) <= spec.maxFinalAtomDegree)
      && |AtomsAfter(degrees, inputs, outputs)| > spec.maxFinalAtoms
    case MaxFinalTokens =>
      && AtomsAreWithin(spec, degrees, inputs, outputs)
      && spec.maxFinalTokens != MAX_INT64 && tokenCount - |inputs| + |outputs| > spec.maxFinalTokens
    case _ => false
  }

  predicate IsFinalStateReason(reason: TerminationReason) {
    reason == MaxFinalAtoms || reason == MaxFinalAtomDegree || reason == MaxFinalTokens
  }

  ghost predicate AtomsAreUnlimited(spec: StepSpecification) {
    spec.maxFinalAtoms == MAX_INT64 && spec.maxFinalAtomDegree == MAX_INT64
  }

  // No limit stands in the way of the event.
  ghost predicate IsWithin(
    spec: StepSpecification, degrees: Degrees, tokenCount: int, inputs: seq<AtomsVector>, outputs: seq<AtomsVector>)
  {
    && InLimit(tokenCount - |inputs| + |outputs|, spec.maxFinalTokens)
    && AtomsAreWithin(spec, degrees, inputs, outputs)
  }

  ghost predicate AtomsAreWithin(
    spec: StepSpecification, degrees: Degrees, inputs: seq<AtomsVector>, outputs: seq<AtomsVector>)
  {
    !AtomsAreUnlimited(spec) ==>
      && |AtomsAfter(degrees, inputs, outputs)| <= spec.maxFinalAtoms
      && forall x :: IsInvolved(inputs, outputs, x) ==> After(degrees, inputs, outputs, x) <= spec.maxFinalAtomDegree
  }

  ghost predicate DegreesAreInLimit(degrees: Degrees, limit: int) {
    forall x :: x in degrees ==> InLimit(degrees[x], limit)
  }

  // The live tokens and atoms are within the limits.
  ghost predicate IsInLimits(spec: StepSpecification, live: set<TokenId>, degrees: Degrees) {
    && InLimit(|live|, spec.maxFinalTokens)
    && InLimit(|degrees|, spec.maxFinalAtoms)
  }

  // The prediction was right: after the event the limits hold.
  lemma LimitsHoldAfter(
    spec: StepSpecification, s: Snapshot, s': Snapshot, m: Match, inputs: seq<AtomsVector>, outputs: seq<AtomsVector>,
    named: seq<AtomsVector>, start: Atom, degrees: Degrees, degrees': Degrees)
    requires CanHappen(s, m) && Graph.AreTokens(s.history, m.inputs) && IsEvent(s, s', m, |named|) && s.limit == Some(1)
    requires AreContents(s.contents, m.inputs, inputs) && start >= 1
    requires named == RenameAll(Naming(Flatten(outputs), start), outputs)
    requires DegreesAreRight(degrees, s.contents, LiveOf(s)) && DegreesAreRight(degrees', s'.contents, LiveOf(s'))
    requires forall x :: At(degrees', x) == After(degrees, inputs, named, x)
    requires IsWithin(spec, degrees, |LiveOf(s)|, inputs, outputs)
    ensures IsInLimits(spec, LiveOf(s'), degrees')
    ensures AtomsUpTo(s.contents, start) && VectorsUpTo(outputs, start) &&
            DegreesAreInLimit(degrees, spec.maxFinalAtomDegree) ==>
              DegreesAreInLimit(degrees', spec.maxFinalAtomDegree)
  {
    LiveInputs(s, m);
    LiveTokensCanBeConsumed(degrees, s.contents, LiveOf(s), m.inputs, inputs);
    LiveDegreesAreGround(degrees, s.contents, LiveOf(s));
    LiveAfterEvent(s, s', m, |named|);
    ReplacedCount(LiveOf(s), LiveOf(s'), m.inputs, Graph.IdsFrom(|s.history.creators|, |named|));
    AtomLimitsHoldAfter(spec, s.contents, LiveOf(s), inputs, outputs, start, degrees, degrees');
  }

  // The same, in terms of the step.
  lemma PredictedLimitsHold(
    spec: StepSpecification, s: Snapshot, s': Snapshot, m: Match, inputs: seq<AtomsVector>, start: Atom, counter: Atom,
    degrees: Degrees, degrees': Degrees)
    requires Happened(s, s', m, start, counter) && s.limit == Some(1)
    requires AreContents(s.contents, m.inputs, inputs) && start >= 1
    requires forall n :: n >= start && RuleAtomsUpTo(s.rules, n) ==> AtomsUpTo(s.contents, n)
    requires DegreesAreRight(degrees, s.contents, LiveOf(s)) && DegreesAreRight(degrees', s'.contents, LiveOf(s'))
    requires var outputs := s.Space(s.indexed).Outputs(m);
             && IsWithin(spec, degrees, |LiveOf(s)|, inputs, outputs)
             && forall x :: At(degrees', x) ==
                            After(degrees, inputs, RenameAll(Naming(Flatten(outputs), start), outputs), x)
    ensures IsInLimits(spec, LiveOf(s'), degrees')
    ensures RuleAtomsUpTo(s.rules, start) && DegreesAreInLimit(degrees, spec.maxFinalAtomDegree) ==>
              DegreesAreInLimit(degrees', spec.maxFinalAtomDegree)
  {
    var outputs := s.Space(s.indexed).Outputs(m);
    LimitsHoldAfter(spec, s, s', m, inputs, outputs, RenameAll(Naming(Flatten(outputs), start), outputs), start,
                    degrees, degrees');
    if RuleAtomsUpTo(s.rules, start) {
      OutputsUpTo(s.Space(s.indexed), m, start);
    }
  }

  lemma AtomLimitsHoldAfter(
    spec: StepSpecification, contents: Contents, live: set<TokenId>, inputs: seq<AtomsVector>, outputs: seq<AtomsVector>,
    start: Atom, degrees: Degrees, degrees': Degrees)
    requires CanConsume(degrees, inputs) && IsGroundDegrees(degrees) && start >= 1 && HasNoZeros(degrees')
    requires DegreesAreRight(degrees, contents, live) && GroundContents(contents)
    requires forall x :: At(degrees', x) ==
                         After(degrees, inputs, RenameAll(Naming(Flatten(outputs), start), outputs), x) >= 0
    requires AtomsAreWithin(spec, degrees, inputs, outputs)
    ensures InLimit(|degrees'|, spec.maxFinalAtoms)
    ensures AtomsUpTo(contents, start) && VectorsUpTo(outputs, start) &&
            DegreesAreInLimit(degrees, spec.maxFinalAtomDegree) ==>
              DegreesAreInLimit(degrees', spec.maxFinalAtomDegree)
  {
    AtomsAfterAreListed(degrees, degrees', inputs, RenameAll(Naming(Flatten(outputs), start), outputs));
    AtomCountIsExactIff(degrees, inputs, outputs, start);
    if AtomsUpTo(contents, start) && VectorsUpTo(outputs, start) && spec.maxFinalAtomDegree != MAX_INT64 &&
       DegreesAreInLimit(degrees, spec.maxFinalAtomDegree) {
      NoClashUpTo(degrees, contents, live, inputs, outputs, start);
      DegreesStayInLimit(degrees, degrees', inputs, outputs, start, spec.maxFinalAtomDegree);
    }
  }

  // ----- the end

  ghost predicate IsFirstOf(spec: OrderingSpec, matches: set<Match>, m: Match) {
    m in matches && forall x :: x in matches ==> !ComesFirst(spec, x, m)
  }

  // ----- changing the generation limit

  // The tokens that were in the last generation so far are looked at, too.
  ghost predicate AddsLastGeneration(s: Snapshot, s': Snapshot, g: int) {
    && s' == s.(maxGeneration := g, unindexed := s'.unindexed)
    && WellFormed(s.history)
    && (g <= s.maxGeneration ==> s'.unindexed == s.unindexed)
    && (s.maxGeneration < g ==> forall t :: t in s'.unindexed <==>
          t in s.unindexed || (IsToken(s.history, t) && Graph.TokenGeneration(s.history, t) == s.maxGeneration))
  }

  lemma LastGenerationEvolves(s: Snapshot, s': Snapshot, g: int)
    requires Invariant(s) && s.maxGeneration <= g && AddsLastGeneration(s, s', g)
    ensures Invariant(s') && Evolves(s, s')
    ensures forall spec, deduplicates :: QueueIsRight(s, spec, deduplicates) ==> QueueIsRight(s', spec, deduplicates)
  {
    hide QueueIsRight;
    if s.maxGeneration < g {
      RaisingEvolves(s, s');
      forall spec, deduplicates | QueueIsRight(s, spec, deduplicates)
        ensures QueueIsRight(s', spec, deduplicates)
      {
        RaisingKeepsQueueRight(s, s', spec, deduplicates);
      }
    } else {
      assert s' == s;
      EvolvesReflexive(s);
    }
  }

  // The state that has never had a higher limit than g.
  ghost function Limited(s: Snapshot, g: int): Snapshot {
    if g < s.maxGeneration then s.(maxGeneration := g) else s
  }

  // The limit does not go down, or nothing is beyond it.
  ghost predicate CanChangeLimit(s: Snapshot, g: int)
    requires WellFormed(s.history)
  {
    g < s.maxGeneration ==> IsWithinGeneration(s, g)
  }

  // s' can be reached from s, once its limit is g at most.
  ghost predicate EvolvesWithin(s: Snapshot, s': Snapshot, g: int) {
    Invariant(Limited(s, g)) && Invariant(s') && Evolves(Limited(s, g), s')
  }

  // A new limit leaves the system as it should be iff it can be changed that way.
  lemma ChangedLimit(s: Snapshot, s': Snapshot, g: int)
    requires Invariant(s) && AddsLastGeneration(s, s', g)
    ensures Invariant(s') <==> CanChangeLimit(s, g)
    ensures CanChangeLimit(s, g) ==> EvolvesWithin(s, s', g)
    ensures forall spec, deduplicates :: QueueIsRight(s, spec, deduplicates) ==> QueueIsRight(s', spec, deduplicates)
  {
    hide QueueIsRight, Evolves;
    if g < s.maxGeneration {
      assert s' == Limited(s, g);
      LoweringKeepsInvariantIff(s, g);
      LoweringKeepsQueueRight(s, g);
      if Invariant(s') {
        EvolvesReflexive(s');
      }
    } else {
      LastGenerationEvolves(s, s', g);
    }
  }

  lemma LoweringKeepsQueueRight(s: Snapshot, g: int)
    requires WellFormed(s.history)
    ensures forall spec, deduplicates :: QueueIsRight(s, spec, deduplicates) ==>
              QueueIsRight(s.(maxGeneration := g), spec, deduplicates)
  {
    var lowered := s.(maxGeneration := g);
    forall spec, deduplicates | QueueIsRight(s, spec, deduplicates)
      ensures QueueIsRight(lowered, spec, deduplicates)
    {
      hide Repeats, Instantiated;
      assert forall m :: IsMade(lowered, m) <==> IsMade(s, m);
      assert forall m :: RepeatsSome(s, spec, m) ==> RepeatsSome(lowered, spec, m);
    }
  }

  lemma SameGeneration(s: Snapshot)
    requires Invariant(s)
    ensures AddsLastGeneration(s, s, s.maxGeneration) && Evolves(s, s)
  {
    EvolvesReflexive(s);
  }

  // After a possible change of the generation limit everything new was looked at.
  ghost predicate IsBroughtUpToDate(s: Snapshot, s': Snapshot, spec: OrderingSpec, deduplicates: bool) {
    exists raised ::
      && AddsLastGeneration(s, raised, s'.maxGeneration)
      && IsIndexed(raised, s', spec, deduplicates)
  }

  lemma UpToDate(s: Snapshot, raised: Snapshot, s': Snapshot, spec: OrderingSpec, deduplicates: bool)
    requires AddsLastGeneration(s, raised, raised.maxGeneration) && IsIndexed(raised, s', spec, deduplicates)
    ensures IsBroughtUpToDate(s, s', spec, deduplicates)
  {
  }

  lemma ReportIsDeduplicated(
    s: Snapshot, s': Snapshot, unindexed: seq<TokenId>, spec: OrderingSpec, found: set<Match>, kept: set<Match>)
    requires s.unindexed == Elements(unindexed)
    requires forall m :: m in found <==>
               m in s.leftover || (s'.Space(s'.indexed).Allows(m) && Touches(m.inputs, unindexed))
    requires IsDeduplicated(Copies(spec, s'.Space(s'.indexed), found), found, kept) && s'.queue == s.queue + kept
    ensures AddsDeduplicated(s, s', spec, found, kept)
  {
    forall m
      ensures m in found <==> m in s.leftover || IsNewMatch(s, s', m)
    {
    }
  }

  // What the matcher reports, as a relation on values.
  ghost predicate IsReported(
    s: Snapshot, s': Snapshot, unindexed: seq<TokenId>, spec: OrderingSpec, deduplicates: bool, done: bool,
    found: set<Match>, kept: set<Match>)
  {
    var space := s'.Space(s'.indexed);
    && s.unindexed == Elements(unindexed) && s'.unindexed == (if done then {} else s.unindexed)
    && s' == s.(indexed := s.indexed + s.unindexed, unindexed := s'.unindexed,
                queue := s'.queue, leftover := s'.leftover)
    && s.queue <= s'.queue
    && (forall m :: m in s'.queue + s'.leftover && m !in s.queue + s.leftover ==>
          space.Allows(m) && Touches(m.inputs, unindexed))
    && (forall m :: m in s'.leftover && m !in s.leftover ==> space.Allows(m) && Touches(m.inputs, unindexed))
    && (done ==> s'.leftover <= s.leftover)
    && (!done && deduplicates ==> s'.queue == s.queue)
    && (done && !deduplicates ==>
          forall m :: space.Allows(m) && Touches(m.inputs, unindexed) ==> m in s'.queue)
    && (done && deduplicates ==>
          && s'.leftover == {}
          && (forall m :: m in found <==> m in s.leftover || (space.Allows(m) && Touches(m.inputs, unindexed)))
          && IsDeduplicated(Copies(spec, space, found), found, kept)
          && s'.queue == s.queue + kept)
  }

  lemma SearchIsDone(
    s: Snapshot, s': Snapshot, unindexed: seq<TokenId>, spec: OrderingSpec, deduplicates: bool, done: bool,
    found: set<Match>, kept: set<Match>)
    requires Invariant(s) && IsReported(s, s', unindexed, spec, deduplicates, done, found, kept)
    ensures Invariant(s') && IsSearched(s, s') && Evolves(s, s')
    ensures if done then IsIndexed(s, s', spec, deduplicates) else IsInterrupted(s, s', deduplicates)
    ensures QueueIsRight(s, spec, deduplicates) ==> QueueIsRight(s', spec, deduplicates)
  {
    hide QueueIsRight, IsSearched, IsIndexed, IsInterrupted, Evolves;
    ReportIsSearched(s, s', unindexed, spec, deduplicates, done, found, kept);
    SearchKeepsInvariant(s, s');
    if QueueIsRight(s, spec, deduplicates) {
      SearchKeepsQueueRight(s, s', spec, deduplicates, done);
    }
  }

  lemma ReportIsSearched(
    s: Snapshot, s': Snapshot, unindexed: seq<TokenId>, spec: OrderingSpec, deduplicates: bool, done: bool,
    found: set<Match>, kept: set<Match>)
    requires Invariant(s) && IsReported(s, s', unindexed, spec, deduplicates, done, found, kept)
    ensures IsSearched(s, s')
    ensures if done then IsIndexed(s, s', spec, deduplicates) else IsInterrupted(s, s', deduplicates)
  {
    if done && deduplicates {
      ReportIsDeduplicated(s, s', unindexed, spec, found, kept);
    }
  }

  lemma SearchKeepsQueueRight(s: Snapshot, s': Snapshot, spec: OrderingSpec, deduplicates: bool, done: bool)
    requires Invariant(s) && QueueIsRight(s, spec, deduplicates) && WellFormed(s'.history)
    requires if done then IsIndexed(s, s', spec, deduplicates) else IsInterrupted(s, s', deduplicates)
    ensures QueueIsRight(s', spec, deduplicates)
  {
    hide IsDeduplicatedThroughout;
    if !deduplicates {
      IndexingKeepsQueueComplete(s, s');
    } else if done {
      CompletedSearch(s, s', spec);
    } else {
      InterruptedSearch(s, s', spec);
    }
  }

  // ----- how many events there can be

  ghost function LargestOutputCount(rules: seq<Rule>): (r: nat)
    ensures forall i :: 0 <= i < |rules| ==> |rules[i].outputs| <= r
  {
    if rules == [] then 0
    else
      var rest, last := LargestOutputCount(rules[..|rules| - 1]), |rules[|rules| - 1].outputs|;
      if rest < last then last else rest
  }

  // What the tokens of the state can still give, every generation weighing more than all that can follow from it.
  ghost function PotentialOf(rules: seq<Rule>, h: History, maxGeneration: int, d: nat): int
    requires WellFormed(h)
  {
    Potential(h, maxGeneration, d, Base(rules, d))
  }

  ghost function Base(rules: seq<Rule>, d: nat): (w: nat)
    ensures w > d * LargestOutputCount(rules)
  {
    d * LargestOutputCount(rules) + 1
  }

  lemma HappenedLowersPotential(s: Snapshot, s': Snapshot, m: Match, start: Atom, counter: Atom)
    requires Happened(s, s', m, start, counter) && s.limit.Some?
    ensures WellFormed(s'.history) && s.limit.value >= 1
    ensures PotentialOf(s.rules, s'.history, s.maxGeneration, s.limit.value) <
            PotentialOf(s.rules, s.history, s.maxGeneration, s.limit.value)
  {
    var d := s.limit.value;
    EventLowersPotential(
      s, s', m, |s.Space(s.indexed).Outputs(m)|, d, Base(s.rules, d), LargestOutputCount(s.rules));
  }

  // One step adds one event, which costs some of the potential.
  lemma StepCosts(
    s: Snapshot, pending: Snapshot, s': Snapshot, m: Match, start: Atom, counter: Atom, spec: OrderingSpec,
    deduplicates: bool)
    requires Invariant(s) && IsBroughtUpToDate(s, pending, spec, deduplicates)
    requires Happened(pending, s', m, start, counter)
    ensures |s'.history.events| == |s.history.events| + 1 && WellFormed(s'.history) && counter >= start
    ensures s.limit.Some? ==>
              && s.limit.value >= 1
              && PotentialOf(s.rules, s'.history, s'.maxGeneration, s.limit.value) <
                 PotentialOf(s.rules, s.history, s'.maxGeneration, s.limit.value)
  {
    if s.limit.Some? {
      HappenedLowersPotential(pending, s', m, start, counter);
    }
  }

  lemma PotentialOfIsNatural(s: Snapshot, maxGeneration: int)
    requires Invariant(s) && s.limit.Some?
    ensures PotentialOf(s.rules, s.history, maxGeneration, s.limit.value) >= 0
  {
    PotentialIsNatural(s.history, maxGeneration, s.limit.value, Base(s.rules, s.limit.value));
  }

  lemma RuleAtomsStayUpTo(rules: seq<Rule>, n: Atom, n': Atom)
    requires RuleAtomsUpTo(rules, n) && n <= n'
    ensures RuleAtomsUpTo(rules, n')
  {
    forall r | 0 <= r < |rules|
      ensures VectorsUpTo(rules[r].outputs, n')
    {
      assert VectorsUpTo(rules[r].outputs, n);
    }
  }
}
