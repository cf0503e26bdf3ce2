/**
  The evolution loop: finding matches, applying them as events, and stopping at the limits.

  Snapshot() is the abstract state. Every method says how it changes the snapshot, in terms of the
  relations in Steps, and that Valid() holds again, whose heart is the invariant of Evolution. The
  methods are small because each of them deals with one part of the state: the causal graph, the
  atoms index, the queue of the matcher, or the counters for the limits.
 */
module HypergraphSubstitutionSystem {
  import opened Types
  import opened Collections
  import opened CausalHistory
  import opened Matching
  import opened MatchOrder
  import opened FreshNames
  import opened AtomDegrees
  import opened LiveAtoms
  import opened SelectionFunctions
  import opened Evolution
  import opened CompleteGenerations
  import opened Runs
  import opened Deduplication
  import opened InsertionOrder
  import opened GlobalDeduplication
  import opened Steps
  import opened Instances
  import Graph = TokenEventGraph
  import Index = AtomsIndex
  import Matcher = HypergraphMatcher

  datatype Error =
    | NoError | Aborted | DisconnectedInputs | NonPositiveAtoms | AtomCountOverflow
    | FinalStateStepSpecificationForMultihistory

  class HypergraphSubstitutionSystem {
    const rules: seq<Rule>
    var stepSpec: StepSpecification
    const maxDestroyerEvents: nat
    var terminationReason: TerminationReason
    var tokens: Contents
    const causalGraph: Graph.TokenEventGraph
    var nextAtom: Atom
    var destroyedTokenCount: int
    var atomDegrees: Degrees
    const atomsIndex: Index.AtomsIndex
    const matcher: Matcher.HypergraphMatcher
    var unindexedTokens: seq<TokenId>
    // The tokens the index knows about.
    ghost var indexed: set<TokenId>

    ghost function Snapshot(): Snapshot
      reads this`tokens, this`stepSpec, this`indexed, this`unindexedTokens, causalGraph, matcher, matcher.queue
    {
      Evolution.Snapshot(
        rules, tokens, causalGraph.History(), causalGraph.tracksChoices, stepSpec.maxGenerationsLocal,
        DestroyerLimit(maxDestroyerEvents), indexed, Elements(unindexedTokens), matcher.queue.allMatches,
        matcher.newMatches)
    }

    // The index and the queue are consistent.
    ghost predicate TablesAreValid()
      reads this`tokens, this`indexed, atomsIndex, matcher.queue
    {
      atomsIndex.Indexes(tokens, indexed) && matcher.queue.Valid()
    }

    ghost predicate PartsAreValid()
      reads this`tokens, this`stepSpec, this`indexed, causalGraph, atomsIndex, matcher, matcher.queue
    {
      && matcher.rules == rules && matcher.atomsIndex == atomsIndex && matcher.graph == causalGraph
      && causalGraph.Valid()
      && TablesAreValid()
      && matcher.currentError == Matcher.NoError
      && stepSpec.maxGenerationsLocal <= MAX_INT64
    }

    ghost predicate AtomsAreCounted()
      reads this`tokens, this`stepSpec, this`indexed, this`unindexedTokens, this`nextAtom, this`destroyedTokenCount,
            this`atomDegrees
      reads causalGraph, matcher, matcher.queue
    {
      AreCounted(Snapshot(), maxDestroyerEvents, nextAtom, destroyedTokenCount, atomDegrees)
    }

    // Holds between calls.
    ghost predicate Valid()
      reads this`tokens, this`stepSpec, this`indexed, this`unindexedTokens, this`nextAtom, this`destroyedTokenCount,
            this`atomDegrees
      reads causalGraph, atomsIndex, matcher, matcher.queue
    {
      && PartsAreValid()
      && Invariant(Snapshot())
      && QueueIsRight(Snapshot(), matcher.queue.orderingSpec, matcher.deduplicates)
      && AtomsAreCounted()
      && EventsAreInstances(Snapshot())
    }

    // Not after a parallel search was interrupted, unless copies are dropped.
    ghost predicate NothingIsStale()
      reads matcher
    {
      matcher.deduplicates || matcher.newMatches == {}
    }

    predicate HasMultipleHistories() {
      maxDestroyerEvents > 1
    }

    // ----- creation

    // Checks the initial atoms, then creates the system.
    static method Create(
      rules: seq<Rule>, initialTokens: seq<AtomsVector>, maxDestroyerEvents: nat, orderingSpec: OrderingSpec,
      deduplicates: bool, ruleSort: RuleSort)
      returns (error: Error, system: HypergraphSubstitutionSystem?)
      requires forall i, x :: 0 <= i < |initialTokens| && x in initialTokens[i] ==> x <= MAX_INT64
      ensures error == NoError <==> forall i, x :: 0 <= i < |initialTokens| && x in initialTokens[i] ==> 0 < x < MAX_INT64
      ensures error == NonPositiveAtoms ==> exists i, k :: IsFirstBad(initialTokens, i, k) && initialTokens[i][k] <= 0
      ensures error == AtomCountOverflow ==>
                exists i, k :: IsFirstBad(initialTokens, i, k) && initialTokens[i][k] == MAX_INT64
      ensures error == NoError || error == NonPositiveAtoms || error == AtomCountOverflow
      ensures error == NoError <==> system != null
      ensures system != null ==>
                && fresh(system) && system.IsNew(rules, initialTokens, maxDestroyerEvents, deduplicates)
                && system.matcher.queue.orderingSpec == orderingSpec && system.matcher.ruleSort == ruleSort
    {
      var nextAtom;
      system := null;
      error, nextAtom := AtomAfter(initialTokens);
      if error == NoError {
        system := new HypergraphSubstitutionSystem(
          rules, initialTokens, maxDestroyerEvents, orderingSpec, deduplicates, ruleSort, nextAtom);
      }
    }

    static ghost predicate IsGood(token: AtomsVector, k: int) {
      forall l :: 0 <= l < k <= |token| ==> 0 < token[l] < MAX_INT64
    }

    // The k-th atom of the i-th token is the first one that cannot be.
    static ghost predicate IsFirstBad(initialTokens: seq<AtomsVector>, i: int, k: int) {
      && 0 <= i < |initialTokens| && 0 <= k < |initialTokens[i]| && IsGood(initialTokens[i], k)
      && (forall j :: 0 <= j < i ==> IsGood(initialTokens[j], |initialTokens[j]|))
      && !(0 < initialTokens[i][k] < MAX_INT64)
    }

    // The counter starts one beyond the initial atoms.
    static ghost predicate StartsAt(initialTokens: seq<AtomsVector>, nextAtom: Atom) {
      && 1 <= nextAtom <= MAX_INT64
      && (forall i, x :: 0 <= i < |initialTokens| && x in initialTokens[i] ==> 0 < x < nextAtom)
      && (nextAtom == 1 || exists i :: 0 <= i < |initialTokens| && nextAtom - 1 in initialTokens[i])
    }

    static method AtomAfter(initialTokens: seq<AtomsVector>) returns (error: Error, nextAtom: Atom)
      requires forall i, x :: 0 <= i < |initialTokens| && x in initialTokens[i] ==> x <= MAX_INT64
      ensures error == NoError ==> StartsAt(initialTokens, nextAtom)
      ensures error == NoError <==> forall i, x :: 0 <= i < |initialTokens| && x in initialTokens[i] ==> 0 < x < MAX_INT64
      ensures error == NonPositiveAtoms ==> exists i, k :: IsFirstBad(initialTokens, i, k) && initialTokens[i][k] <= 0
      ensures error == AtomCountOverflow ==>
                exists i, k :: IsFirstBad(initialTokens, i, k) && initialTokens[i][k] == MAX_INT64
      ensures error == NoError || error == NonPositiveAtoms || error == AtomCountOverflow
    {
      nextAtom := 1;
      for i := 0 to |initialTokens|
        invariant StartsAt(initialTokens[..i], nextAtom)
        invariant forall k :: 0 <= k < i ==> IsGood(initialTokens[k], |initialTokens[k]|)
      {
        var token := initialTokens[i];
        assert forall k :: 0 <= k < i ==> initialTokens[..i + 1][k] == initialTokens[..i][k];
        assert initialTokens[..i + 1][i] == token;
        for j := 0 to |token|
          invariant 1 <= nextAtom <= MAX_INT64
          invariant forall k, x :: 0 <= k < i && x in initialTokens[k] ==> 0 < x < nextAtom
          invariant (forall x :: x in token[..j] ==> 0 < x < nextAtom) && IsGood(token, j)
          invariant nextAtom == 1 || exists k :: 0 <= k < i + 1 && nextAtom - 1 in initialTokens[k]
        {
          assert token[..j + 1] == token[..j] + [token[j]];
          assert token[j] in token;
          if token[j] <= 0 {
            assert IsFirstBad(initialTokens, i, j);
            return NonPositiveAtoms, nextAtom;
          }
          nextAtom := if nextAtom - 1 < token[j] then token[j] else nextAtom - 1;
          if nextAtom == MAX_INT64 {
            assert IsFirstBad(initialTokens, i, j);
            return AtomCountOverflow, nextAtom;
          }
          nextAtom := nextAtom + 1;
        }
        assert token[..|token|] == token;
      }
      assert initialTokens[..|initialTokens|] == initialTokens;
      error := NoError;
    }

    // Nothing has happened yet except the creation of the initial tokens, and nothing is to happen yet.
    ghost predicate IsNew(rules: seq<Rule>, initialTokens: seq<AtomsVector>, maxDestroyerEvents: nat, deduplicates: bool)
      reads this, causalGraph, atomsIndex, matcher, matcher.queue
    {
      && Valid() && NothingIsStale()
      && this.rules == Optimized(rules, maxDestroyerEvents)
      && this.maxDestroyerEvents == maxDestroyerEvents && matcher.deduplicates == deduplicates
      && (causalGraph.tracksChoices <==>
            maxDestroyerEvents != 1 && exists i :: 0 <= i < |rules| && rules[i].selection != SelectAll)
      && causalGraph.History() == Graph.Appended(History([], []), INITIAL_CONDITION_RULE, [], |initialTokens|)
      && causalGraph.EventsCount() == 0 && |causalGraph.creatorEvents| == |initialTokens|
      && (forall i :: 0 <= i < |initialTokens| ==> i in tokens && tokens[i] == initialTokens[i])
      && StartsAt(initialTokens, nextAtom) && stepSpec == NOTHING
      && matcher.queue.allMatches == {} && unindexedTokens == []
    }

    constructor (
      rules: seq<Rule>, initialTokens: seq<AtomsVector>, maxDestroyerEvents: nat, orderingSpec: OrderingSpec,
      deduplicates: bool, ruleSort: RuleSort, nextAtom: Atom)
      requires StartsAt(initialTokens, nextAtom)
      ensures IsNew(rules, initialTokens, maxDestroyerEvents, deduplicates)
      ensures matcher.queue.orderingSpec == orderingSpec && matcher.ruleSort == ruleSort
      ensures fresh(causalGraph) && fresh(atomsIndex) && fresh(matcher) && fresh(matcher.queue)
    {
      hide Invariant, QueueIsRight, AreCounted, StartsAt, AreContents, WellFormed, Graph.Layered, Graph.Appended;
      hide Optimized, Graph.IsLargestGeneration;
      var optimized := Optimized(rules, maxDestroyerEvents);
      var graph := new Graph.TokenEventGraph(|initialTokens|, NeedsSeparation(maxDestroyerEvents, rules));
      var index := new Index.AtomsIndex();
      this.rules, this.maxDestroyerEvents := optimized, maxDestroyerEvents;
      stepSpec, terminationReason := NOTHING, NotTerminated;
      tokens, unindexedTokens, indexed := map[], [], {};
      causalGraph, atomsIndex := graph, index;
      matcher := new Matcher.HypergraphMatcher(optimized, index, graph, orderingSpec, deduplicates, ruleSort);
      this.nextAtom, destroyedTokenCount, atomDegrees := nextAtom, 0, map[];
      new;
      AddInitialTokens(initialTokens);
    }

    method AddInitialTokens(initialTokens: seq<AtomsVector>)
      requires PartsAreValid() && NothingIsStale() && tokens == map[] && unindexedTokens == [] && indexed == {}
      requires causalGraph.History() == Graph.Appended(History([], []), INITIAL_CONDITION_RULE, [], |initialTokens|)
      requires StartsAt(initialTokens, nextAtom) && destroyedTokenCount == 0 && atomDegrees == map[]
      requires stepSpec == NOTHING && matcher.queue.allMatches == {} && matcher.newMatches == {}
      modifies this`tokens, this`unindexedTokens, this`atomDegrees
      ensures Valid() && unindexedTokens == []
      ensures forall i :: 0 <= i < |initialTokens| ==> i in tokens && tokens[i] == initialTokens[i]
    {
      hide Invariant, QueueIsRight, AreCounted, EventsAreInstances, Graph.Layered, WellFormed;
      var ids := AllTokenIds();
      AddTokens(ids, initialTokens);
      NoNewIds(unindexedTokens, causalGraph.History(), ids);
      StartsValid(initialTokens, ids);
      InitialContents(ids, initialTokens);
    }

    // The first token has the first vector, and so on.
    lemma InitialContents(ids: seq<TokenId>, initialTokens: seq<AtomsVector>)
      requires ids == Graph.IdsFrom(0, |initialTokens|) && AreContents(tokens, ids, initialTokens)
      ensures forall i :: 0 <= i < |initialTokens| ==> i in tokens && tokens[i] == initialTokens[i]
    {
      forall i | 0 <= i < |initialTokens|
        ensures i in tokens && tokens[i] == initialTokens[i]
      {
        assert ids[i] == i;
      }
    }

    lemma StartsValid(initialTokens: seq<AtomsVector>, ids: seq<TokenId>)
      requires PartsAreValid() && IsInitial(Snapshot(), initialTokens, ids)
      requires StartsAt(initialTokens, nextAtom) && destroyedTokenCount == 0
      requires maxDestroyerEvents == 1 ==>
                 HasNoZeros(atomDegrees) && forall x :: At(atomDegrees, x) == DegreeIn(initialTokens, x)
      ensures Valid()
    {
      NothingHappened(Snapshot(), initialTokens, ids);
      InitialIsInstance(Snapshot(), initialTokens, ids);
      if maxDestroyerEvents == 1 {
        InitialDegrees(Snapshot(), atomDegrees, initialTokens, ids);
      }
      forall t, x | t in tokens && x in tokens[t]
        ensures x <= nextAtom
      {
        assert t in ids && ids[t] == t;
      }
    }

    method AllTokenIds() returns (ids: seq<TokenId>)
      ensures ids == Graph.IdsFrom(0, |causalGraph.creatorEvents|)
    {
      ids := Graph.TokenEventGraph.IdsRange(0, |causalGraph.creatorEvents|);
    }

    // Remembers what is in new tokens, and which of them still have to be looked at.
    method AddTokens(ids: seq<TokenId>, vectors: seq<AtomsVector>)
      requires |ids| == |vectors| && Distinct(ids)
      requires WellFormed(causalGraph.History()) && Graph.AreTokens(causalGraph.History(), ids)
      requires forall t :: t in ids ==> t !in tokens
      modifies this`tokens, this`unindexedTokens, this`atomDegrees
      ensures AddsContents(old(tokens), tokens, ids, vectors)
      ensures AddsEarlier(
                causalGraph.History(), stepSpec.maxGenerationsLocal, old(unindexedTokens), unindexedTokens, ids)
      ensures !HasMultipleHistories() ==> forall x :: At(atomDegrees, x) == At(old(atomDegrees), x) + DegreeIn(vectors, x)
      ensures !HasMultipleHistories() && HasNoZeros(old(atomDegrees)) ==> HasNoZeros(atomDegrees)
    {
      ghost var h := causalGraph.History();
      for i := 0 to |ids|
        invariant AddsContents(old(tokens), tokens, ids[..i], vectors[..i])
        invariant AddsEarlier(h, stepSpec.maxGenerationsLocal, old(unindexedTokens), unindexedTokens, ids[..i])
        invariant atomDegrees == old(atomDegrees)
      {
        var id := ids[i];
        AddsNextContents(old(tokens), tokens, ids, vectors, i);
        tokens := tokens[id := vectors[i]];
        AddsNextEarlier(h, stepSpec.maxGenerationsLocal, old(unindexedTokens), unindexedTokens, ids, i);
        if causalGraph.GenerationOf(id) < stepSpec.maxGenerationsLocal {
          unindexedTokens := unindexedTokens + [id];
        }
      }
      assert ids[..|ids|] == ids && vectors[..|ids|] == vectors;
      if !HasMultipleHistories() {
        atomDegrees := UpdateAtomDegrees(atomDegrees, vectors, 1, true);
      }
    }

    // ----- new tokens

    static function ErrorOf(error: Matcher.Error): Error {
      match error
      case NoError => NoError
      case Aborted => Aborted
      case DisconnectedInputs => DisconnectedInputs
    }

    // What the matcher relies on to look at the new tokens.
    ghost predicate CanSearch(pool: set<TokenId>)
      reads this`tokens, this`unindexedTokens, causalGraph, matcher`newMatches
    {
      && Index.AreKnown(tokens, unindexedTokens)
      && FromPool(pool, unindexedTokens)
      && GroundContents(tokens)
      && (forall t :: t in pool ==> IsToken(causalGraph.History(), t) && t >= 0)
      && AllAllowed(SearchSpace(pool), matcher.newMatches)
    }

    ghost function SearchSpace(pool: set<TokenId>): MatchSpace
      reads this`tokens, causalGraph
    {
      MatchSpace(rules, tokens, pool, SeparationView(causalGraph.History(), causalGraph.tracksChoices))
    }

    // The matcher searches the pool that the index has once the new tokens are in it.
    method SearchNewTokens(mayAbort: bool) returns (error: Error, ghost found: set<Match>, ghost kept: set<Match>)
      requires PartsAreValid() && CanSearch(indexed + Elements(unindexedTokens))
      modifies this`indexed, this`unindexedTokens, atomsIndex, matcher, matcher.queue
      ensures PartsAreValid()
      ensures error == NoError || (error == Aborted && mayAbort) ||
              (error == DisconnectedInputs && exists r :: 0 <= r < |rules| && !Connected(rules[r].inputs))
      ensures IsReported(old(Snapshot()), Snapshot(), old(unindexedTokens), matcher.queue.orderingSpec,
                         matcher.deduplicates, error == NoError, found, kept)
      ensures error == NoError ==> unindexedTokens == [] && matcher.queue.NextIsCurrent()
    {
      atomsIndex.AddTokens(unindexedTokens, tokens, indexed);
      indexed := indexed + Elements(unindexedTokens);
      var matcherError;
      assert matcher.Space(tokens, indexed) == SearchSpace(indexed);
      ghost var collected;
      matcherError, collected, found, kept := matcher.AddMatchesInvolvingTokens(unindexedTokens, tokens, mayAbort, indexed);
      assert matcher.Space(tokens, indexed) == SearchSpace(indexed);
      error := ErrorOf(matcherError);
      if error == NoError {
        unindexedTokens := [];
      }
    }

    method IndexNewTokens(mayAbort: bool) returns (error: Error)
      requires Valid()
      modifies this`indexed, this`unindexedTokens, atomsIndex, matcher, matcher.queue
      ensures Valid()
      ensures error == NoError || (error == Aborted && mayAbort) ||
              (error == DisconnectedInputs && exists r :: 0 <= r < |rules| && !Connected(rules[r].inputs))
      ensures IsSearched(old(Snapshot()), Snapshot()) && Evolves(old(Snapshot()), Snapshot())
      ensures error == NoError ==>
                && IsIndexed(old(Snapshot()), Snapshot(), matcher.queue.orderingSpec, matcher.deduplicates)
                && unindexedTokens == [] && matcher.queue.NextIsCurrent()
                && (old(NothingIsStale()) ==> matcher.newMatches == {})
      ensures error != NoError ==> IsInterrupted(old(Snapshot()), Snapshot(), matcher.deduplicates)
    {
      hide PartsAreValid;
      ghost var before, ids := Snapshot(), unindexedTokens;
      SearchCanStart(before, unindexedTokens);
      ghost var found, kept;
      error, found, kept := SearchNewTokens(mayAbort);
      SearchIsDone(
        before, Snapshot(), ids, matcher.queue.orderingSpec, matcher.deduplicates, error == NoError, found, kept);
      SameInstances(before, Snapshot());
    }

    // Once everything is indexed, the queue holds exactly the matches of tokens that may still be consumed
    // which never became events, unless a conflict was noticed while a match was pending that depends on
    // separations.
    lemma QueueHoldsExactlyThePending()
      requires Valid() && !matcher.deduplicates && unindexedTokens == []
      ensures (forall m :: m in matcher.queue.allMatches <==>
                 Snapshot().Space(EligibleTokens(Snapshot())).Allows(m) && !Instantiated(causalGraph.History(), m)) <==>
              (TrackingIsIntact(Snapshot()) ||
               forall m :: m in matcher.queue.allMatches ==> IgnoresSeparation(rules, m))
    {
      QueueIsExactIff(Snapshot());
    }

    // No token is consumed more than maxDestroyerEvents times, and one that was consumed less often still takes
    // part in matches. Once is always allowed; a limit of MAX_INT64 is none.
    lemma ConsumptionIsLimited(t: TokenId)
      requires Valid() && t in tokens
      ensures var count := Graph.DestroyerCount(causalGraph.events, t);
              && (maxDestroyerEvents == 0 ==> count <= 1)
              && (0 < maxDestroyerEvents != MAX_INT64 ==> count <= maxDestroyerEvents)
              && (t in UnsaturatedTokens(Snapshot()) <==>
                    maxDestroyerEvents == MAX_INT64 || count < maxDestroyerEvents || count == 0)
    {
      hide Graph.Layered, IndexIsRight, NoEventTwice, QueueIsSound, QueueIsRight, TablesAreValid, AtomsAreCounted;
      hide GroundContents, EventsAreInstances;
      assert IsToken(causalGraph.History(), t);
    }

    // With deduplication, a match of such tokens is missing only if it repeats one that is pending or
    // became an event, and none of those repeats another.
    lemma OnlyRepetitionsAreNotPending(m: Match, k: Match)
      requires Valid() && matcher.deduplicates && unindexedTokens == []
      ensures Snapshot().Space(EligibleTokens(Snapshot())).Allows(m) ==>
                IsMade(Snapshot(), m) || RepeatsSome(Snapshot(), matcher.queue.orderingSpec, m)
      ensures IsMade(Snapshot(), m) && IsMade(Snapshot(), k) ==>
                !Repeats(matcher.queue.orderingSpec, Snapshot().Space(indexed), m, k)
    {
      SameElements(indexed, EligibleTokens(Snapshot()));
    }

    // ----- limits

    // A multihistory has no single final state that could be limited.
    ghost predicate CanLimit(newStepSpec: StepSpecification) {
      maxDestroyerEvents > 1 ==>
        && newStepSpec.maxFinalAtoms == MAX_INT64
        && newStepSpec.maxFinalAtomDegree == MAX_INT64
        && newStepSpec.maxFinalTokens == MAX_INT64
    }

    method ThrowIfInvalidStepSpec(newStepSpec: StepSpecification) returns (error: Error)
      ensures error == if CanLimit(newStepSpec) then NoError else FinalStateStepSpecificationForMultihistory
      ensures error == FinalStateStepSpecificationForMultihistory <==>
                && maxDestroyerEvents > 1
                && (newStepSpec.maxFinalAtoms != MAX_INT64 || newStepSpec.maxFinalAtomDegree != MAX_INT64 ||
                    newStepSpec.maxFinalTokens != MAX_INT64)
    {
      if HasMultipleHistories() {
        var finalStateStepLimits := [newStepSpec.maxFinalAtoms, newStepSpec.maxFinalAtomDegree, newStepSpec.maxFinalTokens];
        for i := 0 to |finalStateStepLimits|
          invariant forall k :: 0 <= k < i ==> finalStateStepLimits[k] == MAX_INT64
        {
          if finalStateStepLimits[i] != MAX_INT64 {
            return FinalStateStepSpecificationForMultihistory;
          }
        }
        assert finalStateStepLimits[0] == MAX_INT64 && finalStateStepLimits[1] == MAX_INT64;
        assert finalStateStepLimits[2] == MAX_INT64;
      }
      error := NoError;
    }

    // A lower generation limit leaves the system as it should be iff nothing went beyond it yet.
    method UpdateStepSpec(newStepSpec: StepSpecification) returns (error: Error)
      requires Valid() && newStepSpec.maxGenerationsLocal <= MAX_INT64
      modifies this`stepSpec, this`unindexedTokens
      ensures error == if CanLimit(newStepSpec) then NoError else FinalStateStepSpecificationForMultihistory
      ensures error == FinalStateStepSpecificationForMultihistory <==>
                && maxDestroyerEvents > 1
                && (newStepSpec.maxFinalAtoms != MAX_INT64 || newStepSpec.maxFinalAtomDegree != MAX_INT64 ||
                    newStepSpec.maxFinalTokens != MAX_INT64)
      ensures stepSpec == if error == NoError then newStepSpec else old(stepSpec)
      ensures AddsLastGeneration(old(Snapshot()), Snapshot(), stepSpec.maxGenerationsLocal)
      ensures Valid() <==> CanChangeLimit(old(Snapshot()), stepSpec.maxGenerationsLocal)
      ensures Valid() ==> EvolvesWithin(old(Snapshot()), Snapshot(), stepSpec.maxGenerationsLocal)
    {
      hide Invariant, QueueIsRight, TablesAreValid, CanLimit, CanChangeLimit, EvolvesWithin, AddsLastGeneration;
      ghost var before := Snapshot();
      SameGeneration(before);
      error := ThrowIfInvalidStepSpec(newStepSpec);
      if error == NoError {
        SetStepSpec(newStepSpec);
      }
      ChangedLimit(before, Snapshot(), stepSpec.maxGenerationsLocal);
      CountedUnderAnyLimit(before, Snapshot());
      SameInstances(before, Snapshot());
    }

    lemma CountedUnderAnyLimit(before: Snapshot, after: Snapshot)
      requires AddsLastGeneration(before, after, after.maxGeneration)
      requires AreCounted(before, maxDestroyerEvents, nextAtom, destroyedTokenCount, atomDegrees)
      ensures AreCounted(after, maxDestroyerEvents, nextAtom, destroyedTokenCount, atomDegrees)
    {
    }

    method SetStepSpec(newStepSpec: StepSpecification)
      requires Valid()
      modifies this`stepSpec, this`unindexedTokens
      ensures stepSpec == newStepSpec
      ensures AddsLastGeneration(old(Snapshot()), Snapshot(), newStepSpec.maxGenerationsLocal)
    {
      hide IndexIsRight, LimitIsKept, NoEventTwice, QueueIsSound, QueueIsRight, AtomsAreCounted, TablesAreValid;
      var previousMaxGeneration := stepSpec.maxGenerationsLocal;
      stepSpec := newStepSpec;
      if newStepSpec.maxGenerationsLocal > previousMaxGeneration {
        AddTokensOfGeneration(previousMaxGeneration);
      }
    }

    method AddTokensOfGeneration(generation: int)
      requires WellFormed(causalGraph.History()) && forall t :: t in tokens <==> IsToken(causalGraph.History(), t)
      modifies this`unindexedTokens
      ensures forall t :: t in unindexedTokens <==>
                || t in old(unindexedTokens)
                || (IsToken(causalGraph.History(), t) && Graph.TokenGeneration(causalGraph.History(), t) == generation)
    {
      var remaining := tokens.Keys;
      while remaining != {}
        invariant remaining <= tokens.Keys
        invariant forall t :: t in unindexedTokens <==>
                    || t in old(unindexedTokens)
                    || (t in tokens && t !in remaining && IsToken(causalGraph.History(), t) &&
                        Graph.TokenGeneration(causalGraph.History(), t) == generation)
      {
        var id := Pick(remaining);
        if causalGraph.GenerationOf(id) == generation {
          unindexedTokens := unindexedTokens + [id];
        }
        remaining := remaining - {id};
      }
    }

    // ----- events

    ghost predicate IsSaturated(t: TokenId)
      reads causalGraph`events
    {
      !BelowLimit(DestroyerLimit(maxDestroyerEvents), Graph.DestroyerCount(causalGraph.events, t))
    }

    ghost predicate CanRemove(m: Match)
      reads this`tokens, this`indexed, causalGraph, atomsIndex, matcher.queue
    {
      && TablesAreValid() && m in matcher.queue.allMatches && m.inputs != []
      && Index.AreKnown(tokens, m.inputs)
      && causalGraph.CountsAreRight() && Graph.AreTokens(causalGraph.History(), m.inputs)
      && forall t :: t in m.inputs ==> Graph.DestroyerCount(causalGraph.events, t) >= 1
    }

    // Takes away the match, the inputs that it was the last to consume, and what depends on them.
    method RemoveInputs(m: Match) returns (ghost removed: seq<TokenId>)
      requires CanRemove(m)
      modifies this`indexed, atomsIndex, matcher.queue
      ensures TablesAreValid()
      ensures forall t :: t in removed <==> t in m.inputs && IsSaturated(t)
      ensures indexed == old(indexed) - Elements(removed)
      ensures Leaves(old(matcher.queue.allMatches), matcher.queue.allMatches, m, removed)
    {
      if maxDestroyerEvents == 1 {
        removed := m.inputs;
        RemoveTokensAndMatches(m.inputs);
        DoesNotAvoidItself(m);
      } else if maxDestroyerEvents == MAX_INT64 {
        removed := [];
        matcher.queue.DeleteMatch(m);
        SameElements(indexed - Elements(removed), indexed);
      } else {
        removed := RemoveSaturatedInputs(m);
      }
    }

    static lemma DoesNotAvoidItself(m: Match)
      requires m.inputs != []
      ensures !Avoids(m, m.inputs)
    {
      var first := m.inputs[0];
      assert first in m.inputs;
    }

    // With a finite limit above one, m goes, and so does every match of an input that reached the limit.
    method RemoveSaturatedInputs(m: Match) returns (removed: seq<TokenId>)
      requires TablesAreValid() && m in matcher.queue.allMatches
      requires Index.AreKnown(tokens, m.inputs)
      requires causalGraph.CountsAreRight() && Graph.AreTokens(causalGraph.History(), m.inputs)
      modifies this`indexed, atomsIndex, matcher.queue
      ensures TablesAreValid()
      ensures forall t :: t in removed <==>
                t in m.inputs && Graph.DestroyerCount(causalGraph.events, t) >= maxDestroyerEvents
      ensures indexed == old(indexed) - Elements(removed)
      ensures Leaves(old(matcher.queue.allMatches), matcher.queue.allMatches, m, removed)
    {
      matcher.queue.DeleteMatch(m);
      removed := SaturatedInputs(m.inputs);
      KnownSubset(tokens, m.inputs, removed);
      RemoveTokensAndMatches(removed);
    }

    method RemoveTokensAndMatches(ids: seq<TokenId>)
      requires TablesAreValid() && Index.AreKnown(tokens, ids)
      modifies this`indexed, atomsIndex, matcher.queue
      ensures TablesAreValid() && indexed == old(indexed) - Elements(ids)
      ensures forall x :: x in matcher.queue.allMatches <==> x in old(matcher.queue.allMatches) && Avoids(x, ids)
    {
      matcher.queue.RemoveMatchesInvolvingTokens(ids);
      atomsIndex.RemoveTokens(ids, tokens, indexed);
      indexed := indexed - Elements(ids);
    }

    static lemma KnownSubset(contents: Contents, ids: seq<TokenId>, some: seq<TokenId>)
      requires Index.AreKnown(contents, ids) && forall t :: t in some ==> t in ids
      ensures Index.AreKnown(contents, some)
    {
      forall i | 0 <= i < |some|
        ensures some[i] in contents
      {
        var t := some[i];
        assert t in some;
        var k :| 0 <= k < |ids| && ids[k] == t;
        assert ids[k] in contents;
      }
    }

    method SaturatedInputs(inputs: seq<TokenId>) returns (saturated: seq<TokenId>)
      requires causalGraph.CountsAreRight() && Graph.AreTokens(causalGraph.History(), inputs)
      ensures forall t :: t in saturated <==>
                t in inputs && Graph.DestroyerCount(causalGraph.events, t) >= maxDestroyerEvents
    {
      saturated := [];
      for i := 0 to |inputs|
        invariant forall t :: t in saturated <==>
                    t in inputs[..i] && Graph.DestroyerCount(causalGraph.events, t) >= maxDestroyerEvents
      {
        var id := inputs[i];
        assert inputs[..i + 1] == inputs[..i] + [id];
        assert forall t :: t in inputs[..i + 1] <==> t in inputs[..i] || t == id;
        if causalGraph.destroyerEventsCounts[id] >= maxDestroyerEvents {
          saturated := saturated + [id];
        }
      }
      assert inputs[..|inputs|] == inputs;
    }

    ghost predicate CanCommit(m: Match)
      reads this`tokens, this`stepSpec, this`indexed, this`unindexedTokens
      reads causalGraph, atomsIndex, matcher, matcher.queue
    {
      && PartsAreValid()
      && (forall t :: t in tokens <==> IsToken(causalGraph.History(), t))
      && m in matcher.queue.allMatches && m.inputs != [] && Distinct(m.inputs)
      && Graph.AreTokens(causalGraph.History(), m.inputs)
      && unindexedTokens == [] && matcher.newMatches == {}
    }

    // The event and its tokens enter the causal graph.
    method RecordEvent(m: Match, named: seq<AtomsVector>) returns (outputTokenIds: seq<TokenId>)
      requires CanCommit(m)
      modifies this`tokens, this`unindexedTokens, this`atomDegrees, causalGraph
      ensures causalGraph.Valid() && TablesAreValid() && CanRemove(m)
      ensures causalGraph.History() == old(Graph.Appended(causalGraph.History(), m.rule, m.inputs, |named|))
      ensures outputTokenIds == Graph.IdsFrom(old(|causalGraph.creatorEvents|), |named|)
      ensures AddsContents(old(tokens), tokens, outputTokenIds, named)
      ensures AreUnindexed(
                causalGraph.History(), stepSpec.maxGenerationsLocal, Elements(unindexedTokens), outputTokenIds)
      ensures maxDestroyerEvents == 1 ==>
                && (forall x :: At(atomDegrees, x) == At(old(atomDegrees), x) + DegreeIn(named, x))
                && (HasNoZeros(old(atomDegrees)) ==> HasNoZeros(atomDegrees))
    {
      ghost var h := causalGraph.History();
      hide WellFormed, Graph.Layered, Graph.DestroyerCount, Graph.Appended, Graph.IdsFrom, Distinct, AreUnindexed;
      outputTokenIds := AddEventAndTokens(m, named);
      InputsCanBeRemoved(h, m, |named|, old(tokens));
      hide CanRemove, TablesAreValid;
    }

    method AddEventAndTokens(m: Match, named: seq<AtomsVector>) returns (outputTokenIds: seq<TokenId>)
      requires causalGraph.Valid() && Graph.AreTokens(causalGraph.History(), m.inputs) && unindexedTokens == []
      requires forall t :: t in tokens <==> IsToken(causalGraph.History(), t)
      modifies this`tokens, this`unindexedTokens, this`atomDegrees, causalGraph
      ensures causalGraph.Valid()
      ensures causalGraph.History() == old(Graph.Appended(causalGraph.History(), m.rule, m.inputs, |named|))
      ensures outputTokenIds == Graph.IdsFrom(old(|causalGraph.creatorEvents|), |named|)
      ensures AddsContents(old(tokens), tokens, outputTokenIds, named)
      ensures AreUnindexed(
                causalGraph.History(), stepSpec.maxGenerationsLocal, Elements(unindexedTokens), outputTokenIds)
      ensures maxDestroyerEvents == 1 ==>
                && (forall x :: At(atomDegrees, x) == At(old(atomDegrees), x) + DegreeIn(named, x))
                && (HasNoZeros(old(atomDegrees)) ==> HasNoZeros(atomDegrees))
    {
      NewIds(causalGraph.History(), m, |named|);
      hide WellFormed, Graph.Layered, Graph.DestroyerCount, Graph.Appended, Graph.IdsFrom, Distinct, AddsContents;
      outputTokenIds := causalGraph.AddEvent(m.rule, m.inputs, |named|);
      AddTokens(outputTokenIds, named);
    }

    lemma InputsCanBeRemoved(h: History, m: Match, n: nat, before: Contents)
      requires WellFormed(h) && Graph.AreTokens(h, m.inputs) && m.inputs != [] && m in matcher.queue.allMatches
      requires atomsIndex.Indexes(before, indexed) && matcher.queue.Valid() && causalGraph.CountsAreRight()
      requires causalGraph.History() == Graph.Appended(h, m.rule, m.inputs, n)
      requires forall t :: t in before ==> t in tokens && tokens[t] == before[t]
      requires forall t :: IsToken(h, t) ==> t in before
      ensures TablesAreValid() && CanRemove(m)
    {
      atomsIndex.IndexesMore(before, tokens, indexed);
      ConsumedNow(h, m, n);
      forall i | 0 <= i < |m.inputs|
        ensures m.inputs[i] in tokens
      {
        assert m.inputs[i] in before;
      }
    }

    // The new tokens get numbers that no token had.
    static lemma NewIds(h: History, m: Match, n: nat)
      requires WellFormed(h) && Graph.AreTokens(h, m.inputs)
      ensures var h', ids := Graph.Appended(h, m.rule, m.inputs, n), Graph.IdsFrom(|h.creators|, n);
              && WellFormed(h') && Graph.AreTokens(h', m.inputs) && Graph.AreTokens(h', ids)
              && |ids| == n && Distinct(ids) && forall t :: t in ids ==> IsToken(h', t) && !IsToken(h, t)
    {
      Graph.AppendedIsWellFormed(h, m.rule, m.inputs, n);
    }

    lemma ConsumedNow(h: History, m: Match, n: nat)
      requires WellFormed(h) && Graph.AreTokens(h, m.inputs)
      requires causalGraph.events == Graph.Appended(h, m.rule, m.inputs, n).events
      ensures forall t :: t in m.inputs ==> Graph.DestroyerCount(causalGraph.events, t) >= 1
    {
      forall t | t in m.inputs
        ensures Graph.DestroyerCount(causalGraph.events, t) >= 1
      {
        Graph.CountedIffConsumed(causalGraph.events, t);
        assert t in causalGraph.events[|h.events|].inputs;
      }
    }

    // Called with one destroyer per token, when the inputs of an event stop being live.
    method CountDestroyedTokens(inputs: seq<TokenId>, ghost vectors: seq<AtomsVector>)
      requires AreContents(tokens, inputs, vectors)
      modifies this`destroyedTokenCount, this`atomDegrees
      ensures destroyedTokenCount == old(destroyedTokenCount) + |inputs|
      ensures forall x :: At(atomDegrees, x) == At(old(atomDegrees), x) - DegreeIn(vectors, x)
      ensures HasNoZeros(old(atomDegrees)) ==> HasNoZeros(atomDegrees)
    {
      destroyedTokenCount := destroyedTokenCount + |inputs|;
      var deltaTokens := [];
      for i := 0 to |inputs|
        invariant deltaTokens == vectors[..i]
      {
        deltaTokens := deltaTokens + [tokens[inputs[i]]];
      }
      assert vectors[..|inputs|] == vectors;
      atomDegrees := UpdateAtomDegrees(atomDegrees, deltaTokens, -1, true);
    }

    // Everything that an event takes away.
    method ForgetInputs(m: Match, ghost inputs: seq<AtomsVector>) returns (ghost removed: seq<TokenId>)
      requires CanRemove(m) && AreContents(tokens, m.inputs, inputs)
      modifies this`atomDegrees, this`destroyedTokenCount, this`indexed, atomsIndex, matcher.queue
      ensures TablesAreValid()
      ensures forall t :: t in removed <==> t in m.inputs && IsSaturated(t)
      ensures indexed == old(indexed) - Elements(removed)
      ensures Leaves(old(matcher.queue.allMatches), matcher.queue.allMatches, m, removed)
      ensures maxDestroyerEvents == 1 ==>
                && destroyedTokenCount == old(destroyedTokenCount) + |inputs|
                && (forall x :: At(atomDegrees, x) == At(old(atomDegrees), x) - DegreeIn(inputs, x))
                && (HasNoZeros(old(atomDegrees)) ==> HasNoZeros(atomDegrees))
    {
      removed := RemoveInputs(m);
      if maxDestroyerEvents == 1 {
        CountDestroyedTokens(m.inputs, inputs);
      }
    }

    static lemma StillContents(
      before: Contents, after: Contents, ids: seq<TokenId>, named: seq<AtomsVector>, known: seq<TokenId>,
      vectors: seq<AtomsVector>)
      requires AddsContents(before, after, ids, named) && AreContents(before, known, vectors)
      ensures AreContents(after, known, vectors)
    {
      forall i | 0 <= i < |known|
        ensures known[i] in after && after[known[i]] == vectors[i]
      {
        var t := known[i];
        assert t in before;
      }
    }

    // Makes the match an event whose outputs have the given contents.
    method CommitEvent(m: Match, named: seq<AtomsVector>, ghost inputs: seq<AtomsVector>)
      returns (ghost ids: seq<TokenId>, ghost removed: seq<TokenId>)
      requires CanCommit(m) && AreContents(tokens, m.inputs, inputs)
      modifies this`tokens, this`unindexedTokens, this`atomDegrees, this`destroyedTokenCount, this`indexed
      modifies causalGraph, atomsIndex, matcher.queue
      ensures PartsAreValid()
      ensures IsApplied(old(Snapshot()), Snapshot(), m, ids, named, removed)
      ensures maxDestroyerEvents == 1 ==>
                && destroyedTokenCount == old(destroyedTokenCount) + |inputs|
                && (forall x :: At(atomDegrees, x) == After(old(atomDegrees), inputs, named, x))
                && (HasNoZeros(old(atomDegrees)) ==> HasNoZeros(atomDegrees))
    {
      hide AddsContents, AreUnindexed, Leaves, Distinct, TablesAreValid, WellFormed, AreContents;
      var outputTokenIds := RecordEvent(m, named);
      ids := outputTokenIds;
      StillContents(old(tokens), tokens, ids, named, m.inputs, inputs);
      removed := ForgetInputs(m, inputs);
    }

    method NameAnonymousAtoms(vectors: seq<AtomsVector>) returns (error: Error, named: seq<AtomsVector>)
      requires Valid()
      modifies this`nextAtom
      ensures Valid() && Snapshot() == old(Snapshot())
      ensures error == NoError || (error == AtomCountOverflow && old(nextAtom) <= nextAtom == MAX_INT64)
      ensures error == AtomCountOverflow <==> old(nextAtom) + |Naming(Flatten(vectors), old(nextAtom))| > MAX_INT64
      ensures error == NoError ==>
                && named == RenameAll(Naming(Flatten(vectors), old(nextAtom)), vectors)
                && nextAtom == old(nextAtom) + |Naming(Flatten(vectors), old(nextAtom))|
                && 1 <= old(nextAtom) <= nextAtom <= MAX_INT64
    {
      hide Invariant, QueueIsRight, EventsAreInstances, PartsAreValid;
      var ok;
      ok, named, nextAtom := NamePatternAtoms(vectors, nextAtom, Some(MAX_INT64));
      error := if ok then NoError else AtomCountOverflow;
    }

    // Makes the match an event, once its new atoms have names.
    method ApplyMatch(m: Match, named: seq<AtomsVector>, ghost inputs: seq<AtomsVector>, ghost outputs: seq<AtomsVector>,
                      ghost start: Atom)
      requires Valid() && CanHappen(Snapshot(), m) && AreContents(tokens, m.inputs, inputs)
      requires IsNamed(Snapshot(), m, start, nextAtom, outputs, named) && CounterIsBeyond(Snapshot(), start)
      modifies this`tokens, this`unindexedTokens, this`atomDegrees, this`destroyedTokenCount, this`indexed
      modifies causalGraph, atomsIndex, matcher.queue
      ensures Valid()
      ensures Graph.AreTokens(old(Snapshot()).history, m.inputs)
      ensures IsEvent(old(Snapshot()), Snapshot(), m, |named|) && Evolves(old(Snapshot()), Snapshot())
      ensures AreContents(tokens, Graph.IdsFrom(old(|causalGraph.creatorEvents|), |named|), named)
      ensures maxDestroyerEvents == 1 ==> forall x :: At(atomDegrees, x) == After(old(atomDegrees), inputs, named, x)
    {
      hide PartsAreValid;
      ghost var before := Snapshot();
      PendingInputs(before, m);
      ghost var ids, removed;
      ids, removed := CommitEvent(m, named, inputs);
      AppliedEvolves(before, Snapshot(), m, ids, named, removed, start, nextAtom, outputs);
      AppliedIsInstance(before, Snapshot(), m, start, nextAtom, outputs, named);
      AppliedIsCounted(
        before, Snapshot(), m, ids, inputs, named, removed, start, nextAtom, outputs, maxDestroyerEvents,
        old(destroyedTokenCount), destroyedTokenCount, old(atomDegrees), atomDegrees);
    }

    // ----- steps

    method WillExceedTokenLimit(inputs: seq<AtomsVector>, outputs: seq<AtomsVector>) returns (reason: TerminationReason)
      ensures reason == NotTerminated || reason == MaxFinalTokens
      ensures reason == NotTerminated <==>
              InLimit(|causalGraph.creatorEvents| - destroyedTokenCount - |inputs| + |outputs|, stepSpec.maxFinalTokens)
    {
      if stepSpec.maxFinalTokens == MAX_INT64 {
        return NotTerminated;
      }
      var currentTokenCount := |causalGraph.creatorEvents| - destroyedTokenCount;
      var newTokenCount := currentTokenCount - |inputs| + |outputs|;
      reason := if newTokenCount > stepSpec.maxFinalTokens then MaxFinalTokens else NotTerminated;
    }

    method WillExceedLimits(inputs: seq<AtomsVector>, outputs: seq<AtomsVector>) returns (reason: TerminationReason)
      requires AtomsAreUnlimited(stepSpec) || CanConsume(atomDegrees, inputs)
      ensures reason == NotTerminated ==>
                IsWithin(stepSpec, atomDegrees, |causalGraph.creatorEvents| - destroyedTokenCount, inputs, outputs)
      ensures reason != NotTerminated ==>
                IsExceeded(
                  reason, stepSpec, atomDegrees, |causalGraph.creatorEvents| - destroyedTokenCount, inputs, outputs)
    {
      reason := WillExceedAtomLimits(
        atomDegrees, inputs, outputs, stepSpec.maxFinalAtoms, stepSpec.maxFinalAtomDegree);
      if reason == NotTerminated {
        reason := WillExceedTokenLimit(inputs, outputs);
      }
    }

    lemma MatchCanBeRead(m: Match)
      requires Valid() && CanHappen(Snapshot(), m)
      ensures matcher.IsReady(tokens, indexed) && matcher.Space(tokens, indexed) == Snapshot().Space(indexed)
      ensures Snapshot().Space(indexed).IsExplained(m)
      ensures Graph.AreTokens(causalGraph.History(), m.inputs)
      ensures forall i :: 0 <= i < |m.inputs| ==> m.inputs[i] in tokens
    {
      PendingInputs(Snapshot(), m);
      SearchCanStart(Snapshot(), unindexedTokens);
      assert IsPending(Snapshot(), m);
    }

    lemma InputsCanBeConsumed(m: Match, inputs: seq<AtomsVector>)
      requires Valid() && CanHappen(Snapshot(), m) && AreContents(tokens, m.inputs, inputs) && maxDestroyerEvents == 1
      ensures CanConsume(atomDegrees, inputs)
    {
      LiveInputs(Snapshot(), m);
      LiveTokensCanBeConsumed(atomDegrees, tokens, LiveOf(Snapshot()), m.inputs, inputs);
    }

    // The contents of the inputs and of the outputs.
    method ReadMatch(m: Match) returns (inputs: seq<AtomsVector>, outputs: seq<AtomsVector>)
      requires Valid() && CanHappen(Snapshot(), m)
      ensures AreContents(tokens, m.inputs, inputs)
      ensures Snapshot().Space(indexed).IsExplained(m) && outputs == Snapshot().Space(indexed).Outputs(m)
    {
      hide Invariant, QueueIsRight, EventsAreInstances, AreCounted;
      MatchCanBeRead(m);
      inputs := matcher.MatchInputAtomsVectors(m, tokens);
      outputs := matcher.MatchOutputAtomsVectors(m, tokens, indexed);
    }

    // Never reports a limit for a multihistory.
    method WhatWouldExceed(m: Match, inputs: seq<AtomsVector>, outputs: seq<AtomsVector>)
      returns (reason: TerminationReason)
      requires Valid() && CanHappen(Snapshot(), m) && AreContents(tokens, m.inputs, inputs)
      requires Snapshot().Space(indexed).IsExplained(m) && outputs == Snapshot().Space(indexed).Outputs(m)
      requires maxDestroyerEvents == 0 ==> AtomsAreUnlimited(stepSpec)
      ensures reason == NotTerminated && !HasMultipleHistories() ==>
                IsWithin(stepSpec, atomDegrees, |causalGraph.creatorEvents| - destroyedTokenCount, inputs, outputs)
      ensures reason != NotTerminated ==>
                && IsFinalStateReason(reason)
                && WouldExceed(
                     Snapshot(), m, reason, stepSpec, atomDegrees, |causalGraph.creatorEvents| - destroyedTokenCount)
    {
      hide PartsAreValid, Invariant, QueueIsRight, AreCounted, EventsAreInstances;
      reason := NotTerminated;
      if !HasMultipleHistories() {
        if maxDestroyerEvents == 1 {
          InputsCanBeConsumed(m, inputs);
        }
        reason := WillExceedLimits(inputs, outputs);
        assert inputs == InputVectors(tokens, m);
      }
    }

    lemma CounterIsRight()
      requires Valid()
      ensures CounterIsBeyond(Snapshot(), nextAtom)
    {
      hide Invariant, QueueIsRight, EventsAreInstances, PartsAreValid, CounterIsBeyond;
    }

    // Fails only if the new names do not fit, in which case no match becomes an event.
    method NameAndApply(m: Match, inputs: seq<AtomsVector>, outputs: seq<AtomsVector>) returns (error: Error)
      requires Valid() && CanHappen(Snapshot(), m) && AreContents(tokens, m.inputs, inputs)
      requires Snapshot().Space(indexed).IsExplained(m) && outputs == Snapshot().Space(indexed).Outputs(m)
      modifies this`nextAtom, this`tokens, this`unindexedTokens, this`atomDegrees, this`destroyedTokenCount, this`indexed
      modifies causalGraph, atomsIndex, matcher.queue
      ensures Valid() && Evolves(old(Snapshot()), Snapshot())
      ensures error == NoError || error == AtomCountOverflow
      ensures error != NoError ==>
                Snapshot() == old(Snapshot()) && atomDegrees == old(atomDegrees) && nextAtom >= old(nextAtom)
      ensures error == NoError ==> Happened(old(Snapshot()), Snapshot(), m, old(nextAtom), nextAtom)
      ensures error == NoError && maxDestroyerEvents == 1 ==>
                forall x :: At(atomDegrees, x) ==
                            After(old(atomDegrees), inputs, RenameAll(Naming(Flatten(outputs), old(nextAtom)), outputs), x)
    {
      hide PartsAreValid, Invariant, QueueIsRight, FrozenUpTo, IsEvent, AreCounted, TablesAreValid;
      CounterIsRight();
      ghost var start := nextAtom;
      EvolvesReflexive(Snapshot());
      var named;
      error, named := NameAnonymousAtoms(outputs);
      if error == NoError {
        ApplyMatch(m, named, inputs, outputs, start);
      }
    }

    ghost function Live(): set<TokenId>
      reads this`tokens, causalGraph`events
    {
      LiveTokens(tokens, causalGraph.events)
    }

    // Limits that hold stay so, as long as rules do not name atoms beyond the counter.
    static ghost predicate LimitsStay(
      rules: seq<Rule>, spec: StepSpecification, live: set<TokenId>, degrees: Degrees, start: Atom,
      live': set<TokenId>, degrees': Degrees, counter: Atom)
    {
      && (IsInLimits(spec, live, degrees) ==> IsInLimits(spec, live', degrees'))
      && (RuleAtomsUpTo(rules, start) && DegreesAreInLimit(degrees, spec.maxFinalAtomDegree) ==>
            DegreesAreInLimit(degrees', spec.maxFinalAtomDegree))
      && start <= counter
    }

    twostate predicate StaysInLimits()
      reads this, causalGraph
    {
      LimitsStay(rules, stepSpec, old(Live()), old(atomDegrees), old(nextAtom), Live(), atomDegrees, nextAtom)
    }

    lemma NothingExceeded()
      ensures LimitsStay(rules, stepSpec, Live(), atomDegrees, nextAtom, Live(), atomDegrees, nextAtom)
    {
    }

    method ApplyWithinLimits(m: Match, inputs: seq<AtomsVector>, outputs: seq<AtomsVector>) returns (error: Error)
      requires Valid() && CanHappen(Snapshot(), m) && AreContents(tokens, m.inputs, inputs)
      requires Snapshot().Space(indexed).IsExplained(m) && outputs == Snapshot().Space(indexed).Outputs(m)
      requires !HasMultipleHistories() ==>
                 IsWithin(stepSpec, atomDegrees, |causalGraph.creatorEvents| - destroyedTokenCount, inputs, outputs)
      modifies this`nextAtom, this`tokens, this`unindexedTokens, this`atomDegrees, this`destroyedTokenCount, this`indexed
      modifies causalGraph, atomsIndex, matcher.queue
      ensures Valid() && Evolves(old(Snapshot()), Snapshot())
      ensures error == NoError || error == AtomCountOverflow
      ensures error != NoError ==> Snapshot() == old(Snapshot())
      ensures error == NoError ==> Happened(old(Snapshot()), Snapshot(), m, old(nextAtom), nextAtom)
      ensures maxDestroyerEvents == 1 ==>
                StaysInLimits() && (error == NoError ==> IsInLimits(stepSpec, Live(), atomDegrees))
    {
      hide PartsAreValid, QueueIsRight, FrozenUpTo, IsEvent, TablesAreValid, IsInLimits, DegreesAreInLimit;
      ghost var before, start, degrees := Snapshot(), nextAtom, atomDegrees;
      error := NameAndApply(m, inputs, outputs);
      if error == NoError && maxDestroyerEvents == 1 {
        PredictedLimitsHold(stepSpec, before, Snapshot(), m, inputs, start, nextAtom, degrees, atomDegrees);
      }
    }

    // Why a step made no event.
    ghost predicate StopIsJustified(event: Match)
      reads this, causalGraph, matcher, matcher.queue
    {
      && terminationReason != NotTerminated && terminationReason != AbortedByCaller && terminationReason != TimeConstrained
      && (terminationReason == MaxEvents <==> causalGraph.EventsCount() >= stepSpec.maxEvents)
      && (terminationReason == MaxGenerationsLocal || terminationReason == Complete ==>
            matcher.queue.allMatches == {} && unindexedTokens == [])
      && (terminationReason == MaxGenerationsLocal ==>
            Graph.IsLargestGeneration(causalGraph.History(), stepSpec.maxGenerationsLocal))
      && (terminationReason == Complete ==>
            && !Graph.IsLargestGeneration(causalGraph.History(), stepSpec.maxGenerationsLocal)
            && IsFinal(Snapshot(), matcher.queue.orderingSpec, matcher.deduplicates))
      && (IsFinalStateReason(terminationReason) ==>
            && IsFirstOf(matcher.queue.orderingSpec, matcher.queue.allMatches, event)
            && WouldExceed(Snapshot(), event, terminationReason, stepSpec, atomDegrees,
                           |causalGraph.creatorEvents| - destroyedTokenCount))
    }

    // Makes the match an event unless that would exceed a limit.
    method TryMatch(m: Match) returns (error: Error, count: int)
      requires Valid() && CanHappen(Snapshot(), m) && terminationReason == NotTerminated
      requires causalGraph.EventsCount() < stepSpec.maxEvents
      requires IsFirstOf(matcher.queue.orderingSpec, matcher.queue.allMatches, m)
      requires maxDestroyerEvents == 0 ==> AtomsAreUnlimited(stepSpec)
      modifies this`nextAtom, this`tokens, this`unindexedTokens, this`atomDegrees, this`destroyedTokenCount, this`indexed
      modifies this`terminationReason, causalGraph, atomsIndex, matcher.queue
      ensures Valid() && Evolves(old(Snapshot()), Snapshot())
      ensures error == NoError || error == AtomCountOverflow
      ensures count == 0 || (count == 1 && error == NoError)
      ensures count == 0 ==> Snapshot() == old(Snapshot())
      ensures count == 0 && error == NoError ==> nextAtom == old(nextAtom) && atomDegrees == old(atomDegrees)
      ensures count == 0 && error == NoError ==> StopIsJustified(m)
      ensures count == 1 ==>
                Happened(old(Snapshot()), Snapshot(), m, old(nextAtom), nextAtom) && terminationReason == NotTerminated
      ensures maxDestroyerEvents == 1 ==>
                StaysInLimits() && (count == 1 ==> IsInLimits(stepSpec, Live(), atomDegrees))
    {
      hide PartsAreValid, Invariant, QueueIsRight, EventsAreInstances, FrozenUpTo, Evolves, IsEvent, WouldExceed, Happened;
      hide IsInLimits, DegreesAreInLimit, RuleAtomsUpTo, AreCounted, TablesAreValid, IsFirstOf, IsFinal, LimitsStay;
      NothingExceeded();
      EvolvesReflexive(Snapshot());
      var explicitRuleInputs, explicitRuleOutputs := ReadMatch(m);
      terminationReason := WhatWouldExceed(m, explicitRuleInputs, explicitRuleOutputs);
      if terminationReason != NotTerminated {
        return NoError, 0;
      }
      error := ApplyWithinLimits(m, explicitRuleInputs, explicitRuleOutputs);
      count := if error == NoError then 1 else 0;
    }

    // The next match to be applied: any that no other one precedes.
    method NextMatch(ghost pending: Snapshot) returns (m: Match)
      requires Valid() && NothingIsStale() && unindexedTokens == [] && matcher.newMatches == {}
      requires matcher.queue.NextIsCurrent() && matcher.queue.buckets != [] && pending == Snapshot()
      ensures CanHappen(pending, m) && IsFirstOf(matcher.queue.orderingSpec, matcher.queue.allMatches, m)
    {
      matcher.queue.NextIsFirst();
      m := matcher.queue.nextMatch.value;
      forall x
        ensures Compare(matcher.queue.orderingSpec, x, m) < 0 <==> ComesFirst(matcher.queue.orderingSpec, x, m)
      {
        ComparedIff(matcher.queue.orderingSpec, x, m);
      }
    }

    method StopWithNothingLeft(ghost event: Match)
      requires Valid() && unindexedTokens == [] && matcher.queue.NextIsCurrent() && matcher.queue.buckets == []
      requires causalGraph.EventsCount() < stepSpec.maxEvents
      modifies this`terminationReason
      ensures StopIsJustified(event)
    {
      hide Invariant, QueueIsRight, AreCounted, EventsAreInstances, IsFinal, WouldExceed, Graph.Layered, WellFormed;
      matcher.queue.NextIsFirst();
      terminationReason :=
        if causalGraph.largestGeneration == stepSpec.maxGenerationsLocal then MaxGenerationsLocal else Complete;
      if terminationReason == Complete {
        EmptyIsFinal(Snapshot(), matcher.queue.orderingSpec, matcher.deduplicates, causalGraph.largestGeneration);
      }
    }

    // Makes the first of the pending matches an event.
    method ApplyNext() returns (error: Error, count: int, ghost event: Match)
      requires Valid() && unindexedTokens == [] && matcher.newMatches == {} && matcher.queue.NextIsCurrent()
      requires terminationReason == NotTerminated && causalGraph.EventsCount() < stepSpec.maxEvents
      requires maxDestroyerEvents == 0 ==> AtomsAreUnlimited(stepSpec)
      modifies this`nextAtom, this`tokens, this`unindexedTokens, this`atomDegrees, this`destroyedTokenCount, this`indexed
      modifies this`terminationReason, causalGraph, atomsIndex, matcher.queue
      ensures Valid() && Evolves(old(Snapshot()), Snapshot())
      ensures count == 0 || (count == 1 && error == NoError)
      ensures error == NoError || error == AtomCountOverflow
      ensures count == 0 ==> Snapshot() == old(Snapshot())
      ensures count == 0 && error == NoError ==> nextAtom == old(nextAtom) && atomDegrees == old(atomDegrees)
      ensures count == 0 && error == NoError ==> StopIsJustified(event)
      ensures count == 1 ==>
                && IsFirstOf(matcher.queue.orderingSpec, old(matcher.queue.allMatches), event)
                && Happened(old(Snapshot()), Snapshot(), event, old(nextAtom), nextAtom)
                && terminationReason == NotTerminated
      ensures maxDestroyerEvents == 1 ==>
                StaysInLimits() && (count == 1 ==> IsInLimits(stepSpec, Live(), atomDegrees))
    {
      hide PartsAreValid, QueueIsRight, FrozenUpTo, IsEvent, WouldExceed, Happened, Invariant, IsFinal;
      hide StopIsJustified, LimitsStay;
      NothingExceeded();
      error, count, event := NoError, 0, Match(0, []);
      EvolvesReflexive(Snapshot());
      if matcher.queue.buckets == [] {
        StopWithNothingLeft(event);
        return;
      }
      var m := NextMatch(Snapshot());
      event := m;
      error, count := TryMatch(m);
    }

    // The errors a step can raise.
    ghost predicate IsStepError(error: Error, mayAbort: bool) {
      && error != NonPositiveAtoms && error != FinalStateStepSpecificationForMultihistory
      && (error == Aborted ==> mayAbort)
      && (error == DisconnectedInputs ==> exists r :: 0 <= r < |rules| && !Connected(rules[r].inputs))
    }

    // Finds matches and applies the first one. pending is the state in between.
    method IndexAndApply(mayAbort: bool)
      returns (error: Error, count: int, ghost pending: Snapshot, ghost event: Match)
      requires Valid() && NothingIsStale() && terminationReason == NotTerminated
      requires causalGraph.EventsCount() < stepSpec.maxEvents
      requires maxDestroyerEvents == 0 ==> AtomsAreUnlimited(stepSpec)
      modifies this`nextAtom, this`tokens, this`unindexedTokens, this`atomDegrees, this`destroyedTokenCount, this`indexed
      modifies this`terminationReason, causalGraph, atomsIndex, matcher, matcher.queue
      ensures Valid() && Evolves(old(Snapshot()), Snapshot())
      ensures IsStepError(error, mayAbort) && (error == NoError ==> NothingIsStale())
      ensures count == 0 || (count == 1 && error == NoError)
      ensures count == 0 ==> causalGraph.History() == old(causalGraph.History())
      ensures count == 0 && error == NoError ==> nextAtom == old(nextAtom) && atomDegrees == old(atomDegrees)
      ensures count == 0 && error == NoError ==> StopIsJustified(event)
      ensures count == 1 ==>
                && IsIndexed(old(Snapshot()), pending, matcher.queue.orderingSpec, matcher.deduplicates)
                && IsFirstOf(matcher.queue.orderingSpec, pending.queue, event)
                && Happened(pending, Snapshot(), event, old(nextAtom), nextAtom)
                && terminationReason == NotTerminated
      ensures maxDestroyerEvents == 1 ==>
                StaysInLimits() && (count == 1 ==> IsInLimits(stepSpec, Live(), atomDegrees))
    {
      hide PartsAreValid, Invariant, QueueIsRight, FrozenUpTo, Evolves, Happened, IsFirstOf, StopIsJustified;
      hide IsIndexed, IsSearched, AreCounted, TablesAreValid, IsInLimits, DegreesAreInLimit, RuleAtomsUpTo;
      hide LimitsStay;
      NothingExceeded();
      ghost var before := Snapshot();
      count, event := 0, Match(0, []);
      error := IndexNewTokens(mayAbort);
      pending := Snapshot();
      if error != NoError {
        return;
      }
      error, count, event := ApplyNext();
      EvolvesTransitive(before, pending, Snapshot());
    }

    // Makes one event if possible. A system that allows no destroyer at all makes events only on this request.
    method ReplaceOnce(mayAbort: bool, resetStepSpec: bool)
      returns (error: Error, count: int, ghost pending: Snapshot, ghost event: Match)
      requires Valid() && NothingIsStale() && (maxDestroyerEvents == 0 ==> resetStepSpec)
      modifies this, causalGraph, atomsIndex, matcher, matcher.queue
      ensures Valid() && Evolves(old(Snapshot()), Snapshot())
      ensures stepSpec == if resetStepSpec then UNLIMITED else old(stepSpec)
      ensures IsStepError(error, mayAbort) && (error == NoError ==> NothingIsStale())
      ensures count == 0 || (count == 1 && error == NoError)
      ensures count == 0 ==> causalGraph.History() == old(causalGraph.History())
      ensures count == 0 && causalGraph.EventsCount() >= stepSpec.maxEvents ==>
                error == NoError && AddsLastGeneration(old(Snapshot()), Snapshot(), stepSpec.maxGenerationsLocal)
      ensures count == 0 && error == NoError ==> nextAtom == old(nextAtom) && atomDegrees == old(atomDegrees)
      ensures count == 0 && error == NoError ==> StopIsJustified(event)
      ensures count == 1 ==>
                && IsBroughtUpToDate(old(Snapshot()), pending, matcher.queue.orderingSpec, matcher.deduplicates)
                && IsFirstOf(matcher.queue.orderingSpec, pending.queue, event)
                && Happened(pending, Snapshot(), event, old(nextAtom), nextAtom)
                && old(causalGraph.EventsCount()) < stepSpec.maxEvents
                && terminationReason == NotTerminated
      ensures maxDestroyerEvents == 1 && !resetStepSpec ==>
                StaysInLimits() && (count == 1 ==> IsInLimits(stepSpec, Live(), atomDegrees))
    {
      hide Invariant, QueueIsRight, FrozenUpTo, Evolves, Happened, IsFirstOf, IsIndexed, WouldExceed, IsFinal;
      hide AreCounted, TablesAreValid, IsInLimits, DegreesAreInLimit, RuleAtomsUpTo, IsBroughtUpToDate;
      hide AddsLastGeneration, StopIsJustified, LimitsStay, PartsAreValid;
      NothingExceeded();
      ghost var before := Snapshot();
      error, count, event := NoError, 0, Match(0, []);
      ResetIf(resetStepSpec);
      ghost var raised := Snapshot();
      pending := raised;
      if causalGraph.EventsCount() >= stepSpec.maxEvents {
        StopAtMaxEvents(event);
        return;
      }
      error, count, pending, event := IndexAndApply(mayAbort);
      EvolvesTransitive(before, raised, Snapshot());
      if count == 1 {
        UpToDate(before, raised, pending, matcher.queue.orderingSpec, matcher.deduplicates);
      }
    }

    method StopAtMaxEvents(ghost event: Match)
      requires causalGraph.EventsCount() >= stepSpec.maxEvents
      modifies this`terminationReason
      ensures StopIsJustified(event)
    {
      terminationReason := MaxEvents;
    }

    // Without limits the step specification is never invalid.
    method ResetIf(resetStepSpec: bool)
      requires Valid()
      modifies this`stepSpec, this`unindexedTokens, this`terminationReason
      ensures Valid() && terminationReason == NotTerminated
      ensures stepSpec == if resetStepSpec then UNLIMITED else old(stepSpec)
      ensures AddsLastGeneration(old(Snapshot()), Snapshot(), stepSpec.maxGenerationsLocal)
      ensures Evolves(old(Snapshot()), Snapshot())
    {
      hide Invariant, QueueIsRight, FrozenUpTo;
      SameGeneration(Snapshot());
      if resetStepSpec {
        var error := UpdateStepSpec(UNLIMITED);
      }
      terminationReason := NotTerminated;
    }

    // What is left of the potential, if there is a limit on destroyers.
    ghost function PotentialLeft(): int
      requires Valid() && maxDestroyerEvents != MAX_INT64
      reads this`tokens, this`stepSpec, this`indexed, this`unindexedTokens, this`nextAtom, this`destroyedTokenCount,
            this`atomDegrees
      reads causalGraph, atomsIndex, matcher, matcher.queue
    {
      EventBound(causalGraph.History(), stepSpec.maxGenerationsLocal)
    }

    // One step of the loop.
    method ReplaceNext(mayAbort: bool) returns (error: Error, count: nat)
      requires Valid() && NothingIsStale() && maxDestroyerEvents > 0
      modifies this, causalGraph, atomsIndex, matcher, matcher.queue
      ensures Valid() && Evolves(old(Snapshot()), Snapshot())
      ensures stepSpec == old(stepSpec)
      ensures IsStepError(error, mayAbort) && (error == NoError ==> NothingIsStale())
      ensures count <= 1 && (count == 1 ==> error == NoError)
      ensures causalGraph.EventsCount() == old(causalGraph.EventsCount()) + count
      ensures count == 1 ==> causalGraph.EventsCount() <= stepSpec.maxEvents
      ensures count == 0 && error == NoError ==> exists event :: StopIsJustified(event)
      ensures error == Aborted ==> terminationReason == AbortedByCaller || terminationReason == TimeConstrained
      ensures maxDestroyerEvents != MAX_INT64 ==> PotentialLeft() + count <= old(PotentialLeft())
      ensures maxDestroyerEvents == 1 ==> StaysInLimits()
    {
      hide PartsAreValid, StopIsJustified, QueueIsRight, FrozenUpTo, AreCounted, TablesAreValid, Happened, IsFirstOf;
      hide IsInLimits, DegreesAreInLimit, RuleAtomsUpTo, IsBroughtUpToDate, PotentialOf;
      ghost var before, start := Snapshot(), nextAtom;
      ghost var pending, event;
      error, count, pending, event := ReplaceOnce(mayAbort, false);
      if count == 1 {
        StepCosts(before, pending, Snapshot(), event, start, nextAtom, matcher.queue.orderingSpec, matcher.deduplicates);
      }
      if error == Aborted {
        NoteInterruption();
      }
    }

    // The caller asked to stop, or the time is up.
    method NoteInterruption()
      modifies this`terminationReason
      ensures terminationReason == AbortedByCaller || terminationReason == TimeConstrained
    {
      var timedOut: bool := *;
      terminationReason := if timedOut then TimeConstrained else AbortedByCaller;
    }

    method ReplaceUntilStopped(mayAbort: bool) returns (error: Error, count: nat)
      requires Valid() && NothingIsStale() && maxDestroyerEvents > 0
      modifies this, causalGraph, atomsIndex, matcher, matcher.queue
      ensures Valid() && Evolves(old(Snapshot()), Snapshot())
      ensures stepSpec == old(stepSpec)
      ensures IsStepError(error, mayAbort)
      ensures causalGraph.EventsCount() == old(causalGraph.EventsCount()) + count
      ensures count > 0 ==> causalGraph.EventsCount() <= stepSpec.maxEvents
      ensures error == NoError ==> NothingIsStale() && exists event :: StopIsJustified(event)
      ensures error == Aborted ==> terminationReason == AbortedByCaller || terminationReason == TimeConstrained
      ensures maxDestroyerEvents != MAX_INT64 ==> PotentialLeft() + count <= old(PotentialLeft())
      ensures maxDestroyerEvents == 1 ==> StaysInLimits()
    {
      hide PartsAreValid, Invariant, QueueIsRight, FrozenUpTo, Evolves, StopIsJustified, AreCounted, TablesAreValid;
      hide IsInLimits, DegreesAreInLimit, RuleAtomsUpTo, PotentialOf, IsStepError;
      ghost var before := Snapshot();
      count := 0;
      EvolvesReflexive(before);
      while true
        invariant Valid() && NothingIsStale() && Evolves(before, Snapshot())
        invariant stepSpec == old(stepSpec)
        invariant causalGraph.EventsCount() == old(causalGraph.EventsCount()) + count
        invariant count > 0 ==> causalGraph.EventsCount() <= stepSpec.maxEvents
        invariant maxDestroyerEvents != MAX_INT64 ==> PotentialLeft() + count <= old(PotentialLeft())
        invariant maxDestroyerEvents == 1 ==> StaysInLimits()
        decreases stepSpec.maxEvents - causalGraph.EventsCount()
      {
        var replaced;
        ghost var middle := Snapshot();
        if RuleAtomsUpTo(rules, old(nextAtom)) && old(nextAtom) <= nextAtom {
          RuleAtomsStayUpTo(rules, old(nextAtom), nextAtom);
        }
        error, replaced := ReplaceNext(mayAbort);
        EvolvesTransitive(before, middle, Snapshot());
        if replaced == 0 {
          break;
        }
        count := count + 1;
      }
    }

    // Makes events until nothing is left to do or a limit is reached. There are never more of them than the
    // tokens can give.
    method Replace(newStepSpec: StepSpecification, mayAbort: bool) returns (error: Error, count: nat)
      requires Valid() && NothingIsStale() && newStepSpec.maxGenerationsLocal <= MAX_INT64
      requires CanLimit(newStepSpec) ==> CanChangeLimit(Snapshot(), newStepSpec.maxGenerationsLocal)
      modifies this, causalGraph, atomsIndex, matcher, matcher.queue
      ensures Valid() && EvolvesWithin(old(Snapshot()), Snapshot(), stepSpec.maxGenerationsLocal)
      ensures error == FinalStateStepSpecificationForMultihistory <==> !CanLimit(newStepSpec)
      ensures CanLimit(newStepSpec) ==> IsStepError(error, mayAbort)
      ensures !CanLimit(newStepSpec) || maxDestroyerEvents == 0 ==> count == 0
      ensures stepSpec == if CanLimit(newStepSpec) then newStepSpec else old(stepSpec)
      ensures causalGraph.EventsCount() == old(causalGraph.EventsCount()) + count
      ensures count > 0 ==> causalGraph.EventsCount() <= newStepSpec.maxEvents
      ensures error == NoError ==>
                NothingIsStale() && (maxDestroyerEvents > 0 ==> exists event :: StopIsJustified(event))
      ensures error == Aborted ==> terminationReason == AbortedByCaller || terminationReason == TimeConstrained
      ensures maxDestroyerEvents != MAX_INT64 ==>
                count <= EventBound(old(causalGraph.History()), newStepSpec.maxGenerationsLocal)
      ensures maxDestroyerEvents == 1 ==>
                && (IsInLimits(newStepSpec, old(Live()), old(atomDegrees)) ==> IsInLimits(newStepSpec, Live(), atomDegrees))
                && (RuleAtomsUpTo(rules, old(nextAtom)) &&
                    DegreesAreInLimit(old(atomDegrees), newStepSpec.maxFinalAtomDegree) ==>
                      DegreesAreInLimit(atomDegrees, newStepSpec.maxFinalAtomDegree))
    {
      hide PartsAreValid, Invariant, QueueIsRight, FrozenUpTo, StopIsJustified, AreCounted, TablesAreValid;
      hide IsInLimits, DegreesAreInLimit, RuleAtomsUpTo;
      ghost var before := Snapshot();
      count := 0;
      BoundIsNatural(newStepSpec.maxGenerationsLocal);
      error := UpdateStepSpec(newStepSpec);
      if error != NoError || maxDestroyerEvents == 0 {
        return;
      }
      ghost var raised := Snapshot();
      error, count := ReplaceUntilStopped(mayAbort);
      EvolvesTransitive(Limited(before, stepSpec.maxGenerationsLocal), raised, Snapshot());
      BoundIsNatural(stepSpec.maxGenerationsLocal);
    }

    // The most events that can follow a history without generations beyond the last one.
    ghost function EventBound(h: History, maxGeneration: int): int
      requires WellFormed(h) && maxDestroyerEvents != MAX_INT64
    {
      PotentialOf(rules, h, maxGeneration, DestroyerLimit(maxDestroyerEvents).value)
    }

    lemma BoundIsNatural(maxGeneration: int)
      requires Valid()
      ensures maxDestroyerEvents != MAX_INT64 ==> EventBound(causalGraph.History(), maxGeneration) >= 0
    {
      if maxDestroyerEvents != MAX_INT64 {
        PotentialOfIsNatural(Snapshot(), maxGeneration);
      }
    }

    // ----- complete generations

    // The largest generation of the inputs.
    method LargestInputGeneration(inputs: seq<TokenId>) returns (largest: int)
      requires causalGraph.Valid() && Graph.AreTokens(causalGraph.History(), inputs) && inputs != []
      ensures largest == Graph.NextGeneration(causalGraph.History(), inputs) - 1
    {
      ghost var h := causalGraph.History();
      Graph.GenerationsAreNatural(h, |h.events|);
      largest := 0;
      for i := 0 to |inputs|
        invariant largest == if i == 0 then 0 else Graph.NextGeneration(h, inputs[..i]) - 1
        invariant Graph.NextGeneration(h, inputs[..i]) <= largest + 1
      {
        assert inputs[..i + 1][..i] == inputs[..i];
        var generation := causalGraph.GenerationOf(inputs[i]);
        if largest < generation {
          largest := generation;
        }
      }
      assert inputs[..|inputs|] == inputs;
    }

    // No match has only inputs of earlier generations.
    method SmallestGeneration() returns (smallest: int)
      requires Valid()
      ensures smallest <= MAX_INT64
      ensures forall m :: m in matcher.queue.allMatches ==> smallest < EventGeneration(Snapshot(), m)
      ensures smallest == MAX_INT64 || exists m ::
                m in matcher.queue.allMatches && smallest == EventGeneration(Snapshot(), m) - 1
    {
      hide QueueIsRight, AreCounted, TablesAreValid, Invariant;
      ghost var s := Snapshot();
      smallest := MAX_INT64;
      var remaining := matcher.queue.allMatches;
      while remaining != {}
        invariant remaining <= s.queue && smallest <= MAX_INT64
        invariant forall m :: m in s.queue && m !in remaining ==> smallest < EventGeneration(s, m)
        invariant smallest == MAX_INT64 || exists m :: m in s.queue && smallest == EventGeneration(s, m) - 1
      {
        var m := Pick(remaining);
        PendingInputs(s, m);
        var largest := LargestInputGeneration(m.inputs);
        assert largest == EventGeneration(s, m) - 1;
        if largest < smallest {
          smallest := largest;
        }
        remaining := remaining - {m};
      }
    }

    // The largest generation that has been reached and will not change any more.
    method MaxCompleteGeneration(mayAbort: bool) returns (error: Error, generation: int)
      requires Valid()
      modifies this`indexed, this`unindexedTokens, atomsIndex, matcher, matcher.queue
      ensures Valid() && Evolves(old(Snapshot()), Snapshot())
      ensures IsStepError(error, mayAbort)
      ensures error == NoError ==>
                && generation <= causalGraph.largestGeneration
                && FrozenUpTo(Snapshot(), generation)
                && (forall c :: c <= causalGraph.largestGeneration && FrozenUpTo(Snapshot(), c) ==> c <= generation)
                && (forall c :: c <= causalGraph.largestGeneration && old(FrozenUpTo(Snapshot(), c)) ==> c <= generation)
    {
      ghost var before := Snapshot();
      generation := 0;
      error := IndexNewTokens(mayAbort);
      if error == NoError {
        var smallest := SmallestGeneration();
        generation :=
          if smallest < causalGraph.largestGeneration then smallest else causalGraph.largestGeneration;
        MinimumIsComplete(Snapshot(), smallest, causalGraph.largestGeneration, generation);
        forall c | FrozenUpTo(before, c)
          ensures FrozenUpTo(Snapshot(), c)
        {
          assert StaysFrozen(before, Snapshot(), c);
        }
      }
    }
  }
}
