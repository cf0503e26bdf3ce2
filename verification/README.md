# SetReplace engine: model and proofs

SetReplace evolves hypergraphs. Tokens (hyperedges of atoms) are consumed and created by events, which apply
rewrite rules to them. The engine in `libSetReplace` may let several events consume one token, so that one run
holds many histories at once. This project models the engine and four pieces of the surrounding Wolfram Language
code, and proves what they promise.

- **Causal structure**: `CausalHistory` defines pasts, consistent histories and which tokens can be present
  together. `DestroyerChoices` and `TokenEventGraph` are the records and tables the engine keeps;
  `ExpressionsSeparation` is the definition by causal cones. In spacelike evolutions all three agree.
- **Matching**: `Matching` is the brute-force definition of a match. `MatchSearch`, `AtomsIndex` and
  `HypergraphMatcher` are the incremental, index-guided search, proved to find exactly those matches.
  `MatchOrder`, `MatchQueue`, `InsertionOrder` and `Workers` are the order of pending matches, whatever the threads
  do; `Deduplication`, `GlobalDeduplication` and `EngineIsomorphism` are the removal of matches with the same outcome.
- **Evolution**: `Evolution`, `CompleteGenerations`, `TruncatedEvolution`, `TruncatedRuns`, `Termination`,
  `SelectionFunctions`, `OptimizedRuns`, `Instances`, `FreshNames`, `AtomDegrees`, `LiveAtoms`, `Runs` and `Steps` state
  what every step keeps, on values.
  `HypergraphSubstitutionSystem` is the loop itself, whose methods are proved to take exactly such steps.
- **Around the engine**: `HypergraphToGraph`, `GrahamScan`, `HypergraphUnifications`, `Patterns`, `PatternLength`,
  `MultisetSubstitutionSystem` and `Parallelism`.
- **Limits of the promises**: `Counterexamples`, `MixedSelection` and `UnexpectedCalls` have inputs for which an
  expected property fails, `LoweredLimits` and the modules about the properties the conditions under which they hold.

`Types` and `Collections` are shared. To verify the project: `dafny verify dfyconfig.toml`.

Some words: a history is *spacelike* if every event consumed distinct tokens that could all be present together.
A generation is *complete* if no event of it or an earlier one can still happen. `Recorded` is `None` once the
engine has noticed a conflict between records; separations are `Unknown` from then on. `Evolves` relates an earlier
to a later state of any run.

Where the code and its documentation differ, the model follows the code:

- The comment above `isomorphic` speaks of a renaming of pattern atoms; the code accepts renamings that identify
  atoms, in one direction (`EngineIsomorphism.OneWayIsNotEnough`).
- `addLastEventDestroyerChoices` is meant to notice events that are not spacelike, but overwrites the record of an
  input that is consumed in the past of an input listed before it (`DestroyerChoices.SpacelikeIffTracked`).
- `replace` returns at once if no destroyers are allowed, but `replaceOnce` does not: it then treats the limit as one.
- A one-argument `Optional` is said to match no sequence, although it can match the empty one.

## Model

| member | source | states |
|---|---|---|
| CausalHistory.PastIsLeast | libSetReplace/TokenEventGraph.cpp:125-149 | the past of an event is contained in every causally closed set of events that contains the event |
| CausalHistory.CompatibleIffHistoryExists | libSetReplace/TokenEventGraph.cpp:59-89 | two tokens can be present together after their joint past iff any causally closed, conflict-free set of events creates both and destroys neither |
| CausalHistory.PastIsConflictFree | libSetReplace/TokenEventGraph.cpp:125-149 | if the inputs of every event up to e could be present together, no token is consumed twice in the past of e |
| CausalHistory.InputsAreCompatible | libSetReplace/TokenEventGraph.cpp:125-149 | inputs of a spacelike event can be present together in any order |
| CausalHistory.CompatibleIsStable | libSetReplace/TokenEventGraph.cpp:59-89 | whether two tokens can be present together never changes when events are added |
| CausalHistory.LiveTokensAreCompatible | libSetReplace/HypergraphSubstitutionSystem.cpp:392-397 | while no token is consumed twice, any two tokens that were not consumed can be present together |
| CausalHistory.SingleHistoryIsSpacelike | libSetReplace/HypergraphSubstitutionSystem.cpp:392-397 | an evolution that consumes no token twice is spacelike throughout |
| DestroyerChoices.MergeOutcome | libSetReplace/TokenEventGraph.cpp:125-149 | merging the records of the inputs gives up iff an input is recorded for a later input or two records disagree; otherwise the result names the new event for every input and repeats the records for every other token |
| DestroyerChoices.RecordedNamesConsumers | libSetReplace/TokenEventGraph.cpp:125-149 | every record lists exactly the tokens consumed in the past of its event, each with an event of that past that consumed it |
| DestroyerChoices.RecordedRecords | libSetReplace/TokenEventGraph.cpp:125-149 | in a spacelike evolution the recorded consumer is the only one in the past |
| DestroyerChoices.SpacelikeIsRecorded | libSetReplace/TokenEventGraph.cpp:125-149 | if all inputs could be present together, the conflict branch is never taken |
| DestroyerChoices.SpacelikeIffTracked | libSetReplace/TokenEventGraph.cpp:125-149 | an evolution is spacelike iff no conflict was noticed and no event lists an input after another one whose past consumes it, the order in which a conflict goes unnoticed |
| DestroyerChoices.SpacelikeIffCompatible | libSetReplace/TokenEventGraph.cpp:69-88 | two records with unique consumers give the verdict Spacelike iff the two tokens can be present together |
| DestroyerChoices.RecordedIsStable | libSetReplace/TokenEventGraph.cpp:125-149 | the records of old events are the same after any further events |
| TokenEventGraph.SeparationIsStable | libSetReplace/TokenEventGraph.cpp:59-89 | the verdict about two tokens stays the same as long as no conflict is noticed |
| TokenEventGraph.SeparationIsSymmetric | libSetReplace/TokenEventGraph.cpp:59-89 | the verdict does not depend on the order of the two tokens |
| TokenEventGraph.AppendedIsWellFormed | libSetReplace/TokenEventGraph.cpp:35-45 | adding an event keeps creation before consumption, and extends the history |
| TokenEventGraph.AppendedIsLayered | libSetReplace/TokenEventGraph.cpp:116-122 | adding an event keeps every event in the layer after the latest of its inputs |
| TokenEventGraph.NextGenerationIsNextLayer | libSetReplace/TokenEventGraph.cpp:116-122 | the generation of an event exceeds those of all inputs, and that of some input by exactly one |
| TokenEventGraph.CountedIffConsumed | libSetReplace/TokenEventGraph.cpp:101-105 | the destroyer count of a token is positive iff some event lists it as an input |
| TokenEventGraph.TokenEventGraph.constructor | libSetReplace/TokenEventGraph.cpp:30-33 | the graph starts as the history of one event that creates the initial tokens, numbered from zero, its tables consistent with that history |
| TokenEventGraph.TokenEventGraph.AddEvent | libSetReplace/TokenEventGraph.cpp:35-45 | the history grows by exactly one event whose i-th output has the i-th free identifier; counts, generations, largest generation and destroyer choices stay those of the history |
| TokenEventGraph.TokenEventGraph.IncrementDestroyerEventsCount | libSetReplace/TokenEventGraph.cpp:101-105 | each count grows by the multiplicity of the token among the inputs |
| TokenEventGraph.TokenEventGraph.CreateTokens | libSetReplace/TokenEventGraph.cpp:94-99 | the i-th new token gets the i-th free identifier, the given creator and the count zero; old entries stay |
| TokenEventGraph.TokenEventGraph.NewEventGeneration | libSetReplace/TokenEventGraph.cpp:116-122 | the result is the layer that the history assigns to the inputs |
| TokenEventGraph.TokenEventGraph.AddLastEventDestroyerChoices | libSetReplace/TokenEventGraph.cpp:125-149 | the tables hold the records of all events, or nothing and the flag, exactly as the recursive definition of the records says |
| TokenEventGraph.TokenEventGraph.TokenSeparation | libSetReplace/TokenEventGraph.cpp:59-89 | the verdict is the one the recorded destroyer choices define |
| ExpressionsSeparation.ConeIsPast | Kernel/WolframModelEvolutionObject.m:1009-1012 | a vertex lies in the past causal cone of an expression iff it is in its past in terms of events |
| ExpressionsSeparation.BoundaryExpressions | Kernel/WolframModelEvolutionObject.m:1012-1015 | an expression is on the boundary of the intersection of two cones iff it lies in both pasts and no event common to them consumes it |
| ExpressionsSeparation.ConesAgreeWithRecords | Kernel/WolframModelEvolutionObject.m:1001-1018 | the cone definition gives the verdict of the two records, whatever the order of its tests |
| ExpressionsSeparation.SeparationsAgreePairwise | Kernel/WolframModelEvolutionObject.m:1001-1018 | while no conflict is noticed, engine and cone definition give the same verdict about any two tokens in whose pasts nothing is consumed twice, and distinct ones are Spacelike iff they can be present together |
| ExpressionsSeparation.SeparationsAgree | Kernel/WolframModelEvolutionObject.m:1001-1018 | in every spacelike evolution the engine and the cone definition give the same verdict, and distinct tokens are Spacelike iff one consistent history has both |
| ExpressionsSeparation.TimelikeIff | libSetReplace/TokenEventGraph.cpp:59-89 | while no conflict is noticed, two distinct tokens are Timelike iff one was consumed on the way to the other |
| ExpressionsSeparation.BranchlikeIff | libSetReplace/TokenEventGraph.cpp:69-88 | two tokens in whose pasts nothing is consumed twice are Branchlike iff they are distinct, not Timelike, and some token was consumed by different events on the ways to them |
| DestroyerChoices.RecordExists | libSetReplace/TokenEventGraph.cpp:125-149 | an event whose past consumes no token twice has a record with unique consumers |
| ExpressionsSeparation.CompatibleIffConesAndPasts | Kernel/WolframModelEvolutionObject.m:1001-1018 | in any evolution, distinct tokens have a common history iff their cones say Spacelike and no token is consumed twice in the past of either one |
| ExpressionsSeparation.LiveTokensAreSpacelike | libSetReplace/HypergraphSubstitutionSystem.cpp:210-226 | live tokens of a single history are always Spacelike, so that rules lose nothing by selecting all |
| Matching.ExplanationIsUnique | libSetReplace/HypergraphMatcher.cpp:713-716 | only one substitution of the atoms in the inputs turns them into the matched tokens |
| Matching.OutputsAreInstantiated | libSetReplace/HypergraphMatcher.cpp:329-331 | every substitution that turns the inputs of the rule into the matched tokens turns the outputs of the rule, place by place, into the outputs of the match, where atoms that occur in no input stay as they are |
| Matching.ExtendPartialMatch | libSetReplace/HypergraphMatcher.cpp:387-438 | one more fitting token turns a partial match into a partial match, with the composed substitution |
| Matching.NoUnifierNoMatch | libSetReplace/HypergraphMatcher.cpp:412-414 | a token that cannot be unified with the instantiated input takes that place in no completion |
| Matching.MatchHasExplicitAtoms | libSetReplace/HypergraphMatcher.cpp:512-527 | a token that completes a match contains all atoms its instantiated input names |
| Matching.CompletePartialMatch | libSetReplace/HypergraphMatcher.cpp:420-428 | a partial match without free places is a match and its own only completion |
| Matching.ConnectedHasAnchoredInput | libSetReplace/HypergraphMatcher.cpp:538-544 | for connected inputs some free input always names an atom, so that the search never reports disconnected inputs |
| MatchSearch.CandidatesAreComplete | libSetReplace/HypergraphMatcher.cpp:521-527 | every completion has one of the candidate tokens at the chosen input |
| MatchSearch.SubstituteMissingAtoms | libSetReplace/HypergraphMatcher.cpp:742-758 | succeeds iff some extension of the known names turns the pattern into the token, and then adds only names of atoms of the pattern |
| MatchSearch.InferRenaming | libSetReplace/HypergraphMatcher.cpp:720-732 | succeeds iff one substitution of pattern atoms turns all patterns into the tokens, and then returns it |
| MatchSearch.NextInStride | libSetReplace/HypergraphMatcher.cpp:227-231 | a worker that starts at i and advances by n meets exactly the rules with its own remainder |
| AtomsIndex.AtomsIndex.AddTokens | libSetReplace/AtomsIndex.cpp:45-51 | the index then knows exactly the old and the added tokens, each under all of its atoms |
| AtomsIndex.AtomsIndex.RemoveTokens | libSetReplace/AtomsIndex.cpp:19-43 | the index then knows exactly the tokens that were not removed, and keeps no empty entries |
| HypergraphMatcher.HypergraphMatcher.FitToken | libSetReplace/HypergraphMatcher.cpp:400-418 | an accepted token extends the partial match and its substitution; no match has a refused token in that place |
| HypergraphMatcher.HypergraphMatcher.IsSpacelikeSeparated | libSetReplace/HypergraphMatcher.cpp:440-450 | true iff all tokens matched before are Spacelike to the new one |
| HypergraphMatcher.HypergraphMatcher.NextBestInputAndTokensToTry | libSetReplace/HypergraphMatcher.cpp:489-548 | returns a free input with an explicit atom whose candidates, exactly the tokens with all its atoms, are fewest, or reports disconnected inputs |
| HypergraphMatcher.HypergraphMatcher.TokensContainingAll | libSetReplace/HypergraphMatcher.cpp:512-527 | counting atoms per token finds exactly the tokens that contain all of them |
| HypergraphMatcher.HypergraphMatcher.CompleteMatchesStartingWithInput | libSetReplace/HypergraphMatcher.cpp:348-369 | without an error, stores exactly the matches that complete the partial one with one of the given tokens at the given input |
| HypergraphMatcher.HypergraphMatcher.AttemptMatchTokenToInput | libSetReplace/HypergraphMatcher.cpp:387-438 | without an error, stores exactly the matches that complete the partial one with the given token at the given input |
| HypergraphMatcher.HypergraphMatcher.AddMatchesForRule | libSetReplace/HypergraphMatcher.cpp:336-346 | without an error, stores exactly the matches of the rule that touch one of the tokens |
| HypergraphMatcher.HypergraphMatcher.AddMatchesForRuleRange | libSetReplace/HypergraphMatcher.cpp:227-231 | one worker stores only matches of the rules of its stride that touch the tokens, and without an error all of them |
| HypergraphMatcher.HypergraphMatcher.AddMatchesInvolvingTokens | libSetReplace/HypergraphMatcher.cpp:213-265 | without an error, exactly the brute-force matches that touch the tokens are added, or those that deduplication keeps; the next match is current, errors are justified, and collected matches enter the buckets in their one order |
| HypergraphMatcher.HypergraphMatcher.InsertCollected | libSetReplace/HypergraphMatcher.cpp:257-263 | what was collected, without copies if they are not wanted, enters the queue in its one order |
| HypergraphMatcher.HypergraphMatcher.InsertNewMatches | libSetReplace/HypergraphMatcher.cpp:452-463 | the queue receives the collected matches in the order that the sorting algorithm makes of the sorted set, so that in a bucket those of earlier rules are ahead, and nothing is left over |
| MatchOrder.Less | libSetReplace/HypergraphMatcher.cpp:35-52 | the comparator says yes iff some ordering function puts one match first, in its direction, and no earlier one tells the matches apart; each function is defined by sorted copies of the inputs and the first difference of sequences |
| MatchOrder.ComparedIff | libSetReplace/HypergraphMatcher.cpp:35-52 | a comparison is negative iff the match comes first by the meaning of the specification, which refers to no comparison |
| MatchOrder.ComparedByIff | libSetReplace/HypergraphMatcher.cpp:54-98 | each ordering function compares by what it is named after: the first difference of the inputs in the order of the rule, or sorted up or down, with a prefix before what it is a prefix of, or the number of the rule |
| MatchOrder.SortSorts | libSetReplace/HypergraphMatcher.cpp:82-94 | sorting gives a permutation of the tokens that ascends or descends as requested |
| MatchOrder.NewestTokenDecides | libSetReplace/HypergraphMatcher.cpp:82-94 | by reverse sorted inputs, the match all of whose tokens are older than the newest of the other comes first |
| MatchOrder.OldestTokenDecides | libSetReplace/HypergraphMatcher.cpp:82-94 | by sorted inputs, the match that has a token older than all of the other comes first |
| MatchOrder.ComparatorIsStrictWeakOrder | libSetReplace/HypergraphMatcher.cpp:35-98 | for every ordering specification the comparator is irreflexive, transitive and asymmetric, and equivalence is transitive |
| MatchOrder.NewMatchesOrderIsTotal | libSetReplace/HypergraphMatcher.cpp:565-575 | in the order of new matches only equal matches are equivalent |
| MatchOrder.NewMatchesFollowSpecification | libSetReplace/HypergraphMatcher.cpp:565-575 | of matches with the same input tokens, the one that the specification of the user puts first is smaller in the order of new matches |
| MatchOrder.SortedInputsDecideMultiset | libSetReplace/HypergraphMatcher.cpp:82-94 | the first criterion of that order is a tie iff the inputs are permutations of each other |
| MatchQueue.MatchQueue.NextIsFirst | libSetReplace/HypergraphMatcher.cpp:553-562 | a next match taken from the first bucket is live and no pending match precedes it; there are no buckets iff nothing is pending |
| MatchQueue.MatchQueue.InsertMatch | libSetReplace/HypergraphMatcher.cpp:465-481 | all tables then represent one more match, and the buckets are those that WithMatch, of which NewMatchIsLast speaks, makes of the old ones |
| MatchQueue.NewMatchIsLast | libSetReplace/HypergraphMatcher.cpp:465-481 | a new match ends up last in the one bucket whose matches are equivalent to it, with the position that says so; all other lists stay as they were |
| MatchQueue.FirstInsertedIsAhead | libSetReplace/HypergraphMatcher.cpp:452-463 | of two equivalent new matches the one that was inserted first is ahead in their bucket, whatever was inserted in between |
| MatchQueue.MatchQueue.DeleteMatch | libSetReplace/HypergraphMatcher.cpp:288-306 | all tables then represent all matches but this one; the last match of its bucket took its place, or the bucket is gone if it was the only one, and all other buckets stay |
| MatchQueue.MatchQueue.SwapRemove | libSetReplace/HypergraphMatcher.cpp:299-304 | the position index and the list agree again, the last match in the gap and all others in place |
| MatchQueue.MatchQueue.RemoveMatchesInvolvingTokens | libSetReplace/HypergraphMatcher.cpp:269-286 | exactly the matches without any of the tokens are left, and the next match is current |
| MatchQueue.MatchQueue.ChooseNextMatch | libSetReplace/HypergraphMatcher.cpp:553-562 | the next match is in the first bucket, and its first match if the last ordering function is Any |
| InsertionOrder.InsertionOrderIsUnique | libSetReplace/HypergraphMatcher.cpp:452-463 | for every sorting algorithm, a set of new matches has only one insertion order |
| InsertionOrder.InsertionOrderIsByRule | libSetReplace/HypergraphMatcher.cpp:457-459 | that order has every match once and ascends by rule, whatever the sorting algorithm does with matches of one rule |
| InsertionOrder.EarlierRuleIsAhead | libSetReplace/HypergraphMatcher.cpp:452-463 | of two new matches that the order of the queue leaves alike, the one of the earlier rule is ahead in their bucket |
| InsertionOrder.KeptIsUnique | libSetReplace/HypergraphMatcher.cpp:579-607 | what deduplication keeps is determined by what was found |
| InsertionOrder.CollectedBucketsAreUnique | libSetReplace/HypergraphMatcher.cpp:219-265 | two searches that collect the same matches leave the same buckets in the same order, with and without deduplication, whatever the sorting algorithm does with matches of one rule |
| Workers.SearchesDivideTheWork | libSetReplace/HypergraphMatcher.cpp:227-240 | what the workers store, each starting from nothing, are work lists that divide the matches by the remainder of their rules |
| Workers.EveryScheduleCollectsAll | libSetReplace/HypergraphMatcher.cpp:227-240 | for every number of workers and every interleaving of their insertions, the collected set in the end is what was there before and all matches that touch the tokens |
| Workers.EveryScheduleLeavesTheSameBuckets | libSetReplace/HypergraphMatcher.cpp:219-265 | any number of workers with any interleaving leaves the buckets that any other search leaves which collected the same matches, such as the one of AddMatchesInvolvingTokens |
| Deduplication.LeastMatchesAreKept | libSetReplace/HypergraphMatcher.cpp:577-607 | of the matches found with one set of inputs, the one that the order of the user puts before all others survives deduplication |
| Deduplication.UserOrderIsFollowed | libSetReplace/HypergraphMatcher.cpp:565-575 | of matches with the same set of inputs, the one that the order of the user puts first is processed first |
| Deduplication.DroppedComeLater | libSetReplace/HypergraphMatcher.cpp:577-607 | a dropped match has the same tokens as a kept one that does not come after it in the order of the user, and its outputs are tested against those of the kept one |
| GlobalDeduplication.SameInputsAreFoundByOneSearch | libSetReplace/HypergraphSubstitutionSystem.cpp:259-264 | of two matches with the same set of inputs that are allowed after a search, both were found by it or neither |
| Deduplication.SameInputsIffSameSorted | libSetReplace/HypergraphMatcher.cpp:565-575 | for distinct inputs the first criterion of the order of new matches is a tie iff the sets of inputs are equal |
| Deduplication.SameInputsAreContiguous | libSetReplace/HypergraphMatcher.cpp:583-590 | in the order of new matches, those of one set of inputs are not interrupted by others |
| Deduplication.SortMatches | libSetReplace/HypergraphMatcher.cpp:565-575 | lists each new match once, strictly ascending |
| HypergraphMatcher.HypergraphMatcher.RemoveIdenticalMatches | libSetReplace/HypergraphMatcher.cpp:579-607 | every dropped match repeats an earlier kept one with the same inputs and a related outcome, which does not come after it in the order of the user, and no kept match repeats an earlier kept one |
| HypergraphMatcher.HypergraphMatcher.SameOutcomeAssumingSameInputs | libSetReplace/HypergraphMatcher.cpp:621-627 | true iff the engine considers the outputs of the two matches isomorphic |
| HypergraphMatcher.HypergraphMatcher.MatchOutputAtomsVectors | libSetReplace/HypergraphMatcher.cpp:329-331 | the outputs have the shape of those of the rule; every substitution that explains the inputs gives their atoms place by place, and atoms no input explains stay patterns |
| HypergraphMatcher.HypergraphMatcher.IsIsomorphic | libSetReplace/HypergraphMatcher.cpp:634-674 | running the matcher on itself decides the relation that EngineTestIsRenaming characterises |
| EngineIsomorphism.RenamesOntoIff | libSetReplace/HypergraphMatcher.cpp:634-674 | a permutation of the tokens and a possibly non-injective substitution of pattern atoms carry one hypergraph onto the other iff the test says so and no atom of the first exceeds both the connecting atom and all atoms of the second |
| EngineIsomorphism.EngineTestIsRenaming | libSetReplace/HypergraphMatcher.cpp:634-674 | as long as explicit atoms stay below the connecting atom, the test is true iff there is such a substitution |
| EngineIsomorphism.RenamingIsIsomorphismIff | libSetReplace/HypergraphMatcher.cpp:629-633 | if one hypergraph can be renamed onto the other, they are isomorphic iff they have equally many pattern atoms |
| EngineIsomorphism.IsomorphicIff | libSetReplace/HypergraphMatcher.cpp:634-674 | two hypergraphs are isomorphic iff the test says so, no atom is out of range, and they have equally many pattern atoms |
| EngineIsomorphism.TrueIsomorphismsAreFound | libSetReplace/HypergraphMatcher.cpp:629-633 | isomorphic hypergraphs are always related |
| EngineIsomorphism.BothWaysIsIsomorphic | libSetReplace/HypergraphMatcher.cpp:629-633 | hypergraphs related in both directions are isomorphic |
| EngineIsomorphism.OneWayIsNotEnough | libSetReplace/HypergraphMatcher.cpp:629-633 | a pair that the test accepts in one direction only, and which is not isomorphic |
| EngineIsomorphism.LargeExplicitAtomsAreConfused | libSetReplace/HypergraphMatcher.cpp:640-642 | beyond the connecting atom the test accepts a pair that no substitution relates |
| FreshNames.NamesAreFresh | libSetReplace/HypergraphSubstitutionSystem.cpp:335-350 | exactly the pattern atoms get names, which are distinct and follow the counter |
| FreshNames.NamesFollowPlaces | libSetReplace/HypergraphSubstitutionSystem.cpp:335-350 | an atom that is met for the first time gets a larger name than every pattern atom that was met before it, reading the vectors in order and each from its first place |
| FreshNames.NamePatternAtoms | libSetReplace/HypergraphSubstitutionSystem.cpp:335-350 | all pattern atoms are renamed consistently, the counter advances by their number, and the limit is an error iff the names do not fit below it |
| Evolution.QueueIsExactIff | libSetReplace/HypergraphSubstitutionSystem.cpp:259-264 | with everything looked at, the queue holds exactly the matches of tokens that may be consumed which never became events iff no conflict was noticed or no pending match depends on separations |
| MixedSelection.SelectiveMatchStaysPending | libSetReplace/HypergraphSubstitutionSystem.cpp:392-404 | a system in which one rule merges branches: after that event a pending match of another rule, which asks for spacelike inputs, would not be found any more and stays in the queue |
| Evolution.LoweringKeepsInvariantIff | libSetReplace/HypergraphSubstitutionSystem.cpp:235-246 | a lower generation limit keeps the invariants iff no event is beyond it and every token that may be consumed is below it |
| Evolution.EmptyQueueIsFixedPoint | libSetReplace/HypergraphSubstitutionSystem.cpp:70-76 | with nothing pending and no token in the last generation, every match of tokens that may be consumed is an event already |
| Evolution.IndexingKeepsInvariant | libSetReplace/HypergraphSubstitutionSystem.cpp:259-264 | looking at new tokens keeps all invariants: right tokens, right index, destroyer limit, no event twice, sound queue |
| Evolution.IndexingKeepsQueueComplete | libSetReplace/HypergraphSubstitutionSystem.cpp:259-264 | looking at new tokens misses no match |
| Evolution.RaisingKeepsInvariant | libSetReplace/HypergraphSubstitutionSystem.cpp:235-246 | a higher generation limit re-queues exactly the tokens that become eligible |
| Evolution.EventKeepsInvariant | libSetReplace/HypergraphSubstitutionSystem.cpp:97-126 | an event keeps all invariants; in particular no rule and inputs become an event twice, and no token exceeds the destroyer limit |
| Evolution.EventKeepsQueueComplete | libSetReplace/HypergraphSubstitutionSystem.cpp:105-124 | after an event every match that can still happen is pending or touches a new token |
| Evolution.OldMatchesAreStable | libSetReplace/HypergraphSubstitutionSystem.cpp:97-126 | matches of old tokens stay matches as long as no conflict is noticed, and nothing becomes one |
| Runs.OnlyCopiesAreDropped | libSetReplace/HypergraphMatcher.cpp:579-607 | with deduplication, a new match is pending unless it repeats a pending one |
| Runs.EvolvesTransitive | libSetReplace/HypergraphSubstitutionSystem.cpp:129-163 | what holds between consecutive states of a run holds between any two of them |
| Runs.EventEvolves | libSetReplace/HypergraphSubstitutionSystem.cpp:97-126 | an event relates the states before and after it like any two states of a run |
| Instances.HappenedKeepsInstances | libSetReplace/HypergraphSubstitutionSystem.cpp:97-126 | an event keeps: outputs of events are consecutive, and every event is the initial one or one substitution reads its inputs as those of the rule and its new tokens, in their order, as the outputs of the rule, with distinct names beyond the counter for atoms that occur in no input |
| Instances.RunKeepsInstances | libSetReplace/HypergraphSubstitutionSystem.cpp:129-163 | in every run of complete and interrupted searches, changed limits and events, every event is such an instance of its rule and the counter stays beyond all atoms; the class keeps the same as part of its invariant |
| TruncatedEvolution.TruncationSurvivesRuns | Kernel/WolframModelEvolutionObject.m:192-207 | once generation c is complete, the truncated events, tokens and contents are the same however the run goes on |
| TruncatedEvolution.TruncatedIsEvolution | Kernel/WolframModelEvolutionObject.m:192-207 | the truncated evolution is well formed, layered, without repeated events and without later generations, and a kept token has its contents under its new number |
| TruncatedEvolution.TruncationKeepsCompatible | Kernel/WolframModelEvolutionObject.m:192-207 | two kept tokens can be present together in the truncated evolution iff they can in the whole one |
| TruncatedEvolution.SamePast | Kernel/WolframModelEvolutionObject.m:192-207 | of two kept events, one is in the past of the other after truncation iff it was before |
| TruncatedEvolution.TruncationIsIdempotent | Kernel/WolframModelEvolutionObject.m:192-207 | truncating twice at one generation is the same as truncating once |
| TruncatedEvolution.KeptIffCreatedByKept | Kernel/WolframModelEvolutionObject.m:195-196 | the kept tokens are those that some kept event created |
| TruncatedRuns.TruncatedKeepsInstances | Kernel/WolframModelEvolutionObject.m:192-207 | the events of the truncated evolution are instances of their rules |
| TruncatedRuns.TruncationKeepsSeparation | Kernel/WolframModelEvolutionObject.m:192-207 | the engine gives the same verdict about two kept tokens before and after truncation, as long as no conflict was noticed |
| TruncatedRuns.TruncatedIsFinished | Kernel/WolframModelEvolutionObject.m:192-207 | with unlimited destroyers, no deduplication and no noticed conflict, the evolution truncated at a complete generation satisfies all invariants of a system limited to that generation, with nothing pending, and every match of its earlier tokens is one of its events |
| CompleteGenerations.MinimumIsComplete | libSetReplace/HypergraphSubstitutionSystem.cpp:176-179 | the smaller of the earliest possible generation and the largest reached is complete, and no later reached one is |
| CompleteGenerations.EventKeepsFrozen | libSetReplace/HypergraphSubstitutionSystem.cpp:176-179 | an event after generation c was complete has a later generation and leaves it complete |
| CompleteGenerations.RaisingKeepsFrozen | libSetReplace/HypergraphSubstitutionSystem.cpp:235-246 | raising the generation limit leaves complete generations complete |
| TruncatedEvolution.TruncationIsClosed | Kernel/WolframModelEvolutionObject.m:192-207 | an event that is kept consumes and creates kept tokens only |
| TruncatedEvolution.RenumberingIsMonotone | Kernel/WolframModelEvolutionObject.m:197-205 | renumbering keeps the order of the kept tokens, in both directions, and gives no two the same number |
| TruncatedEvolution.TruncationIsStable | Kernel/WolframModelEvolutionObject.m:192-207 | later events of later generations change nothing about the truncated evolution |
| Termination.EventLowersPotential | libSetReplace/HypergraphSubstitutionSystem.cpp:105-124 | every event lowers the sum of remaining uses times a power of the base per remaining generation, for a base above destroyer limit times largest output |
| Termination.PotentialIsNatural | libSetReplace/HypergraphSubstitutionSystem.cpp:105-124 | that sum is never negative while the destroyer limit is kept |
| SelectionFunctions.OneDestroyerIsSingleHistory | libSetReplace/HypergraphSubstitutionSystem.cpp:210-226 | with at most one destroyer per token no token is consumed twice |
| SelectionFunctions.SameMatches | libSetReplace/HypergraphSubstitutionSystem.cpp:210-226 | of live tokens of a single history the same matches are allowed with and without the selection functions |
| SelectionFunctions.TrackingLosesNoMatch | libSetReplace/HypergraphSubstitutionSystem.cpp:392-404 | for every limit on destroyers, the rules and the tracking that the engine chooses allow exactly the matches that the given rules with tracked separation do, for one destroyer per token among live tokens of a single history |
| SelectionFunctions.OptimizationKeepsInvariant | libSetReplace/HypergraphSubstitutionSystem.cpp:210-226 | the invariants, soundness and completeness of the queue hold with the optimised rules iff they hold with the given ones and tracked separation |
| SelectionFunctions.EventKeepsSpacelike | libSetReplace/TokenEventGraph.cpp:125-149 | if all rules select spacelike inputs, every event keeps the evolution spacelike and no conflict is noticed |
| SelectionFunctions.UniformRulesKeepTracking | libSetReplace/HypergraphSubstitutionSystem.cpp:392-404 | if the rules agree about selection, separations are known wherever they are needed; that nothing is lost where they are not tracked is TrackingLosesNoMatch |
| OptimizedRuns.SameSearches | libSetReplace/HypergraphSubstitutionSystem.cpp:210-226 | a search has the same possible outcomes with optimised and with given rules, with and without deduplication |
| OptimizedRuns.SameEvents | libSetReplace/HypergraphSubstitutionSystem.cpp:210-226 | the same matches can become events, with the same consequences, under optimised and given rules |
| OptimizedRuns.SameRuns | libSetReplace/HypergraphSubstitutionSystem.cpp:210-226 | a sequence of states is a run of complete and interrupted searches, changed limits and events of the optimised system iff it is one of the system with the given rules and tracked separation, with and without deduplication |
| AtomDegrees.UpdateAtomDegrees | libSetReplace/HypergraphSubstitutionSystem.cpp:304-317 | each degree changes by the number of tokens that contain the atom, and no zero entries are left behind |
| AtomDegrees.WillExceedAtomLimits | libSetReplace/HypergraphSubstitutionSystem.cpp:268-302 | reports the degree limit iff an involved atom would exceed it, and otherwise the atom limit iff the number of atoms after the replacement would |
| AtomDegrees.NamesAreConsecutive | libSetReplace/HypergraphSubstitutionSystem.cpp:335-350 | the new names of an event are exactly the numbers that follow the counter |
| AtomDegrees.AtomCountIsExactIff | libSetReplace/HypergraphSubstitutionSystem.cpp:268-302 | the predicted number of atoms is never too small and is exact iff no new name is the name of another atom |
| AtomDegrees.DegreesAreExact | libSetReplace/HypergraphSubstitutionSystem.cpp:268-302 | without such a clash the predicted degree of every atom is its degree after the event |
| LiveAtoms.NoClashUpTo | libSetReplace/HypergraphSubstitutionSystem.cpp:200-206 | new names never clash while the counter is at least every atom of the state and of the outputs |
| LiveAtoms.LiveAfterEvent | libSetReplace/HypergraphSubstitutionSystem.cpp:105-110 | with one destroyer per token, an event replaces exactly its inputs by exactly its outputs among the live tokens |
| LiveAtoms.ReplacedDegree | libSetReplace/HypergraphSubstitutionSystem.cpp:105-110 | the degrees of live tokens change by those of the inputs and the outputs |
| LiveAtoms.DegreesStayInLimit | libSetReplace/HypergraphSubstitutionSystem.cpp:291-294 | if the degree limit holds before and for the atoms involved, it holds for all atoms after |
| Steps.NothingHappened | libSetReplace/HypergraphSubstitutionSystem.cpp:186-208 | the initial state satisfies all invariants |
| Steps.SearchIsDone | libSetReplace/HypergraphSubstitutionSystem.cpp:259-264 | whatever the matcher reports is a complete or interrupted search step of a run; a complete report leaves nothing to look at |
| Steps.LimitsHoldAfter | libSetReplace/HypergraphSubstitutionSystem.cpp:84-93 | an event that was predicted to stay within the limits on tokens and atoms does, and within the one on degrees if no atom of the state or the outputs exceeds the counter |
| Steps.EventIsCountedRight | libSetReplace/HypergraphSubstitutionSystem.cpp:105-110 | the counters for the limits are again those of the live tokens after an event |
| GlobalDeduplication.EmptyIsFinal | libSetReplace/HypergraphSubstitutionSystem.cpp:70-76 | the reason Complete is given only when every match of tokens that may be consumed is an event already or, with deduplication, repeats one |
| GlobalDeduplication.CompletedSearch | libSetReplace/HypergraphMatcher.cpp:579-607 | a search keeps: no match that is pending or became an event repeats another one, pending matches consist of tokens that were looked at, and whatever is allowed and missing repeats a match that is pending or became an event |
| GlobalDeduplication.InterruptedSearch | libSetReplace/HypergraphMatcher.cpp:579-607 | an interrupted search keeps the same, although tokens stay to be looked at |
| GlobalDeduplication.EventIsDeduplicated | libSetReplace/HypergraphSubstitutionSystem.cpp:97-126 | an event keeps the same, even where it removes a match that others repeat |
| GlobalDeduplication.EmptyQueueIsFixedPointUpToRepetition | libSetReplace/HypergraphSubstitutionSystem.cpp:70-76 | with deduplication and nothing pending, every match of tokens that may be consumed is an event already or repeats one |
| Steps.TrackingStaysIntact | libSetReplace/HypergraphSubstitutionSystem.cpp:392-404 | if the rules agree about selection, no state of a run notices a conflict, from the creation of the system on |
| Steps.StepCosts | libSetReplace/HypergraphSubstitutionSystem.cpp:156-162 | one step of the loop adds one event and lowers the potential |
| HypergraphSubstitutionSystem.HypergraphSubstitutionSystem.Create | libSetReplace/HypergraphSubstitutionSystem.cpp:186-208 | fails iff an initial atom is not positive or is the largest integer, with the error of the first such atom; otherwise the new system is valid, has the i-th initial token under number i, tracks separation iff more than one destroyer or none is allowed and some rule is selective, and nothing has happened |
| HypergraphSubstitutionSystem.HypergraphSubstitutionSystem.constructor | libSetReplace/HypergraphSubstitutionSystem.cpp:186-208 | the system starts with optimised rules, tracked separation where needed, the initial tokens in their order, and the counter one beyond their atoms |
| HypergraphSubstitutionSystem.HypergraphSubstitutionSystem.AddTokens | libSetReplace/HypergraphSubstitutionSystem.cpp:352-367 | contents are remembered, tokens below the generation limit are queued for indexing, and degrees grow if there is a single history |
| HypergraphSubstitutionSystem.HypergraphSubstitutionSystem.IndexNewTokens | libSetReplace/HypergraphSubstitutionSystem.cpp:259-264 | the state after a search: everything new was looked at or the search was interrupted with a justified error; nothing else changed |
| HypergraphSubstitutionSystem.HypergraphSubstitutionSystem.QueueHoldsExactlyThePending | libSetReplace/HypergraphSubstitutionSystem.cpp:259-264 | in every valid state without unindexed tokens and deduplication, being pending is the same as being a match of tokens that may be consumed that never became an event, iff no conflict was noticed or no pending match depends on separations |
| HypergraphSubstitutionSystem.HypergraphSubstitutionSystem.OnlyRepetitionsAreNotPending | libSetReplace/HypergraphMatcher.cpp:579-607 | in every valid state of a deduplicating system without unindexed tokens, a match of tokens that may be consumed is pending, an event, or repeats one of those, and those do not repeat each other |
| HypergraphSubstitutionSystem.HypergraphSubstitutionSystem.ConsumptionIsLimited | libSetReplace/HypergraphSubstitutionSystem.cpp:113-124 | in every valid state no token was consumed more often than maxDestroyerEvents allows, and a token takes part in matches until it was consumed that often; zero counts as one and the largest integer as no limit |
| HypergraphSubstitutionSystem.HypergraphSubstitutionSystem.UpdateStepSpec | libSetReplace/HypergraphSubstitutionSystem.cpp:235-246 | a specification is refused without changes iff it limits the final state although several events may consume a token; otherwise the limit is set and, if it is higher, exactly the tokens of the previous last generation are queued; the system is valid after that iff the limit is not lower or nothing is beyond it |
| HypergraphSubstitutionSystem.HypergraphSubstitutionSystem.RemoveSaturatedInputs | libSetReplace/HypergraphSubstitutionSystem.cpp:113-124 | exactly the inputs that reached the destroyer limit leave the index, and exactly the matches that need them leave the queue |
| HypergraphSubstitutionSystem.HypergraphSubstitutionSystem.CommitEvent | libSetReplace/HypergraphSubstitutionSystem.cpp:100-124 | graph, tokens, index, queue and counters change together to those of the state after the event |
| HypergraphSubstitutionSystem.HypergraphSubstitutionSystem.NameAnonymousAtoms | libSetReplace/HypergraphSubstitutionSystem.cpp:335-350 | names follow the counter; the error is raised iff the names would exceed the largest integer |
| HypergraphSubstitutionSystem.HypergraphSubstitutionSystem.WillExceedTokenLimit | libSetReplace/HypergraphSubstitutionSystem.cpp:319-333 | reports the limit iff the number of live tokens after the event would exceed it |
| HypergraphSubstitutionSystem.HypergraphSubstitutionSystem.TryMatch | libSetReplace/HypergraphSubstitutionSystem.cpp:78-126 | either the match becomes an event, or nothing changes and the reason is the first limit it would have exceeded: that on degrees, then that on atoms, then that on tokens |
| HypergraphSubstitutionSystem.HypergraphSubstitutionSystem.ReplaceOnce | libSetReplace/HypergraphSubstitutionSystem.cpp:59-127 | one call makes at most one event, of a match that no pending match precedes by the order of the user; all invariants are kept, and if no event is made the reason holds of the state and no reason that is checked before does |
| HypergraphSubstitutionSystem.HypergraphSubstitutionSystem.Replace | libSetReplace/HypergraphSubstitutionSystem.cpp:129-163 | unless the generation limit goes below what there is, a call keeps all invariants, makes no more events than maxEvents and the potential allow, stops only for a reason that holds, and keeps satisfied limits on tokens and atoms satisfied, and those on degrees if rules name no atom beyond the counter |
| HypergraphSubstitutionSystem.HypergraphSubstitutionSystem.SmallestGeneration | libSetReplace/HypergraphSubstitutionSystem.cpp:380-390 | the result is the earliest generation of the latest inputs of a pending match, or the largest integer |
| HypergraphSubstitutionSystem.HypergraphSubstitutionSystem.MaxCompleteGeneration | libSetReplace/HypergraphSubstitutionSystem.cpp:176-179 | the reported generation is complete, no later reached one is, and no earlier report was larger |
| HypergraphToGraph.StructureIs | Kernel/HypergraphToGraph.m:75-102 | the joined graph has exactly the nodes of places, empty hyperedges and vertices, and exactly the edges to the next place and to the vertex |
| HypergraphToGraph.ChainToChain | Kernel/IsomorphicHypergraphQ.m:29-33 | a graph isomorphism carries the chain of places of one hyperedge to the chain of one hyperedge, place by place |
| HypergraphToGraph.IsomorphicIffGraphsAre | Kernel/IsomorphicHypergraphQ.m:29-33 | hypergraphs are isomorphic iff their structure-preserving graphs are, repeated vertices, repeated and empty hyperedges included |
| HypergraphToGraph.GraphDeterminesHypergraph | Documentation/SymbolsAndFunctions/UtilityFunctions/HypergraphToGraph.md:54-65 | hypergraphs with the same structure-preserving graph are equal, so that the original can be retrieved |
| GrahamScan.SortSorts | Kernel/convexHullPolygon.m:29 | sorting leaves the points in the order of their angles |
| GrahamScan.OnePerDirection | Kernel/convexHullPolygon.m:31 | of the points of one direction exactly a farthest one is kept, and the directions increase strictly |
| GrahamScan.PushKeepsConvex | Kernel/convexHullPolygon.m:36 | a left turn at the end keeps every triple of the stack turning left |
| GrahamScan.PopKeepsCovered | Kernel/convexHullPolygon.m:35 | popping a point that does not turn left uncovers no point |
| GrahamScan.Scan | Kernel/convexHullPolygon.m:33-37 | all triples of the stack turn left and every scanned point is covered by it |
| GrahamScan.ConvexHullPolygon | Kernel/convexHullPolygon.m:22-40 | the corners are input points, the first one is the lowest and of those the leftmost, every triple of corners turns strictly left, and every input point lies on or left of every edge |
| HypergraphUnifications.EveryPairingOnce | Kernel/HypergraphUnifications.m:46-81 | the enumeration lists every nonempty partial injection between hyperedges of equal length exactly once, and nothing else |
| HypergraphUnifications.OverlapsAreInOrder | Kernel/HypergraphUnifications.m:46-81 | the enumeration is in lexicographic order, every partial injection before its extensions |
| HypergraphUnifications.PairedAreEqual | Kernel/HypergraphUnifications.m:91-94 | the identification makes paired hyperedges equal |
| HypergraphUnifications.IdentificationIsMostGeneral | Kernel/HypergraphUnifications.m:91-94 | every map of the vertices that makes paired hyperedges equal factors through the identification |
| HypergraphUnifications.UnionContainsFirst | Kernel/HypergraphUnifications.m:96-105 | the union has every hyperedge of the first hypergraph at its reported position |
| HypergraphUnifications.UnionContainsSecond | Kernel/HypergraphUnifications.m:96-108 | the union has every hyperedge of the second hypergraph at its reported position |
| HypergraphUnifications.SharedIffPaired | Kernel/HypergraphUnifications.m:103-108 | two hyperedges share a position iff they are paired |
| HypergraphUnifications.UnionHasNothingElse | Kernel/HypergraphUnifications.m:96-108 | every position of the union is reported for some hyperedge |
| HypergraphUnifications.GroupsAreInOrder | Kernel/HypergraphUnifications.m:96-108 | the unpaired hyperedges of the first hypergraph come first, then those of the second, then the paired ones |
| HypergraphUnifications.FirstsStayInOrder | Kernel/HypergraphUnifications.m:96-105 | hyperedges of the first hypergraph keep their order among the unpaired and among the paired ones |
| HypergraphUnifications.SecondsStayInOrder | Kernel/HypergraphUnifications.m:96-108 | unpaired hyperedges of the second hypergraph keep their order |
| PatternLength.SoundThroughoutIff | Kernel/MultisetSubstitutionSystem.m:244-305 | the ranges of a pattern and all of its parts are right iff every optional part without a default value matches nothing at all |
| PatternLength.WithoutDefaultIsUnsound | Kernel/MultisetSubstitutionSystem.m:303-304 | an optional pattern without a default value is said to match nothing, so that every length it can match, such as those of the pattern itself, lies outside of its range |
| PatternLength.SoundIff | Kernel/MultisetSubstitutionSystem.m:244-305 | the range of any pattern is right iff its limits are not inside of the exact least and greatest length |
| PatternLength.TightIsExact | Kernel/MultisetSubstitutionSystem.m:244-305 | the range is exactly the least and the greatest length for every pattern made of single elements, blanks, wrappers, nonempty alternatives, sequences, repetitions and options with defaults, unless a repetition without limit repeats nothing but the empty sequence or a limit excludes all repetitions |
| Patterns.ExactLengthsAreExact | Kernel/MultisetSubstitutionSystem.m:244-305 | the least and the greatest length, or their absence, computed for every construct are attained, or unbounded, and no length lies outside |
| PatternLength.InputCountIsIn | Kernel/MultisetSubstitutionSystem.m:231-240 | every number of inputs that a rule with defaults can match lies in its range |
| PatternLength.InputCountRangeIsExact | Kernel/MultisetSubstitutionSystem.m:231-240 | for rules made of such patterns the range of the number of inputs is exact |
| PatternLength.ClippedIff | Kernel/MultisetSubstitutionSystem.m:28-31 | clipping leaves exactly the requested numbers between the least of the lower and the greatest of the upper limits of the rules |
| PatternLength.ClippingKeepsMatches | Kernel/MultisetSubstitutionSystem.m:28-31 | clipping the requested numbers of inputs excludes no number that some rule can match |
| Parallelism.Granted | libSetReplace/Parallelism.cpp:32-38 | a request gets nothing or between two and what it asked for, never beyond the hardware threads, something whenever two are free, and no less than it asked for unless all threads are in use then |
| Parallelism.Parallelism.AcquireThreads | libSetReplace/Parallelism.cpp:32-38 | the counter stays the sum of what is held, which grows by what is granted |
| Parallelism.Parallelism.ReleaseThreads | libSetReplace/Parallelism.cpp:40-43 | the counter stays the sum of what is held, which loses the returned reservation |
| Parallelism.EveryRunKeepsTheBudget | libSetReplace/Parallelism.cpp:53-79 | in every interleaving of reservations and releases the counter is what is held and never exceeds the hardware threads |
| MultisetSubstitutionSystem.SpacelikeCanBeTogether | Kernel/MultisetSubstitutionSystem.m:160-163 | in a spacelike evolution the pairwise test accepts distinct inputs iff each two of them can be present together in a consistent history |
| MultisetSubstitutionSystem.SpacelikeInputsMerge | Kernel/MultisetSubstitutionSystem.m:211-219 | an event of such inputs keeps the evolution spacelike, so that their destroyer choices never conflict |
| MultisetSubstitutionSystem.UncheckedMergeIsMerge | Kernel/MultisetSubstitutionSystem.m:211-219 | where there is no conflict, overwriting without a check is the checked merge |
| MultisetSubstitutionSystem.MultisetSubstitutionSystem.constructor | Kernel/MultisetSubstitutionSystem.m:35-59 | the system starts with the initial event, whose outputs are numbered in order, and its empty destroyer choices |
| MultisetSubstitutionSystem.MultisetSubstitutionSystem.ExpressionsSeparation | Kernel/MultisetSubstitutionSystem.m:165-181 | the verdict is the one the recorded destroyer choices define |
| MultisetSubstitutionSystem.MultisetSubstitutionSystem.CreateEventIfPossible | Kernel/MultisetSubstitutionSystem.m:150-158 | an event of the first instantiation is made iff the rule has an instantiation for the inputs and each two of them can be present together; otherwise nothing changes |
| MultisetSubstitutionSystem.MultisetSubstitutionSystem.CreateEvent | Kernel/MultisetSubstitutionSystem.m:183-220 | the history grows by exactly this event, whose i-th output has the i-th free identifier, and the destroyer choices stay those a checked merge would record |
| Counterexamples.SiblingsLookSpacelike | Kernel/WolframModelEvolutionObject.m:1001-1018 | the cone definition calls any two outputs of one event Spacelike |
| Counterexamples.SiblingsAreCompatibleIff | Kernel/WolframModelEvolutionObject.m:1001-1018 | two outputs of one event can be present together iff nothing was consumed twice on the way to it |
| Counterexamples.MergedTokensHaveNoHistory | libSetReplace/TokenEventGraph.cpp:59-65 | an event that merges two branches creates tokens that look Spacelike by their cones but have no common history |
| Counterexamples.InputOrderDecidesConflict | libSetReplace/TokenEventGraph.cpp:132-147 | the same event with its inputs in the other order is noticed as a conflict or not |
| LoweredLimits.EventRespectsLoweredLimitIff | libSetReplace/HypergraphSubstitutionSystem.cpp:235-246 | an event that was pending before the generation limit was lowered leaves everything within it iff nothing was beyond it before and all inputs of the event are below it |
| LoweredLimits.CreatedAreForgottenIff | libSetReplace/HypergraphSubstitutionSystem.cpp:235-246 | once the limit is raised again, a token that such an event created is never looked at iff its generation lies strictly between the two limits |
| LoweredLimits.LoweredLimitIsHarmlessIff | libSetReplace/HypergraphSubstitutionSystem.cpp:235-246 | lowering the limit, raising it to any higher one and searching keeps the invariants and the promises about the queue, with or without deduplication, iff before that the final limit was not exceeded and passes over no token, no token to be re-queued was used up, no event is a match that can be found again and, with deduplication, every old match that can be found again is pending or repeats a pending one that can |
| LoweredLimits.LoweredAndRaisedKeepsInvariantIff | libSetReplace/HypergraphSubstitutionSystem.cpp:235-246 | the invariants alone hold after that iff the final limit was not exceeded before and passes over no token, no re-queued token was consumed as often as it may be, and no match that the search adds became an event before |
| LoweredLimits.LoweredAndRaisedKeepsQueueRightIff | libSetReplace/HypergraphSubstitutionSystem.cpp:235-246 | no match is missed after that; with deduplication, matches repeat each other iff one that is added repeats, or is repeated by, one that is pending or became an event |
| LoweredLimits.LoweredLimitRepeatsEvents | libSetReplace/HypergraphSubstitutionSystem.cpp:235-246 | an event is pending again after that iff the search adds it and, without deduplication, iff some event is a match of tokens that may be consumed or are re-queued, at least one of them re-queued |
| LoweredLimits.AddedAreUnique | libSetReplace/HypergraphSubstitutionSystem.cpp:235-246 | which matches the search adds is determined by the state before the limit was lowered, with and without deduplication |
| UnexpectedCalls.LoweredBelowPendingExample | libSetReplace/HypergraphSubstitutionSystem.cpp:235-246 | a system without events and with a pending match, its limit lowered from 1 to 0: the match becomes an event of generation 1 |
| UnexpectedCalls.ForgottenTokenExample | libSetReplace/HypergraphSubstitutionSystem.cpp:235-246 | a system whose limit is lowered to 0 before an event and raised to 2 after it: the token that the event created is never looked at |
| UnexpectedCalls.LoweredLimitExample | libSetReplace/HypergraphSubstitutionSystem.cpp:235-246 | a system with one token that was consumed once, its limit lowered to 0 and raised to 1: the same event happens twice, beyond the limit of one destroyer |
| UnexpectedCalls.StaleMatchesAreHarmlessIff | libSetReplace/HypergraphMatcher.cpp:213-265 | if matches are left behind by an interrupted search, the next search that collects keeps the invariants iff each of them still consists of tokens that may be consumed and never became an event; nothing is missed either way |
| UnexpectedCalls.StaleMatchExample | libSetReplace/HypergraphMatcher.cpp:213-265 | a run in which a match that an interrupted search left behind becomes an event, and is pending again after a later search, without a token to consume |
| Counterexamples.ExplicitAtomIsTaken | libSetReplace/HypergraphSubstitutionSystem.cpp:200-206 | a new name that a rule already uses explicitly: the atom counter does not look at the rules |

## Left out

- HypergraphMatcher.HypergraphMatcher.AddMatchesInvolvingTokens: the workers of a parallel search run one after another here. That no interleaving of their insertions makes a difference is `Workers.EveryScheduleLeavesTheSameBuckets`; mutexes and memory order are not modelled.
- HypergraphMatcher.HypergraphMatcher.InsertNewMatches: `std::sort` is a parameter, an arbitrary function that sorts by rule. It is assumed to treat equal lists equally.
- MatchQueue.MatchQueue.InsertMatch: when a single thread inserts matches as they are found, their order within a bucket follows hash tables, which is modelled as any order.
- MatchQueue.MatchQueue.ChooseNextMatch: the random generator is modelled as any choice from the first bucket.
- HypergraphSubstitutionSystem.HypergraphSubstitutionSystem.Replace: calls after which the system is not valid are excluded. The generation limit must not go below an event or a token that may be consumed; `UpdateStepSpec` says that this is exactly when it does harm. What happens in that case is described for one event, and for raising the limit again without an event in between (`LoweredLimits`), not for arbitrary sequences of calls. No call may follow one that was interrupted while threads collected matches without deduplication, because those matches are still there; `UnexpectedCalls.StaleMatchesAreHarmlessIff` has the exact condition under which the next collecting search does no harm. Integers are unbounded except for the overflow of the atom counter.
- HypergraphSubstitutionSystem.HypergraphSubstitutionSystem.ReplaceOnce: for a system without destroyers only the call that lifts all limits is modelled, which is the only one the engine's interface makes; and no call may follow an interrupted parallel search without deduplication, as for `Replace`.
- HypergraphSubstitutionSystem.HypergraphSubstitutionSystem.QueueHoldsExactlyThePending: speaks of systems without deduplication; with deduplication, `OnlyRepetitionsAreNotPending` says what is pending.
- HypergraphSubstitutionSystem.HypergraphSubstitutionSystem.Create: initial atoms are assumed to be 64-bit integers, as in the source.
- Abort requests and time limits are an arbitrary decision at each check, allowed by a flag; clocks are not modelled.
- Invalid ordering specifications cannot be written down here, so the errors about them are not modelled.
- GrahamScan.ConvexHullPolygon: coordinates are exact reals, angles are compared by cross products and distances by their squares.
- HypergraphToGraph.IsomorphicIffGraphsAre: the isomorphism test of graphs is its mathematical definition; styles and the distance-preserving graphs are not modelled.
- HypergraphUnifications.IdentificationIsMostGeneral: connected components are a recursive choice of representatives; renaming the vertices of the union to consecutive integers is not modelled.
- PatternLength.InputCountIsIn: patterns are reduced to the lengths they can match, and symbols that stand for themselves count as single elements.
- TruncatedRuns.TruncatedIsFinished: with a limit on destroyers, later events can use up tokens that earlier matches need; with deduplication, only the matches that do not repeat others are events. Neither case is described.
- MultisetSubstitutionSystem.MultisetSubstitutionSystem.CreateEvent: contents, instantiation counts and destroyer counts are not modelled, and identifiers start at zero; neither is the enumeration of candidate inputs. The numbers of outputs of the instantiations of a rule are a parameter, and only the first instantiation is used.
- Parallelism.EveryRunKeepsTheBudget: a token object is a reservation that is released once.
- The foreign-function interface, plotting, option and argument checking, and the remaining utility functions are not part of this model.
