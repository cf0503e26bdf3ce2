/**
  With one destroyer per token the engine forgets which rules select spacelike inputs. Every run of
  the optimised system is a run of the original one and the other way around.
 */
module OptimizedRuns {
  import opened Types
  import opened CausalHistory
  import opened Matching
  import opened MatchOrder
  import opened Deduplication
  import opened SelectionFunctions
  import opened Evolution
  import opened Runs
  import opened Steps
  import Graph = TokenEventGraph

  ghost predicate IsOptimized(s: Snapshot, rules: seq<Rule>) {
    s.rules == Unselective(rules) && !s.tracksChoices && s.limit == Some(1)
  }

  // Of the tokens that are looked at, the same matches are found.
  lemma SameNewMatches(s: Snapshot, s': Snapshot, rules: seq<Rule>, m: Match)
    requires IsOptimized(s, rules) && IsOptimized(s', rules) && Invariant(s)
    requires s'.history == s.history && s'.contents == s.contents && s'.indexed == s.indexed + s.unindexed
    ensures IsNewMatch(s, s', m) <==> IsNewMatch(WithDistinction(s, rules), WithDistinction(s', rules), m)
  {
    IndexedAreLive(s, s', rules);
    SameMatches(rules, s.contents, s'.indexed, s.history, m);
  }

  lemma SameRepetitions(s: Snapshot, rules: seq<Rule>, spec: OrderingSpec, a: Match, b: Match)
    requires IsOptimized(s, rules)
    ensures Repeats(spec, s.Space(s.indexed), a, b) <==>
            Repeats(spec, WithDistinction(s, rules).Space(s.indexed), a, b)
  {
  }

  // The same matches are copies of each other.
  lemma SameCopies(s: Snapshot, rules: seq<Rule>, spec: OrderingSpec, found: set<Match>)
    requires IsOptimized(s, rules) && WellFormed(s.history) && SingleHistory(s.history)
    requires forall t :: t in s.indexed ==> Live(s.history, t)
    ensures Copies(spec, s.Space(s.indexed), found) ==
            Copies(spec, WithDistinction(s, rules).Space(s.indexed), found)
  {
    hide Repeats, IsMatch;
    var space, space' := s.Space(s.indexed), WithDistinction(s, rules).Space(s.indexed);
    forall a, b
      ensures IsCopyOf(spec, space, a, b) <==> IsCopyOf(spec, space', a, b)
    {
      SameRepetitions(s, rules, spec, a, b);
      SameMatches(rules, s.contents, s.indexed, s.history, a);
      SameMatches(rules, s.contents, s.indexed, s.history, b);
    }
  }

  lemma IndexedAreLive(s: Snapshot, s': Snapshot, rules: seq<Rule>)
    requires IsOptimized(s, rules) && Invariant(s)
    requires s'.history == s.history && s'.indexed == s.indexed + s.unindexed
    ensures SingleHistory(s.history) && forall t :: t in s'.indexed ==> Live(s.history, t)
  {
    WithDistinctionIsSingle(s);
    forall t | t in s'.indexed
      ensures Live(s.history, t)
    {
      assert Eligible(s, t);
      UnconsumedIsLive(s.history, t);
    }
  }

  // The matcher can find the same matches, as far as it gets.
  lemma SameSearched(s: Snapshot, s': Snapshot, rules: seq<Rule>)
    requires IsOptimized(s, rules) && IsOptimized(s', rules) && Invariant(s)
    ensures IsSearched(s, s') <==> IsSearched(WithDistinction(s, rules), WithDistinction(s', rules))
  {
    var t, t' := WithDistinction(s, rules), WithDistinction(s', rules);
    assert s' == s.(indexed := s.indexed + s.unindexed, unindexed := s'.unindexed,
                    queue := s'.queue, leftover := s'.leftover) <==>
           t' == t.(indexed := t.indexed + t.unindexed, unindexed := t'.unindexed,
                    queue := t'.queue, leftover := t'.leftover);
    if s'.history == s.history && s'.contents == s.contents && s'.indexed == s.indexed + s.unindexed {
      forall m
        ensures IsNewMatch(s, s', m) <==> IsNewMatch(t, t', m)
      {
        SameNewMatches(s, s', rules, m);
      }
    }
  }

  // Looking for matches has the same outcomes, whether or not copies are dropped.
  lemma SameSearches(s: Snapshot, s': Snapshot, rules: seq<Rule>, spec: OrderingSpec, deduplicates: bool)
    requires IsOptimized(s, rules) && IsOptimized(s', rules) && Invariant(s)
    ensures IsIndexed(s, s', spec, deduplicates) <==>
            IsIndexed(WithDistinction(s, rules), WithDistinction(s', rules), spec, deduplicates)
  {
    var t, t' := WithDistinction(s, rules), WithDistinction(s', rules);
    SameSearched(s, s', rules);
    if IsSearched(s, s') {
      IndexedAreLive(s, s', rules);
      forall m
        ensures IsNewMatch(s, s', m) <==> IsNewMatch(t, t', m)
      {
        SameNewMatches(s, s', rules, m);
      }
      forall found, kept
        ensures AddsDeduplicated(s, s', spec, found, kept) <==> AddsDeduplicated(t, t', spec, found, kept)
      {
        SameCopies(s', rules, spec, found);
      }
    }
  }

  // The same matches can become events, with the same outputs and the same consequences.
  lemma SameEvents(s: Snapshot, s': Snapshot, rules: seq<Rule>, m: Match, start: Atom, counter: Atom)
    requires IsOptimized(s, rules) && IsOptimized(s', rules)
    ensures Happened(s, s', m, start, counter) <==>
            Happened(WithDistinction(s, rules), WithDistinction(s', rules), m, start, counter)
  {
    OptimizationKeepsInvariant(s, rules);
    var t := WithDistinction(s, rules);
    assert CanHappen(s, m) <==> CanHappen(t, m) by {
      hide IsPending, IsLeftBehind;
    }
    if CanHappen(s, m) && Graph.AreTokens(s.history, m.inputs) && s.Space(s.indexed).IsExplained(m) {
      SameConsequences(s, s', rules, m, |s.Space(s.indexed).Outputs(m)|);
    }
  }

  lemma SameConsequences(s: Snapshot, s': Snapshot, rules: seq<Rule>, m: Match, n: nat)
    requires IsOptimized(s, rules) && IsOptimized(s', rules)
    requires TokensAreRight(s) && TokensAreRight(WithDistinction(s, rules)) && Graph.AreTokens(s.history, m.inputs)
    ensures IsEvent(s, s', m, n) <==> IsEvent(WithDistinction(s, rules), WithDistinction(s', rules), m, n)
  {
    var t, t' := WithDistinction(s, rules), WithDistinction(s', rules);
    assert forall u :: IsNewToken(s, s', u) <==> IsNewToken(t, t', u);
    assert forall u :: IsSaturatedBy(s', m, u) <==> IsSaturatedBy(t', m, u);
  }

  // ----- whole runs

  // A state of a run, with the counter of atoms.
  datatype RunState = RunState(snapshot: Snapshot, nextAtom: Atom)

  datatype Step = Search | InterruptSearch | ChangeLimit(g: int) | MakeEvent(m: Match)

  ghost predicate IsStep(a: RunState, b: RunState, step: Step, spec: OrderingSpec, deduplicates: bool) {
    var s, s' := a.snapshot, b.snapshot;
    match step
    case Search => b.nextAtom == a.nextAtom && IsIndexed(s, s', spec, deduplicates)
    case InterruptSearch => b.nextAtom == a.nextAtom && IsInterrupted(s, s', deduplicates)
    case ChangeLimit(g) => b.nextAtom == a.nextAtom && AddsLastGeneration(s, s', g) && CanChangeLimit(s, g)
    case MakeEvent(m) => IsFirstOf(spec, s.queue, m) && Happened(s, s', m, a.nextAtom, b.nextAtom)
  }

  ghost predicate IsRun(
    states: seq<RunState>, steps: seq<Step>, spec: OrderingSpec, deduplicates: bool, n: nat)
    requires n <= |steps| && |states| == |steps| + 1
  {
    forall k :: 0 <= k < n ==> IsStep(states[k], states[k + 1], steps[k], spec, deduplicates)
  }

  ghost function Distinguished(states: seq<RunState>, rules: seq<Rule>): (r: seq<RunState>)
    ensures |r| == |states|
    ensures forall k :: 0 <= k < |r| ==>
              r[k] == RunState(WithDistinction(states[k].snapshot, rules), states[k].nextAtom)
  {
    seq(|states|, k requires 0 <= k < |states| =>
      RunState(WithDistinction(states[k].snapshot, rules), states[k].nextAtom))
  }

  lemma StepKeepsInvariant(a: RunState, b: RunState, step: Step, spec: OrderingSpec, deduplicates: bool)
    requires Invariant(a.snapshot) && IsStep(a, b, step, spec, deduplicates)
    ensures Invariant(b.snapshot)
  {
    hide Invariant, IsSearched, IsEvent, CanHappen, AddsLastGeneration;
    var s, s' := a.snapshot, b.snapshot;
    match step
    case Search => SearchKeepsInvariant(s, s');
    case InterruptSearch => SearchKeepsInvariant(s, s');
    case ChangeLimit(g) => ChangedLimit(s, s', g);
    case MakeEvent(m) => EventKeepsInvariant(s, s', m, |s.Space(s.indexed).Outputs(m)|);
  }

  lemma SameSteps(
    a: RunState, b: RunState, step: Step, spec: OrderingSpec, deduplicates: bool, rules: seq<Rule>)
    requires IsOptimized(a.snapshot, rules) && IsOptimized(b.snapshot, rules) && Invariant(a.snapshot)
    ensures IsStep(a, b, step, spec, deduplicates) <==>
            IsStep(RunState(WithDistinction(a.snapshot, rules), a.nextAtom),
                   RunState(WithDistinction(b.snapshot, rules), b.nextAtom), step, spec, deduplicates)
  {
    hide Invariant, IsIndexed, Happened;
    var s, s' := a.snapshot, b.snapshot;
    match step
    case Search => SameSearches(s, s', rules, spec, deduplicates);
    case InterruptSearch => SameSearched(s, s', rules);
    case ChangeLimit(g) =>
      var t, t' := WithDistinction(s, rules), WithDistinction(s', rules);
      assert s' == s.(maxGeneration := g, unindexed := s'.unindexed) <==>
             t' == t.(maxGeneration := g, unindexed := t'.unindexed);
    case MakeEvent(m) => SameEvents(s, s', rules, m, a.nextAtom, b.nextAtom);
  }

  // Step by step, what happens with the optimised rules can happen with the given ones, and nothing else.
  lemma {:induction false} SameRuns(
    states: seq<RunState>, steps: seq<Step>, spec: OrderingSpec, deduplicates: bool, rules: seq<Rule>, n: nat)
    requires n <= |steps| && |states| == |steps| + 1 && Invariant(states[0].snapshot)
    requires forall k :: 0 <= k < |states| ==> IsOptimized(states[k].snapshot, rules)
    ensures IsRun(states, steps, spec, deduplicates, n) <==> IsRun(Distinguished(states, rules), steps, spec, deduplicates, n)
    ensures IsRun(states, steps, spec, deduplicates, n) ==> Invariant(states[n].snapshot)
  {
    hide Invariant, IsStep, IsOptimized;
    if n > 0 {
      SameRuns(states, steps, spec, deduplicates, rules, n - 1);
      if IsRun(states, steps, spec, deduplicates, n - 1) {
        SameSteps(states[n - 1], states[n], steps[n - 1], spec, deduplicates, rules);
        if IsStep(states[n - 1], states[n], steps[n - 1], spec, deduplicates) {
          StepKeepsInvariant(states[n - 1], states[n], steps[n - 1], spec, deduplicates);
        }
      }
    }
  }
}
