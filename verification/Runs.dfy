/** How the state of an evolution develops from call to call. */
module Runs {
  import opened Types
  import opened CausalHistory
  import opened MatchOrder
  import opened TokenEventGraph
  import opened Deduplication
  import opened SelectionFunctions
  import opened Evolution
  import opened CompleteGenerations

  // ----- looking for matches

  ghost predicate IsNewMatch(s: Snapshot, s': Snapshot, m: Match) {
    s'.Space(s'.indexed).Allows(m) && TouchesSet(m.inputs, s.unindexed)
  }

  // The matcher looked at some or all of the new tokens.
  ghost predicate IsSearched(s: Snapshot, s': Snapshot) {
    && s' == s.(indexed := s.indexed + s.unindexed, unindexed := s'.unindexed,
                queue := s'.queue, leftover := s'.leftover)
    && (s'.unindexed == {} || s'.unindexed == s.unindexed)
    && s.queue <= s'.queue
    && (forall m :: m in s'.queue && m !in s.queue ==> m in s.leftover || IsNewMatch(s, s', m))
    && (forall m :: m in s'.leftover && m !in s.leftover ==> IsNewMatch(s, s', m))
    && (forall m :: m in s'.leftover ==> m in s'.queue || TouchesSet(m.inputs, s'.unindexed))
  }

  // The search was completed: every new match is there, or a copy of it if copies are dropped.
  ghost predicate IsIndexed(s: Snapshot, s': Snapshot, spec: OrderingSpec, deduplicates: bool) {
    && IsSearched(s, s')
    && s'.unindexed == {}
    && s'.leftover <= s.leftover
    && (!deduplicates ==> forall m :: IsNewMatch(s, s', m) ==> m in s'.queue)
    && (deduplicates ==> s'.leftover == {} && exists found, kept :: AddsDeduplicated(s, s', spec, found, kept))
  }

  ghost predicate AddsDeduplicated(
    s: Snapshot, s': Snapshot, spec: OrderingSpec, found: set<Match>, kept: set<Match>)
  {
    && (forall m :: m in found <==> m in s.leftover || IsNewMatch(s, s', m))
    && IsDeduplicated(Copies(spec, s'.Space(s'.indexed), found), found, kept)
    && s'.queue == s.queue + kept
  }

  // The matcher stopped before the end. What it found may be pending, unless copies are to be dropped at the end.
  ghost predicate IsInterrupted(s: Snapshot, s': Snapshot, deduplicates: bool) {
    IsSearched(s, s') && s'.unindexed == s.unindexed && (deduplicates ==> s'.queue == s.queue)
  }

  // Of the new matches, only copies of earlier ones with the same inputs are ever missing.
  lemma OnlyCopiesAreDropped(s: Snapshot, s': Snapshot, spec: OrderingSpec, m: Match)
    requires IsIndexed(s, s', spec, true) && IsNewMatch(s, s', m)
    ensures m in s'.queue || exists k :: k in s'.queue && IsCopyOf(spec, s'.Space(s'.indexed), m, k)
  {
    var found, kept :| AddsDeduplicated(s, s', spec, found, kept);
    if m !in kept {
      var k :| k in kept && (m, k) in Copies(spec, s'.Space(s'.indexed), found);
      assert k in s'.queue;
    }
  }

  lemma SearchKeepsInvariant(s: Snapshot, s': Snapshot)
    requires Invariant(s) && IsSearched(s, s')
    ensures Invariant(s') && Evolves(s, s')
  {
    IndexingKeepsInvariant(s, s');
    forall c | FrozenUpTo(s, c)
      ensures FrozenUpTo(s', c)
    {
      IndexingKeepsFrozen(s, s', c);
    }
  }

  // ----- going on

  // What holds between an earlier and a later state of any run.
  ghost predicate Evolves(s: Snapshot, s': Snapshot)
    requires Invariant(s) && Invariant(s')
  {
    && s'.rules == s.rules && s'.tracksChoices == s.tracksChoices && s'.limit == s.limit
    && s.maxGeneration <= s'.maxGeneration
    && Extends(s.history, s'.history)
    && (forall t :: t in s.contents ==> t in s'.contents && s'.contents[t] == s.contents[t])
    && (forall c :: FrozenUpTo(s, c) ==> StaysFrozen(s, s', c))
    && (AllSelective(s.rules) && s.tracksChoices && SpacelikeHistory(s.history) ==> SpacelikeHistory(s'.history))
  }

  // Nothing of generation c or less was added, and nothing can be.
  ghost predicate StaysFrozen(s: Snapshot, s': Snapshot, c: int)
    requires Invariant(s) && Invariant(s')
  {
    && FrozenUpTo(s', c)
    && forall e :: |s.history.events| <= e < |s'.history.events| ==> s'.history.events[e].generation > c
  }

  lemma EvolvesReflexive(s: Snapshot)
    requires Invariant(s)
    ensures Evolves(s, s)
  {
  }

  lemma EvolvesTransitive(s: Snapshot, s': Snapshot, s'': Snapshot)
    requires Invariant(s) && Invariant(s') && Invariant(s'')
    requires Evolves(s, s') && Evolves(s', s'')
    ensures Evolves(s, s'')
  {
    forall c | FrozenUpTo(s, c)
      ensures StaysFrozen(s, s'', c)
    {
      assert StaysFrozen(s, s', c) && StaysFrozen(s', s'', c);
      forall e | |s.history.events| <= e < |s''.history.events|
        ensures s''.history.events[e].generation > c
      {
        assert e < |s'.history.events| ==> s''.history.events[e] == s'.history.events[e];
      }
    }
  }

  lemma RaisingEvolves(s: Snapshot, s': Snapshot)
    requires Invariant(s) && s.maxGeneration < s'.maxGeneration
    requires s' == s.(maxGeneration := s'.maxGeneration, unindexed := s'.unindexed)
    requires forall t :: t in s'.unindexed <==>
               t in s.unindexed || (IsToken(s.history, t) && TokenGeneration(s.history, t) == s.maxGeneration)
    ensures Invariant(s') && Evolves(s, s')
    ensures QueueIsComplete(s) ==> QueueIsComplete(s')
  {
    RaisingKeepsInvariant(s, s');
    forall c | FrozenUpTo(s, c)
      ensures StaysFrozen(s, s', c)
    {
      RaisingKeepsFrozen(s, s', c);
    }
  }

  lemma EventStaysFrozen(s: Snapshot, s': Snapshot, m: Match, n: nat)
    requires CanHappen(s, m) && AreTokens(s.history, m.inputs) && IsEvent(s, s', m, n)
    requires Invariant(s) && Invariant(s') && Extends(s.history, s'.history)
    ensures forall c :: FrozenUpTo(s, c) ==> StaysFrozen(s, s', c)
  {
    hide Invariant, CanHappen, FrozenUpTo, WellFormed, QueueIsSound, Layered;
    assert |s'.history.events| == |s.history.events| + 1;
    forall c | FrozenUpTo(s, c)
      ensures StaysFrozen(s, s', c)
    {
      EventKeepsFrozen(s, s', m, n, c);
    }
  }

  lemma EventExtends(s: Snapshot, s': Snapshot, m: Match, n: nat)
    requires CanHappen(s, m) && AreTokens(s.history, m.inputs) && IsEvent(s, s', m, n)
    ensures Invariant(s) && WellFormed(s.history) && WellFormed(s'.history)
    ensures s'.rules == s.rules && s'.tracksChoices == s.tracksChoices && s'.limit == s.limit
    ensures s'.maxGeneration == s.maxGeneration && Extends(s.history, s'.history)
    ensures forall t :: t in s.contents ==> t in s'.contents && s'.contents[t] == s.contents[t]
  {
    AppendedIsWellFormed(s.history, m.rule, m.inputs, n);
  }

  lemma EventEvolves(s: Snapshot, s': Snapshot, m: Match, n: nat)
    requires CanHappen(s, m) && AreTokens(s.history, m.inputs) && IsEvent(s, s', m, n)
    ensures Invariant(s') && Evolves(s, s')
    ensures QueueIsComplete(s) ==> QueueIsComplete(s')
  {
    hide Invariant, FrozenUpTo, StaysFrozen, SpacelikeHistory, QueueIsComplete, IsEvent, Extends, CanHappen;
    EventExtends(s, s', m, n);
    EventKeepsInvariant(s, s', m, n);
    EventStaysFrozen(s, s', m, n);
    if AllSelective(s.rules) && s.tracksChoices && SpacelikeHistory(s.history) {
      EventKeepsSpacelike(s, s', m, n);
    }
  }
}
