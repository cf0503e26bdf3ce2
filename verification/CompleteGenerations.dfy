/** Why a generation that is reported as complete stays as it is however the evolution goes on. */
module CompleteGenerations {
  import opened Types
  import opened CausalHistory
  import opened TokenEventGraph
  import opened Evolution

  // Nothing that is pending or can still be found produces an event of generation c or less.
  ghost predicate FrozenUpTo(s: Snapshot, c: int)
    requires Invariant(s)
  {
    && c <= s.maxGeneration
    && (forall m :: m in s.queue ==> EventGeneration(s, m) > c)
    && (forall t :: t in s.unindexed ==> TokenGeneration(s.history, t) >= c)
  }

  ghost function EventGeneration(s: Snapshot, m: Match): int
    requires Invariant(s) && m in s.queue
  {
    PendingInputs(s, m);
    NextGeneration(s.history, m.inputs)
  }

  lemma NewTokensKeepFrozen(h: History, m: Match, tokens: set<TokenId>, c: int)
    requires WellFormed(h) && Layered(h) && AreTokens(h, m.inputs) && TouchesSet(m.inputs, tokens)
    requires forall t :: t in tokens ==> IsToken(h, t) && TokenGeneration(h, t) >= c
    ensures NextGeneration(h, m.inputs) > c
  {
    GenerationsAreNatural(h, |h.events|);
    NextGenerationIsNextLayer(h, m.inputs);
    var i :| 0 <= i < |m.inputs| && m.inputs[i] in tokens;
    var t := m.inputs[i];
    assert TokenGeneration(h, m.inputs[i]) >= c;
  }

  lemma IndexingKeepsFrozen(s: Snapshot, s': Snapshot, c: int)
    requires Invariant(s) && FrozenUpTo(s, c) && Invariant(s')
    requires s' == s.(indexed := s'.indexed, unindexed := s'.unindexed, queue := s'.queue, leftover := s'.leftover)
    requires s'.unindexed <= s.unindexed
    requires forall m :: m in s'.queue ==>
               m in s.queue || m in s.leftover || TouchesSet(m.inputs, s.unindexed)
    ensures FrozenUpTo(s', c)
  {
    forall m | m in s'.queue
      ensures EventGeneration(s', m) > c
    {
      PendingInputs(s', m);
      assert m in s.leftover ==> IsLeftBehind(s, m);
      if m in s.queue {
        assert EventGeneration(s, m) > c;
      } else {
        NewTokensKeepFrozen(s.history, m, s.unindexed, c);
      }
    }
  }

  lemma RaisingKeepsFrozen(s: Snapshot, s': Snapshot, c: int)
    requires Invariant(s) && FrozenUpTo(s, c) && Invariant(s') && s.maxGeneration < s'.maxGeneration
    requires s' == s.(maxGeneration := s'.maxGeneration, unindexed := s'.unindexed)
    requires forall t :: t in s'.unindexed ==>
               t in s.unindexed || (IsToken(s.history, t) && TokenGeneration(s.history, t) == s.maxGeneration)
    ensures FrozenUpTo(s', c)
  {
    forall m | m in s'.queue
      ensures EventGeneration(s', m) > c
    {
      assert EventGeneration(s, m) > c;
    }
  }

  lemma EventKeepsFrozen(s: Snapshot, s': Snapshot, m: Match, n: nat, c: int)
    requires CanHappen(s, m) && AreTokens(s.history, m.inputs) && IsEvent(s, s', m, n)
    requires Invariant(s') && FrozenUpTo(s, c)
    ensures FrozenUpTo(s', c)
    ensures s'.history.events[|s.history.events|].generation > c
  {
    assert EventGeneration(s, m) > c;
    EventHistory(s, s', m, n);
    forall x | x in s'.queue
      ensures EventGeneration(s', x) > c
    {
      assert EventGeneration(s, x) > c;
      PendingInputs(s, x);
      NextGenerationIsStable(s.history, s'.history, x.inputs);
    }
  }

  // The generation before the earliest possible event is frozen, and no later one that has been reached is.
  lemma MinimumIsComplete(s: Snapshot, smallest: int, largest: int, g: int)
    requires Invariant(s) && s.unindexed == {} && s.maxGeneration <= MAX_INT64
    requires IsLargestGeneration(s.history, largest) && s.history.events != []
    requires forall m :: m in s.queue ==> smallest < EventGeneration(s, m)
    requires smallest == MAX_INT64 || exists m :: m in s.queue && smallest == EventGeneration(s, m) - 1
    requires g == if smallest < largest then smallest else largest
    ensures FrozenUpTo(s, g)
    ensures forall c :: c <= largest && FrozenUpTo(s, c) ==> c <= g
  {
    forall c | c <= largest && FrozenUpTo(s, c)
      ensures c <= g
    {
      if smallest != MAX_INT64 {
        var m :| m in s.queue && smallest == EventGeneration(s, m) - 1;
        assert EventGeneration(s, m) > c;
      }
    }
  }
}
