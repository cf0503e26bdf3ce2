/**
  The invariants of an evolution between two steps, on values: which tokens are indexed, which
  matches are pending, and what indexing, an event and a new generation limit do to them.
 */
module Evolution {
  import opened Types
  import opened Collections
  import opened CausalHistory
  import opened DestroyerChoices
  import opened Matching
  import opened TokenEventGraph

  datatype Snapshot = Snapshot(
    rules: seq<Rule>, contents: Contents, history: History, tracksChoices: bool,
    // Tokens of this generation are never matched.
    maxGeneration: int,
    // No token is consumed more often than this.
    limit: Option<int>,
    // Tokens the matcher can discover, and tokens it still has to look at.
    indexed: set<TokenId>, unindexed: set<TokenId>,
    // Pending matches, and matches that an interrupted search left behind.
    queue: set<Match>, leftover: set<Match>)
  {
    ghost function Space(pool: set<TokenId>): MatchSpace {
      MatchSpace(rules, contents, pool, SeparationView(history, tracksChoices))
    }
  }

  ghost predicate BelowLimit(limit: Option<int>, count: int) {
    limit.None? || count < limit.value
  }

  ghost predicate Eligible(s: Snapshot, t: TokenId)
    requires WellFormed(s.history)
  {
    && IsToken(s.history, t)
    && TokenGeneration(s.history, t) < s.maxGeneration
    && BelowLimit(s.limit, DestroyerCount(s.history.events, t))
  }

  ghost predicate Instantiated(h: History, m: Match) {
    exists e :: 0 <= e < |h.events| && h.events[e].rule == m.rule && h.events[e].inputs == m.inputs
  }

  // No conflict was noticed, so separations are known wherever they are tracked.
  ghost predicate TrackingIsIntact(s: Snapshot)
    requires WellFormed(s.history)
  {
    s.tracksChoices ==> Recorded(s.history, |s.history.events|).Some?
  }

  ghost predicate TouchesSet(a: seq<TokenId>, tokens: set<TokenId>) {
    exists i :: 0 <= i < |a| && a[i] in tokens
  }

  // ----- the invariants

  ghost predicate TokensAreRight(s: Snapshot) {
    && WellFormed(s.history) && Layered(s.history)
    && (forall t :: t in s.contents <==> IsToken(s.history, t))
    && GroundContents(s.contents)
    && (forall e :: 0 <= e < |s.history.events| ==> 0 <= s.history.events[e].generation <= s.maxGeneration)
  }

  ghost predicate IndexIsRight(s: Snapshot)
    requires WellFormed(s.history)
  {
    && (forall t :: t in s.indexed ==> Eligible(s, t))
    && (forall t :: t in s.unindexed ==> Eligible(s, t) && DestroyerCount(s.history.events, t) == 0)
    && (forall t :: Eligible(s, t) ==> t in s.indexed || t in s.unindexed)
  }

  ghost predicate LimitIsKept(s: Snapshot) {
    s.limit.Some? ==>
      && s.limit.value >= 1
      && forall t :: IsToken(s.history, t) ==> DestroyerCount(s.history.events, t) <= s.limit.value
  }

  ghost predicate NoEventTwice(s: Snapshot) {
    forall e, f :: 0 <= e < f < |s.history.events| ==>
      !(s.history.events[e].rule == s.history.events[f].rule &&
        s.history.events[e].inputs == s.history.events[f].inputs)
  }

  // A pending match was never instantiated and is a match of indexed tokens.
  ghost predicate IsPending(s: Snapshot, m: Match)
    requires WellFormed(s.history)
  {
    && s.Space(s.indexed).Fits(m)
    && !Instantiated(s.history, m)
    && (TrackingIsIntact(s) ==> s.Space(s.indexed).Allows(m))
  }

  ghost predicate QueueIsSound(s: Snapshot)
    requires WellFormed(s.history)
  {
    && (forall m :: m in s.queue || m in s.leftover ==> IsPending(s, m))
    && (forall m :: m in s.leftover ==> IsLeftBehind(s, m))
  }

  // The match is pending anyway, or will be found again.
  ghost predicate IsLeftBehind(s: Snapshot, m: Match) {
    s.Space(s.indexed).Allows(m) && (m in s.queue || TouchesSet(m.inputs, s.unindexed))
  }

  ghost predicate QueueIsComplete(s: Snapshot)
    requires WellFormed(s.history)
  {
    forall m :: s.Space(s.indexed).Allows(m) && !Instantiated(s.history, m) && !TouchesSet(m.inputs, s.unindexed) ==>
      m in s.queue
  }

  ghost predicate Invariant(s: Snapshot) {
    && TokensAreRight(s)
    && IndexIsRight(s)
    && LimitIsKept(s)
    && NoEventTwice(s)
    && QueueIsSound(s)
  }

  // ----- what the invariants mean

  ghost function EligibleTokens(s: Snapshot): set<TokenId>
    requires WellFormed(s.history)
  {
    set t | t in s.contents && Eligible(s, t)
  }

  // The queue holds exactly the matches of eligible tokens that never became events.
  ghost predicate QueueIsExact(s: Snapshot)
    requires WellFormed(s.history)
  {
    forall m :: m in s.queue <==> s.Space(EligibleTokens(s)).Allows(m) && !Instantiated(s.history, m)
  }

  // No separation decides about the match.
  ghost predicate IgnoresSeparation(rules: seq<Rule>, m: Match) {
    0 <= m.rule < |rules| && (rules[m.rule].selection == SelectAll || |m.inputs| <= 1)
  }

  // After indexing this is so iff no conflict was noticed, or nothing is pending that depends on separations:
  // once they are unknown, such a match would not be found again, but stays pending.
  lemma QueueIsExactIff(s: Snapshot)
    requires Invariant(s) && QueueIsComplete(s) && s.unindexed == {}
    ensures QueueIsExact(s) <==> TrackingIsIntact(s) || forall m :: m in s.queue ==> IgnoresSeparation(s.rules, m)
  {
    SameElements(s.indexed, EligibleTokens(s));
    forall m | m in s.queue
      ensures !TrackingIsIntact(s) ==> (s.Space(s.indexed).Allows(m) <==> IgnoresSeparation(s.rules, m))
    {
      assert IsPending(s, m);
      if !TrackingIsIntact(s) && !IgnoresSeparation(s.rules, m) {
        assert !SpacelikeIn(s.Space(s.indexed).view, m.inputs[0], m.inputs[1]);
      }
    }
    forall m | m in s.queue
      ensures TrackingIsIntact(s) ==> s.Space(s.indexed).Allows(m)
      ensures !Instantiated(s.history, m)
    {
      assert IsPending(s, m);
    }
  }

  ghost function UnsaturatedTokens(s: Snapshot): set<TokenId> {
    set t | t in s.contents && BelowLimit(s.limit, DestroyerCount(s.history.events, t))
  }

  // With no pending match and no token in the last generation, nothing can ever happen again.
  lemma EmptyQueueIsFixedPoint(s: Snapshot)
    requires Invariant(s) && QueueIsComplete(s) && s.unindexed == {} && s.queue == {}
    requires forall e :: 0 <= e < |s.history.events| ==> s.history.events[e].generation < s.maxGeneration
    ensures forall m :: s.Space(UnsaturatedTokens(s)).Allows(m) ==> Instantiated(s.history, m)
  {
    SameElements(s.indexed, UnsaturatedTokens(s));
  }

  // ----- indexing new tokens

  // s' is s after the matcher looked at some or all of the unindexed tokens.
  lemma IndexingKeepsInvariant(s: Snapshot, s': Snapshot)
    requires Invariant(s)
    requires s' == s.(indexed := s.indexed + s.unindexed, unindexed := s'.unindexed,
                      queue := s'.queue, leftover := s'.leftover)
    requires s'.unindexed <= s.unindexed
    requires forall m :: m in s'.queue || m in s'.leftover ==>
               || m in s.queue || m in s.leftover
               || (s'.Space(s'.indexed).Allows(m) && TouchesSet(m.inputs, s.unindexed))
    requires forall m :: m in s'.leftover ==>
               m in s.leftover || (s'.Space(s'.indexed).Allows(m) && TouchesSet(m.inputs, s.unindexed))
    requires forall m :: m in s'.leftover ==> m in s'.queue || TouchesSet(m.inputs, s'.unindexed)
    ensures Invariant(s')
  {
    forall t
      ensures Eligible(s', t) <==> Eligible(s, t)
    {
    }
    forall m | m in s'.queue || m in s'.leftover
      ensures IsPending(s', m)
    {
      if m in s.queue || m in s.leftover {
        assert IsPending(s, m);
      } else {
        UnusedTokenIsNotInstantiated(s.history, m, s.unindexed);
      }
    }
    forall m | m in s'.leftover
      ensures IsLeftBehind(s', m)
    {
      if m in s.leftover {
        assert IsLeftBehind(s, m);
      }
    }
  }

  lemma IndexingKeepsQueueComplete(s: Snapshot, s': Snapshot)
    requires Invariant(s) && QueueIsComplete(s)
    requires s' == s.(indexed := s.indexed + s.unindexed, unindexed := s'.unindexed,
                      queue := s'.queue, leftover := s'.leftover)
    requires s.queue <= s'.queue
    requires forall m :: s'.Space(s'.indexed).Allows(m) && TouchesSet(m.inputs, s.unindexed) ==>
               m in s'.queue || TouchesSet(m.inputs, s'.unindexed)
    ensures QueueIsComplete(s')
  {
    forall m | s'.Space(s'.indexed).Allows(m) && !Instantiated(s.history, m) && !TouchesSet(m.inputs, s'.unindexed)
      ensures m in s'.queue
    {
    }
  }

  lemma UnusedTokenIsNotInstantiated(h: History, m: Match, tokens: set<TokenId>)
    requires forall t :: t in tokens ==> DestroyerCount(h.events, t) == 0
    requires TouchesSet(m.inputs, tokens)
    ensures !Instantiated(h, m)
  {
    var i :| 0 <= i < |m.inputs| && m.inputs[i] in tokens;
    var t := m.inputs[i];
    CountedIffConsumed(h.events, t);
    assert t in m.inputs;
  }

  // ----- raising the generation limit

  // The tokens that a higher limit makes eligible are exactly those of the previous last generation.
  lemma RaisingKeepsInvariant(s: Snapshot, s': Snapshot)
    requires Invariant(s) && s.maxGeneration < s'.maxGeneration
    requires s' == s.(maxGeneration := s'.maxGeneration, unindexed := s'.unindexed)
    requires forall t :: t in s'.unindexed <==>
               t in s.unindexed || (IsToken(s.history, t) && TokenGeneration(s.history, t) == s.maxGeneration)
    ensures Invariant(s')
    ensures QueueIsComplete(s) ==> QueueIsComplete(s')
  {
    forall t | IsToken(s.history, t)
      ensures TokenGeneration(s.history, t) == s.maxGeneration ==> DestroyerCount(s.history.events, t) == 0
    {
      ConsumedTokensAreEarlier(s, t);
    }
    forall t | Eligible(s', t)
      ensures t in s'.indexed || t in s'.unindexed
    {
      assert TokenGeneration(s.history, t) <= s.maxGeneration;
      if TokenGeneration(s.history, t) < s.maxGeneration {
        assert Eligible(s, t);
      }
    }
    assert forall t :: Eligible(s, t) ==> Eligible(s', t);
    assert forall m :: IsPending(s, m) ==> IsPending(s', m);
    forall m: Match
      ensures TouchesSet(m.inputs, s.unindexed) ==> TouchesSet(m.inputs, s'.unindexed)
    {
      if i :| 0 <= i < |m.inputs| && m.inputs[i] in s.unindexed {
        var t := m.inputs[i];
        assert t in s'.unindexed;
      }
    }
  }

  // Everything so far is within the limit, and so is everything that can still be consumed.
  ghost predicate IsWithinGeneration(s: Snapshot, g: int)
    requires WellFormed(s.history)
  {
    && (forall e :: 0 <= e < |s.history.events| ==> s.history.events[e].generation <= g)
    && (forall t :: t in s.indexed || t in s.unindexed ==>
          IsToken(s.history, t) && TokenGeneration(s.history, t) < g)
  }

  // A lower limit is as good as one that was there from the beginning iff nothing went beyond it yet.
  lemma LoweringKeepsInvariantIff(s: Snapshot, g: int)
    requires Invariant(s) && g < s.maxGeneration
    ensures Invariant(s.(maxGeneration := g)) <==> IsWithinGeneration(s, g)
    ensures QueueIsComplete(s) ==> QueueIsComplete(s.(maxGeneration := g))
  {
    var lowered := s.(maxGeneration := g);
    if Invariant(lowered) {
      forall t | t in s.indexed || t in s.unindexed
        ensures IsToken(s.history, t) && TokenGeneration(s.history, t) < g
      {
        assert Eligible(lowered, t);
      }
    }
    if IsWithinGeneration(s, g) {
      forall t
        ensures Eligible(lowered, t) <==> Eligible(s, t)
      {
        if Eligible(s, t) {
          assert t in s.indexed || t in s.unindexed;
        }
      }
      forall m
        ensures IsPending(lowered, m) <==> IsPending(s, m)
        ensures IsLeftBehind(lowered, m) <==> IsLeftBehind(s, m)
      {
      }
    }
  }

  lemma ConsumedTokensAreEarlier(s: Snapshot, t: TokenId)
    requires TokensAreRight(s) && IsToken(s.history, t)
    ensures DestroyerCount(s.history.events, t) > 0 ==> TokenGeneration(s.history, t) < s.maxGeneration
  {
    CountedIffConsumed(s.history.events, t);
    if DestroyerCount(s.history.events, t) > 0 {
      var e :| 0 <= e < |s.history.events| && t in s.history.events[e].inputs;
      var inputs := s.history.events[e].inputs;
      assert AreTokens(s.history, inputs);
      var i :| 0 <= i < |inputs| && inputs[i] == t;
      NextGenerationIsNextLayer(s.history, inputs);
      assert TokenGeneration(s.history, inputs[i]) < NextGeneration(s.history, inputs);
    }
  }

  // ----- an event

  // s' is s after the pending match m became an event with outputCount new tokens.
  ghost predicate IsEvent(s: Snapshot, s': Snapshot, m: Match, outputCount: nat)
    requires WellFormed(s.history) && AreTokens(s.history, m.inputs)
  {
    && s'.rules == s.rules && s'.tracksChoices == s.tracksChoices
    && s'.maxGeneration == s.maxGeneration && s'.limit == s.limit
    && s'.history == Appended(s.history, m.rule, m.inputs, outputCount)
    && WellFormed(s'.history)
    && (forall t :: t in s'.contents <==> IsToken(s'.history, t))
    && (forall t :: t in s.contents ==> t in s'.contents && s'.contents[t] == s.contents[t])
    && GroundContents(s'.contents)
    && (forall t :: t in s'.unindexed <==> IsNewToken(s, s', t) && TokenGeneration(s'.history, t) < s.maxGeneration)
    && (forall t :: t in s'.indexed <==> t in s.indexed && !IsSaturatedBy(s', m, t))
    && (forall x :: x in s'.queue <==>
          x in s.queue && x != m && forall t :: t in x.inputs ==> !IsSaturatedBy(s', m, t))
    && s'.leftover == {}
  }

  ghost predicate IsNewToken(s: Snapshot, s': Snapshot, t: TokenId) {
    IsToken(s'.history, t) && !IsToken(s.history, t)
  }

  // The event was the last one that may consume t.
  ghost predicate IsSaturatedBy(s': Snapshot, m: Match, t: TokenId) {
    t in m.inputs && !BelowLimit(s'.limit, DestroyerCount(s'.history.events, t))
  }

  ghost predicate CanHappen(s: Snapshot, m: Match) {
    && Invariant(s) && QueueIsSound(s)
    && m in s.queue && s.unindexed == {} && s.leftover == {}
  }

  lemma PendingInputs(s: Snapshot, m: Match)
    requires Invariant(s) && (m in s.queue || m in s.leftover)
    ensures AreTokens(s.history, m.inputs) && m.inputs != [] && Distinct(m.inputs)
    ensures FromPool(s.indexed, m.inputs)
    ensures forall i :: 0 <= i < |m.inputs| ==> Eligible(s, m.inputs[i])
    ensures 0 < NextGeneration(s.history, m.inputs) <= s.maxGeneration
  {
    assert IsPending(s, m);
    forall i | 0 <= i < |m.inputs|
      ensures Eligible(s, m.inputs[i]) && IsToken(s.history, m.inputs[i])
    {
      var t := m.inputs[i];
      assert t in s.indexed;
    }
    NextGenerationIsNextLayer(s.history, m.inputs);
    assert TokenGeneration(s.history, m.inputs[0]) >= 0;
  }

  // What an event changes about generations and destroyer counts.
  ghost predicate IsCountedEvent(s: Snapshot, s': Snapshot, m: Match)
    requires TokensAreRight(s) && WellFormed(s'.history) && AreTokens(s.history, m.inputs)
  {
    && Extends(s.history, s'.history)
    && (forall t :: IsToken(s.history, t) ==>
          && TokenGeneration(s'.history, t) == TokenGeneration(s.history, t)
          && DestroyerCount(s'.history.events, t) ==
             DestroyerCount(s.history.events, t) + (if t in m.inputs then 1 else 0))
    && (forall t :: IsNewToken(s, s', t) ==>
          && TokenGeneration(s'.history, t) == NextGeneration(s.history, m.inputs)
          && DestroyerCount(s'.history.events, t) == 0)
  }

  lemma EventHistory(s: Snapshot, s': Snapshot, m: Match, n: nat)
    requires CanHappen(s, m) && AreTokens(s.history, m.inputs) && IsEvent(s, s', m, n)
    ensures TokensAreRight(s') && IsCountedEvent(s, s', m)
  {
    PendingInputs(s, m);
    EventKeepsTokens(s, s', m, n);
    EventIsCounted(s, s', m, n);
  }

  lemma EventKeepsTokens(s: Snapshot, s': Snapshot, m: Match, n: nat)
    requires TokensAreRight(s) && AreTokens(s.history, m.inputs) && IsEvent(s, s', m, n)
    requires 0 < NextGeneration(s.history, m.inputs) <= s.maxGeneration
    ensures TokensAreRight(s')
  {
    AppendedIsLayered(s.history, m.rule, m.inputs, n);
    var last := |s.history.events|;
    forall e | 0 <= e < |s'.history.events|
      ensures 0 <= s'.history.events[e].generation <= s.maxGeneration
    {
      assert e < last ==> s'.history.events[e] == s.history.events[e];
    }
  }

  lemma EventIsCounted(s: Snapshot, s': Snapshot, m: Match, n: nat)
    requires TokensAreRight(s) && AreTokens(s.history, m.inputs) && IsEvent(s, s', m, n) && Distinct(m.inputs)
    ensures IsCountedEvent(s, s', m)
  {
    AppendedIsWellFormed(s.history, m.rule, m.inputs, n);
    AppendedCounts(s.history, m.rule, m.inputs, n);
    AppendedGenerations(s.history, m.rule, m.inputs, n);
  }

  lemma AppendedCounts(h: History, rule: int, inputs: seq<TokenId>, n: nat)
    requires WellFormed(h) && AreTokens(h, inputs) && Distinct(inputs)
    ensures var h' := Appended(h, rule, inputs, n);
            forall t :: DestroyerCount(h'.events, t) ==
                        (if IsToken(h, t) || t < 0 then DestroyerCount(h.events, t) else 0) +
                        (if t in inputs then 1 else 0)
    ensures forall t :: t in inputs ==> IsToken(h, t)
  {
    var h' := Appended(h, rule, inputs, n);
    EventCounts(h, h', h'.events[|h.events|]);
    forall t | !IsToken(h, t) && t >= 0
      ensures DestroyerCount(h.events, t) == 0
    {
      NewTokensAreNotConsumed(h, t);
    }
    forall t | t in inputs
      ensures IsToken(h, t)
    {
      var i :| 0 <= i < |inputs| && inputs[i] == t;
      assert IsToken(h, inputs[i]);
    }
  }

  lemma AppendedGenerations(h: History, rule: int, inputs: seq<TokenId>, n: nat)
    requires WellFormed(h) && AreTokens(h, inputs)
    ensures var h' := Appended(h, rule, inputs, n);
            && WellFormed(h')
            && (forall t :: IsToken(h, t) ==> IsToken(h', t) && TokenGeneration(h', t) == TokenGeneration(h, t))
            && (forall t :: IsToken(h', t) && !IsToken(h, t) ==> TokenGeneration(h', t) == NextGeneration(h, inputs))
  {
    AppendedIsWellFormed(h, rule, inputs, n);
  }

  lemma EventCounts(h: History, h': History, event: Event)
    requires h'.events == h.events + [event] && Distinct(event.inputs)
    ensures forall t :: DestroyerCount(h'.events, t) ==
                        DestroyerCount(h.events, t) + (if t in event.inputs then 1 else 0)
  {
    forall t
      ensures DestroyerCount(h'.events, t) == DestroyerCount(h.events, t) + (if t in event.inputs then 1 else 0)
    {
      DestroyerCountOfAppended(h.events, event, t);
      DistinctMultiplicity(event.inputs, t);
    }
  }

  lemma EventKeepsIndex(s: Snapshot, s': Snapshot, m: Match, n: nat)
    requires CanHappen(s, m) && AreTokens(s.history, m.inputs) && IsEvent(s, s', m, n)
    requires IsCountedEvent(s, s', m)
    ensures IndexIsRight(s')
  {
    hide QueueIsSound, NoEventTwice, Layered;
    forall t | t in s'.indexed
      ensures Eligible(s', t)
    {
      assert Eligible(s, t);
    }
    forall t | Eligible(s', t)
      ensures t in s'.indexed || t in s'.unindexed
    {
      if IsToken(s.history, t) {
        assert Eligible(s, t);
      }
    }
  }

  lemma EventKeepsLimit(s: Snapshot, s': Snapshot, m: Match, n: nat)
    requires CanHappen(s, m) && AreTokens(s.history, m.inputs) && IsEvent(s, s', m, n)
    requires IsCountedEvent(s, s', m)
    ensures LimitIsKept(s')
  {
    PendingInputs(s, m);
    if s.limit.Some? {
      forall t | IsToken(s'.history, t)
        ensures DestroyerCount(s'.history.events, t) <= s.limit.value
      {
        if t in m.inputs {
          var i :| 0 <= i < |m.inputs| && m.inputs[i] == t;
          assert Eligible(s, m.inputs[i]);
        }
      }
    }
  }

  lemma EventIsNew(s: Snapshot, s': Snapshot, m: Match)
    requires NoEventTwice(s) && !Instantiated(s.history, m)
    requires s.history.events <= s'.history.events && |s'.history.events| == |s.history.events| + 1
    requires s'.history.events[|s.history.events|].rule == m.rule
    requires s'.history.events[|s.history.events|].inputs == m.inputs
    ensures NoEventTwice(s')
  {
    var last := |s.history.events|;
    forall e, f | 0 <= e < f <= last
      ensures !(s'.history.events[e].rule == s'.history.events[f].rule &&
                s'.history.events[e].inputs == s'.history.events[f].inputs)
    {
      assert s'.history.events[e] == s.history.events[e];
    }
  }

  // Matches of old tokens stay what they are, except that separations may become unknown.
  lemma OldMatchesAreStable(s: Snapshot, s': Snapshot, pool: set<TokenId>, x: Match)
    requires WellFormed(s.history) && WellFormed(s'.history) && Extends(s.history, s'.history)
    requires s'.rules == s.rules && s'.tracksChoices == s.tracksChoices
    requires forall t :: t in s.contents <==> IsToken(s.history, t)
    requires forall t :: t in s.contents ==> t in s'.contents && s'.contents[t] == s.contents[t]
    requires forall t :: t in pool ==> IsToken(s.history, t)
    ensures TrackingIsIntact(s') ==> TrackingIsIntact(s)
    ensures s.Space(pool).Fits(x) <==> s'.Space(pool).Fits(x)
    ensures s'.Space(pool).Allows(x) ==> s.Space(pool).Allows(x)
    ensures TrackingIsIntact(s') && s.Space(pool).Allows(x) ==> s'.Space(pool).Allows(x)
  {
    if s.tracksChoices && Recorded(s'.history, |s'.history.events|).Some? {
      RecordedIsPrefix(s'.history, |s.history.events|, |s'.history.events|);
      RecordedIsStable(s.history, s'.history, |s.history.events|);
    }
    if FromPool(pool, x.inputs) && 0 <= x.rule < |s.rules| {
      OldExplanationsAreStable(s, s', pool, x);
      OldSeparationsAreStable(s, s', pool, x.inputs);
    }
  }

  lemma OldExplanationsAreStable(s: Snapshot, s': Snapshot, pool: set<TokenId>, x: Match)
    requires forall t :: t in s.contents ==> t in s'.contents && s'.contents[t] == s.contents[t]
    requires forall t :: t in pool ==> t in s.contents
    requires FromPool(pool, x.inputs) && 0 <= x.rule < |s.rules|
    ensures forall full :: Explains(full, s.rules[x.rule].inputs, s.contents, x.inputs) <==>
                           Explains(full, s.rules[x.rule].inputs, s'.contents, x.inputs)
  {
    forall i | 0 <= i < |x.inputs|
      ensures x.inputs[i] in s.contents && x.inputs[i] in s'.contents
      ensures s'.contents[x.inputs[i]] == s.contents[x.inputs[i]]
    {
      var t := x.inputs[i];
      assert t in pool && t in s.contents && t in s'.contents && s'.contents[t] == s.contents[t];
    }
  }

  lemma OldSeparationsAreStable(s: Snapshot, s': Snapshot, pool: set<TokenId>, a: seq<TokenId>)
    requires WellFormed(s.history) && WellFormed(s'.history) && Extends(s.history, s'.history)
    requires s'.tracksChoices == s.tracksChoices
    requires (forall t :: t in pool ==> IsToken(s.history, t)) && FromPool(pool, a)
    ensures forall i, j :: 0 <= i < |a| && 0 <= j < |a| ==>
              && (SpacelikeIn(s'.Space(pool).view, a[i], a[j]) ==> SpacelikeIn(s.Space(pool).view, a[i], a[j]))
              && (TrackingIsIntact(s') && SpacelikeIn(s.Space(pool).view, a[i], a[j]) ==>
                    SpacelikeIn(s'.Space(pool).view, a[i], a[j]))
  {
    forall i, j | 0 <= i < |a| && 0 <= j < |a|
      ensures SpacelikeIn(s'.Space(pool).view, a[i], a[j]) ==> SpacelikeIn(s.Space(pool).view, a[i], a[j])
      ensures TrackingIsIntact(s') && SpacelikeIn(s.Space(pool).view, a[i], a[j]) ==>
                SpacelikeIn(s'.Space(pool).view, a[i], a[j])
    {
      var t, u := a[i], a[j];
      assert t in pool && u in pool;
      if s.tracksChoices && Recorded(s'.history, |s'.history.events|).Some? {
        SeparationIsStable(s.history, s'.history, s.tracksChoices, t, u);
      }
    }
  }

  lemma EventKeepsQueueSound(s: Snapshot, s': Snapshot, m: Match, n: nat)
    requires CanHappen(s, m) && AreTokens(s.history, m.inputs) && IsEvent(s, s', m, n)
    ensures QueueIsSound(s')
  {
    EventHistory(s, s', m, n);
    forall x | x in s'.queue || x in s'.leftover
      ensures IsPending(s', x)
    {
      assert IsPending(s, x);
      forall i | 0 <= i < |x.inputs|
        ensures x.inputs[i] in s'.indexed
      {
        var t := x.inputs[i];
        assert t in x.inputs && t in s.indexed;
      }
      assert s.Space(s'.indexed).Fits(x);
      assert TrackingIsIntact(s) ==> s.Space(s'.indexed).Allows(x);
      OldMatchesAreStable(s, s', s'.indexed, x);
      OnlyNewInstance(s.history, s'.history, m, x);
    }
  }

  lemma OnlyNewInstance(h: History, h': History, m: Match, x: Match)
    requires |h'.events| == |h.events| + 1 && h.events <= h'.events
    requires h'.events[|h.events|].rule == m.rule && h'.events[|h.events|].inputs == m.inputs
    ensures Instantiated(h', x) <==> Instantiated(h, x) || x == m
  {
    if e :| 0 <= e < |h.events| && h.events[e].rule == x.rule && h.events[e].inputs == x.inputs {
      assert h'.events[e] == h.events[e];
    }
  }

  lemma EventKeepsQueueComplete(s: Snapshot, s': Snapshot, m: Match, n: nat)
    requires CanHappen(s, m) && AreTokens(s.history, m.inputs) && IsEvent(s, s', m, n) && QueueIsComplete(s)
    ensures QueueIsComplete(s')
  {
    EventHistory(s, s', m, n);
    forall x | s'.Space(s'.indexed).Allows(x) && !Instantiated(s'.history, x)
      ensures x in s'.queue
    {
      OldMatchesAreStable(s, s', s'.indexed, x);
      assert s.Space(s'.indexed).Allows(x);
      forall i | 0 <= i < |x.inputs|
        ensures x.inputs[i] in s.indexed && !IsSaturatedBy(s', m, x.inputs[i])
      {
        var t := x.inputs[i];
        assert t in s'.indexed;
      }
      assert s.Space(s.indexed).Allows(x);
      OnlyNewInstance(s.history, s'.history, m, x);
    }
  }

  // The whole step keeps the invariant.
  lemma EventKeepsInvariant(s: Snapshot, s': Snapshot, m: Match, n: nat)
    requires CanHappen(s, m) && AreTokens(s.history, m.inputs) && IsEvent(s, s', m, n)
    ensures Invariant(s')
    ensures QueueIsComplete(s) ==> QueueIsComplete(s')
  {
    EventHistory(s, s', m, n);
    EventKeepsIndex(s, s', m, n);
    EventKeepsLimit(s, s', m, n);
    assert IsPending(s, m);
    EventIsNew(s, s', m);
    EventKeepsQueueSound(s, s', m, n);
    if QueueIsComplete(s) {
      EventKeepsQueueComplete(s, s', m, n);
    }
  }
}
