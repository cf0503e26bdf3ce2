/** What happens if the generation limit is lowered although something is beyond it, and raised again later. */
module LoweredLimits {
  import opened Types
  import opened Collections
  import opened CausalHistory
  import opened Matching
  import opened MatchOrder
  import opened TokenEventGraph
  import opened Deduplication
  import opened InsertionOrder
  import opened Evolution
  import opened Runs
  import opened GlobalDeduplication
  import opened Steps

  // ----- an event under the lowered limit

  // Nothing is beyond g so far, and m consumes only what is below it.
  ghost predicate InputsAreWithin(s: Snapshot, m: Match, g: int)
    requires WellFormed(s.history) && AreTokens(s.history, m.inputs)
  {
    && (forall e :: 0 <= e < |s.history.events| ==> s.history.events[e].generation <= g)
    && forall i :: 0 <= i < |m.inputs| ==> TokenGeneration(s.history, m.inputs[i]) < g
  }

  // The limit does not stop what was pending before: it is respected iff it was not in the way.
  lemma EventRespectsLoweredLimitIff(s: Snapshot, s': Snapshot, m: Match, n: nat, g: int)
    requires CanHappen(s, m) && AreTokens(s.history, m.inputs) && g < s.maxGeneration
    requires IsEvent(s.(maxGeneration := g), s', m, n)
    ensures TokensAreRight(s') <==> InputsAreWithin(s, m, g)
    ensures IsWithinGeneration(s, g) ==> TokensAreRight(s')
  {
    PendingInputs(s, m);
    NextGenerationIsNextLayer(s.history, m.inputs);
    GenerationsAreNatural(s.history, |s.history.events|);
    hide QueueIsSound, NoEventTwice, LimitIsKept, IndexIsRight, NextGeneration;
    AppendedIsWithinIff(s, s', m, n, g);
    forall i | 0 <= i < |m.inputs|
      ensures m.inputs[i] in s.indexed
    {
    }
  }

  lemma AppendedIsWithinIff(s: Snapshot, s': Snapshot, m: Match, n: nat, g: int)
    requires TokensAreRight(s) && AreTokens(s.history, m.inputs) && NextGeneration(s.history, m.inputs) > 0
    requires s'.history == Appended(s.history, m.rule, m.inputs, n) && s'.maxGeneration == g
    requires WellFormed(s'.history) && GroundContents(s'.contents)
    requires forall t :: t in s'.contents <==> IsToken(s'.history, t)
    ensures TokensAreRight(s') <==>
            && (forall e :: 0 <= e < |s.history.events| ==> s.history.events[e].generation <= g)
            && NextGeneration(s.history, m.inputs) <= g
  {
    AppendedIsLayered(s.history, m.rule, m.inputs, n);
    hide WellFormed, Layered, GroundContents, NextGeneration, Appended;
    OneMoreWithin(s.history.events, s'.history.events, g);
  }

  lemma OneMoreWithin(events: seq<Event>, events': seq<Event>, g: int)
    requires |events'| == |events| + 1 && events <= events' && events'[|events|].generation > 0
    requires forall e :: 0 <= e < |events| ==> events[e].generation >= 0
    ensures (forall e :: 0 <= e < |events'| ==> 0 <= events'[e].generation <= g) <==>
            (forall e :: 0 <= e < |events| ==> events[e].generation <= g) && events'[|events|].generation <= g
  {
    assert forall e :: 0 <= e < |events| ==> events'[e] == events[e];
  }

  // A token that may be consumed but is never looked at.
  ghost predicate IsForgotten(s: Snapshot, t: TokenId)
    requires WellFormed(s.history)
  {
    Eligible(s, t) && t !in s.indexed && t !in s.unindexed
  }

  // Once the limit is raised again, what the event created is looked at unless it lies between the two limits.
  lemma CreatedAreForgottenIff(s: Snapshot, s': Snapshot, raised: Snapshot, m: Match, n: nat, g: int, t: TokenId)
    requires CanHappen(s, m) && AreTokens(s.history, m.inputs) && g < s.maxGeneration
    requires IsEvent(s.(maxGeneration := g), s', m, n) && IsNewToken(s, s', t)
    requires g < raised.maxGeneration && AddsLastGeneration(s', raised, raised.maxGeneration)
    ensures IsForgotten(raised, t) <==> g < NextGeneration(s.history, m.inputs) < raised.maxGeneration
  {
    hide Appended, QueueIsSound;
    PendingInputs(s, m);
    CreatedIsCounted(s, s'.(maxGeneration := s.maxGeneration, unindexed := {}), m, n, t);
    assert t in s.indexed ==> Eligible(s, t);
  }

  // The created token in the history with the event.
  lemma CreatedIsCounted(s: Snapshot, s': Snapshot, m: Match, n: nat, t: TokenId)
    requires TokensAreRight(s) && AreTokens(s.history, m.inputs) && Distinct(m.inputs)
    requires s'.history == Appended(s.history, m.rule, m.inputs, n) && IsNewToken(s, s', t)
    ensures WellFormed(s'.history)
    ensures TokenGeneration(s'.history, t) == NextGeneration(s.history, m.inputs)
    ensures DestroyerCount(s'.history.events, t) == 0
  {
    AppendedCounts(s.history, m.rule, m.inputs, n);
    AppendedGenerations(s.history, m.rule, m.inputs, n);
  }

  // ----- lowering and raising without an event in between

  // The tokens that are looked at again after the limit was lowered to g and raised.
  ghost function Requeued(s: Snapshot, g: int): set<TokenId>
    requires WellFormed(s.history)
  {
    set t | t in s.contents && IsToken(s.history, t) && TokenGeneration(s.history, t) == g
  }

  // All tokens that are looked at then, and all among which matches are looked for.
  ghost function News(s: Snapshot, g: int): set<TokenId>
    requires WellFormed(s.history)
  {
    s.unindexed + Requeued(s, g)
  }

  ghost function LargerSpace(s: Snapshot, g: int): MatchSpace
    requires WellFormed(s.history)
  {
    s.Space(s.indexed + News(s, g))
  }

  // The limit is lowered to g, raised to anything above that, and matches are looked for.
  ghost predicate LowersAndRaises(s: Snapshot, s': Snapshot, g: int, spec: OrderingSpec, deduplicates: bool) {
    && g < s.maxGeneration && g < s'.maxGeneration
    && exists raised ::
         && AddsLastGeneration(s.(maxGeneration := g), raised, s'.maxGeneration)
         && IsIndexed(raised, s', spec, deduplicates)
  }

  ghost predicate WouldFind(s: Snapshot, g: int, m: Match)
    requires WellFormed(s.history)
  {
    m in s.leftover || (LargerSpace(s, g).Allows(m) && TouchesSet(m.inputs, News(s, g)))
  }

  ghost predicate WouldFindAll(s: Snapshot, g: int, found: set<Match>)
    requires WellFormed(s.history)
  {
    forall m :: m in found <==> WouldFind(s, g, m)
  }

  // What the search makes pending, as far as it was not: all it finds, or what deduplication leaves of that.
  ghost predicate WouldAdd(s: Snapshot, g: int, spec: OrderingSpec, deduplicates: bool, added: set<Match>)
    requires WellFormed(s.history)
  {
    if deduplicates then
      exists found ::
        && WouldFindAll(s, g, found)
        && IsDeduplicated(Copies(spec, LargerSpace(s, g), found), found, added)
    else
      WouldFindAll(s, g, added)
  }

  // The earlier state decides which matches these are.
  lemma AddedAreUnique(
    s: Snapshot, g: int, spec: OrderingSpec, deduplicates: bool, added: set<Match>, added': set<Match>)
    requires WellFormed(s.history)
    requires WouldAdd(s, g, spec, deduplicates, added) && WouldAdd(s, g, spec, deduplicates, added')
    ensures added == added'
  {
    hide WouldFind, Copies, IsDeduplicated;
    if deduplicates {
      var found :| WouldFindAll(s, g, found) &&
                   IsDeduplicated(Copies(spec, LargerSpace(s, g), found), found, added);
      var found' :| WouldFindAll(s, g, found') &&
                    IsDeduplicated(Copies(spec, LargerSpace(s, g), found'), found', added');
      assert found == found';
      forall m
        ensures m in added <==> m in added'
      {
        KeptIsUnique(spec, LargerSpace(s, g), found, added, added', m);
        KeptIsUnique(spec, LargerSpace(s, g), found, added', added, m);
      }
    }
  }

  // The state after the search, and that what it added is what it had to add.
  ghost predicate IsSearchedAgain(s: Snapshot, s': Snapshot, g: int, added: set<Match>)
    requires WellFormed(s.history)
  {
    && g < s.maxGeneration && g < s'.maxGeneration
    && s' == s.(maxGeneration := s'.maxGeneration, indexed := s.indexed + News(s, g), unindexed := {},
                queue := s.queue + added, leftover := s'.leftover)
    && s'.leftover <= s.leftover && s'.leftover <= s'.queue
  }

  lemma LoweredAndRaised(s: Snapshot, s': Snapshot, g: int, spec: OrderingSpec, deduplicates: bool)
    returns (added: set<Match>)
    requires Invariant(s) && LowersAndRaises(s, s', g, spec, deduplicates)
    ensures WouldAdd(s, g, spec, deduplicates, added) && IsSearchedAgain(s, s', g, added)
  {
    var raised :| AddsLastGeneration(s.(maxGeneration := g), raised, s'.maxGeneration) &&
                  IsIndexed(raised, s', spec, deduplicates);
    RaisedAgain(s, raised, g);
    if deduplicates {
      var found, kept :| AddsDeduplicated(raised, s', spec, found, kept);
      assert WouldFindAll(s, g, found);
      added := kept;
    } else {
      added := set m | m in s'.queue && WouldFind(s, g, m);
      forall m | WouldFind(s, g, m)
        ensures m in s'.queue
      {
        if m in s.leftover {
          assert IsLeftBehind(s, m);
          LeftBehindIsFound(s, g, m);
        }
        assert m in s.queue || IsNewMatch(raised, s', m);
      }
      forall m | m in s'.queue
        ensures m in s.queue || WouldFind(s, g, m)
      {
        assert m !in s.queue && m !in s.leftover ==> IsNewMatch(raised, s', m);
      }
    }
  }

  // What an interrupted search left behind is pending or found again.
  lemma LeftBehindIsFound(s: Snapshot, g: int, m: Match)
    requires WellFormed(s.history) && IsLeftBehind(s, m)
    ensures LargerSpace(s, g).Allows(m)
    ensures m in s.queue || TouchesSet(m.inputs, News(s, g))
  {
    TouchesMore(m.inputs, s.unindexed, News(s, g));
  }

  lemma RaisedAgain(s: Snapshot, raised: Snapshot, g: int)
    requires TokensAreRight(s) && g < s.maxGeneration && g < raised.maxGeneration
    requires AddsLastGeneration(s.(maxGeneration := g), raised, raised.maxGeneration)
    ensures raised == s.(maxGeneration := raised.maxGeneration, unindexed := News(s, g))
  {
    SameElements(raised.unindexed, News(s, g));
  }

  // ----- exactly when that does no harm

  // None of the tokens that are looked at again was consumed as often as it may be.
  ghost predicate NoneIsUsedUp(s: Snapshot, g: int)
    requires WellFormed(s.history)
  {
    forall t :: t in Requeued(s, g) ==> BelowLimit(s.limit, DestroyerCount(s.history.events, t))
  }

  // No token of the last generation is passed over by the new limit.
  ghost predicate NoneIsPassedOver(s: Snapshot, g: int)
    requires WellFormed(s.history)
  {
    s.maxGeneration < g ==> forall t :: IsToken(s.history, t) ==> TokenGeneration(s.history, t) != s.maxGeneration
  }

  ghost predicate NoneHappened(s: Snapshot, added: set<Match>) {
    forall m :: m in added ==> !Instantiated(s.history, m)
  }

  // The invariants survive iff the final limit was not exceeded before, no token is looked at again that is
  // used up, none is missed, and no event is made pending again.
  lemma LoweredAndRaisedKeepsInvariantIff(
    s: Snapshot, s': Snapshot, g: int, spec: OrderingSpec, deduplicates: bool, added: set<Match>)
    requires Invariant(s) && LowersAndRaises(s, s', g, spec, deduplicates)
    requires WouldAdd(s, g, spec, deduplicates, added)
    ensures Invariant(s') <==>
            && CanChangeLimit(s, s'.maxGeneration) && NoneIsPassedOver(s, s'.maxGeneration)
            && NoneIsUsedUp(s, g) && NoneHappened(s, added)
  {
    hide WouldAdd, LowersAndRaises;
    var added' := LoweredAndRaised(s, s', g, spec, deduplicates);
    AddedAreUnique(s, g, spec, deduplicates, added, added');
    AddedAreAllowed(s, g, spec, deduplicates, added);
    if Invariant(s') {
      HarmIsNoticed(s, s', g, added);
    }
    if CanChangeLimit(s, s'.maxGeneration) && NoneIsPassedOver(s, s'.maxGeneration) && NoneIsUsedUp(s, g) {
      RestoredIndexIsRight(s, s', g, added);
      if NoneHappened(s, added) {
        RestoredQueueIsSound(s, s', g, added);
      }
    }
  }

  lemma AddedAreAllowed(s: Snapshot, g: int, spec: OrderingSpec, deduplicates: bool, added: set<Match>)
    requires Invariant(s) && WouldAdd(s, g, spec, deduplicates, added)
    ensures forall m :: m in added ==> LargerSpace(s, g).Allows(m)
  {
    forall m | m in added
      ensures LargerSpace(s, g).Allows(m)
    {
      assert WouldFind(s, g, m);
      if m in s.leftover {
        assert IsLeftBehind(s, m);
        LeftBehindIsFound(s, g, m);
      }
    }
  }

  lemma HarmIsNoticed(s: Snapshot, s': Snapshot, g: int, added: set<Match>)
    requires Invariant(s) && Invariant(s') && IsSearchedAgain(s, s', g, added)
    ensures CanChangeLimit(s, s'.maxGeneration) && NoneIsPassedOver(s, s'.maxGeneration)
    ensures NoneIsUsedUp(s, g) && NoneHappened(s, added)
  {
    forall m | m in added
      ensures !Instantiated(s.history, m)
    {
      assert IsPending(s', m);
    }
    forall t | t in s'.indexed
      ensures Eligible(s', t)
    {
    }
    PassedOverIsNoticed(s, s', g, added);
  }

  lemma PassedOverIsNoticed(s: Snapshot, s': Snapshot, g: int, added: set<Match>)
    requires Invariant(s) && Invariant(s') && IsSearchedAgain(s, s', g, added)
    ensures NoneIsPassedOver(s, s'.maxGeneration)
  {
    hide QueueIsSound, NoEventTwice;
    forall t | IsToken(s.history, t) && TokenGeneration(s.history, t) == s.maxGeneration
      ensures !(s.maxGeneration < s'.maxGeneration)
    {
      ConsumedTokensAreEarlier(s, t);
      assert t !in Requeued(s, g);
      assert t in s.indexed || t in s.unindexed ==> Eligible(s, t);
      assert Eligible(s', t) ==> t in s'.indexed;
    }
  }

  lemma RestoredIndexIsRight(s: Snapshot, s': Snapshot, g: int, added: set<Match>)
    requires Invariant(s) && IsSearchedAgain(s, s', g, added)
    requires CanChangeLimit(s, s'.maxGeneration) && NoneIsPassedOver(s, s'.maxGeneration) && NoneIsUsedUp(s, g)
    ensures TokensAreRight(s') && IndexIsRight(s')
  {
    forall t | t in s'.indexed
      ensures Eligible(s', t)
    {
      assert t in s.indexed || t in s.unindexed ==> Eligible(s, t);
    }
    forall t | Eligible(s', t)
      ensures t in s'.indexed
    {
      assert TokenGeneration(s.history, t) <= s.maxGeneration;
      assert TokenGeneration(s.history, t) < s.maxGeneration ==> Eligible(s, t);
    }
  }

  lemma RestoredQueueIsSound(s: Snapshot, s': Snapshot, g: int, added: set<Match>)
    requires Invariant(s) && IsSearchedAgain(s, s', g, added) && NoneHappened(s, added)
    requires forall m :: m in added ==> LargerSpace(s, g).Allows(m)
    ensures QueueIsSound(s')
  {
    forall m | m in s'.queue
      ensures IsPending(s', m)
    {
      if m in s.queue {
        assert IsPending(s, m);
      }
    }
    forall m | m in s'.leftover
      ensures IsLeftBehind(s', m)
    {
      assert IsLeftBehind(s, m);
    }
  }

  // ----- events that are pending again

  // Some event could be made again of tokens that are looked at again and tokens that may still be consumed.
  ghost predicate CanRepeatEvent(s: Snapshot, g: int)
    requires WellFormed(s.history)
  {
    exists m ::
      Instantiated(s.history, m) && LargerSpace(s, g).Allows(m) && TouchesSet(m.inputs, Requeued(s, g))
  }

  // Events are pending again iff some are added. Without deduplication that is so iff one can be repeated at all.
  lemma LoweredLimitRepeatsEvents(
    s: Snapshot, s': Snapshot, g: int, spec: OrderingSpec, deduplicates: bool, added: set<Match>)
    requires Invariant(s) && LowersAndRaises(s, s', g, spec, deduplicates)
    requires WouldAdd(s, g, spec, deduplicates, added)
    ensures (exists m :: m in s'.queue && Instantiated(s'.history, m)) <==> !NoneHappened(s, added)
    ensures !deduplicates ==> (NoneHappened(s, added) <==> !CanRepeatEvent(s, g))
  {
    hide LowersAndRaises;
    var added' := LoweredAndRaised(s, s', g, spec, deduplicates);
    AddedAreUnique(s, g, spec, deduplicates, added, added');
    if m :| m in s'.queue && Instantiated(s'.history, m) {
      assert m in s.queue ==> IsPending(s, m);
    }
    if !deduplicates {
      forall m | Instantiated(s.history, m)
        ensures m in added <==> LargerSpace(s, g).Allows(m) && TouchesSet(m.inputs, Requeued(s, g))
      {
        EventIsFoundIff(s, g, m);
      }
    }
  }

  // New tokens do not take part in events, and what was left behind did not become one.
  lemma EventIsFoundIff(s: Snapshot, g: int, m: Match)
    requires Invariant(s) && Instantiated(s.history, m)
    ensures WouldFind(s, g, m) <==> LargerSpace(s, g).Allows(m) && TouchesSet(m.inputs, Requeued(s, g))
  {
    assert m in s.leftover ==> IsPending(s, m);
    if TouchesSet(m.inputs, s.unindexed) {
      UnusedTokenIsNotInstantiated(s.history, m, s.unindexed);
    }
    TouchesMore(m.inputs, Requeued(s, g), News(s, g));
    if TouchesSet(m.inputs, News(s, g)) {
      var i :| 0 <= i < |m.inputs| && m.inputs[i] in News(s, g);
      assert m.inputs[i] !in s.unindexed;
    }
  }

  // ----- the promises about the queue

  // Nothing that is added repeats what is pending or was made, and nothing of that repeats what is added.
  ghost predicate NoneAddedRepeats(s: Snapshot, g: int, spec: OrderingSpec, added: set<Match>)
    requires WellFormed(s.history)
  {
    forall a, b :: a in added && IsMade(s, b) ==>
      !Repeats(spec, LargerSpace(s, g), a, b) && !Repeats(spec, LargerSpace(s, g), b, a)
  }

  // No match is ever missed. With deduplication, matches that repeat others are pending unless none is added.
  lemma LoweredAndRaisedKeepsQueueRightIff(
    s: Snapshot, s': Snapshot, g: int, spec: OrderingSpec, deduplicates: bool, added: set<Match>)
    requires Invariant(s) && LowersAndRaises(s, s', g, spec, deduplicates)
    requires WouldAdd(s, g, spec, deduplicates, added) && QueueIsRight(s, spec, deduplicates)
    ensures WellFormed(s'.history)
    ensures QueueIsRight(s', spec, deduplicates) <==> deduplicates ==> NoneAddedRepeats(s, g, spec, added)
  {
    hide LowersAndRaises, Repeats, IsDeduplicatedThroughout;
    var added' := LoweredAndRaised(s, s', g, spec, deduplicates);
    AddedAreUnique(s, g, spec, deduplicates, added, added');
    if deduplicates {
      LoweredAndRaisedIsDeduplicatedIff(s, s', g, spec, added);
    } else {
      forall m | LargerSpace(s, g).Allows(m) && m !in added
        ensures s.Space(s.indexed).Allows(m) && !TouchesSet(m.inputs, s.unindexed)
      {
        UntouchedIsOld(s, g, m);
      }
    }
  }

  lemma UntouchedIsOld(s: Snapshot, g: int, m: Match)
    requires WellFormed(s.history) && LargerSpace(s, g).Allows(m) && !TouchesSet(m.inputs, News(s, g))
    ensures s.Space(s.indexed).Allows(m) && !TouchesSet(m.inputs, s.unindexed)
  {
    TouchesMore(m.inputs, s.unindexed, News(s, g));
    forall i | 0 <= i < |m.inputs|
      ensures m.inputs[i] in s.indexed
    {
      assert m.inputs[i] in s.indexed + News(s, g);
    }
  }

  lemma LoweredAndRaisedIsDeduplicatedIff(s: Snapshot, s': Snapshot, g: int, spec: OrderingSpec, added: set<Match>)
    requires Invariant(s) && IsSearchedAgain(s, s', g, added) && WouldAdd(s, g, spec, true, added)
    requires IsDeduplicatedThroughout(s, spec)
    ensures IsDeduplicatedThroughout(s', spec) <==> NoneAddedRepeats(s, g, spec, added)
  {
    assert WellFormed(s.history);
    hide Repeats, Invariant;
    AddedAreAllowed(s, g, spec, true, added);
    if IsDeduplicatedThroughout(s', spec) {
      forall a, b | a in added && IsMade(s, b)
        ensures !Repeats(spec, LargerSpace(s, g), a, b) && !Repeats(spec, LargerSpace(s, g), b, a)
      {
        assert IsMade(s', a) && IsMade(s', b);
      }
    }
    if NoneAddedRepeats(s, g, spec, added) {
      forall a, b | IsMade(s', a) && IsMade(s', b)
        ensures !Repeats(spec, s'.Space(s'.indexed), a, b)
      {
        RepetitionIgnoresPool(spec, s, s', a, b);
        AddedDoNotRepeat(s, g, spec, added, a, b);
        assert IsMade(s, a) || a in added;
        assert IsMade(s, b) || b in added;
      }
    }
    forall m | s'.Space(s'.indexed).Allows(m)
      ensures IsMade(s', m) || RepeatsSome(s', spec, m)
    {
      MissingIsRepetition(s, s', g, spec, added, m);
    }
  }

  lemma AddedDoNotRepeat(s: Snapshot, g: int, spec: OrderingSpec, added: set<Match>, a: Match, b: Match)
    requires WellFormed(s.history) && WouldAdd(s, g, spec, true, added)
    requires forall m :: m in added ==> LargerSpace(s, g).Allows(m)
    ensures a in added && b in added ==> !Repeats(spec, LargerSpace(s, g), a, b)
  {
    hide Repeats;
    if a in added && b in added {
      var found :| WouldFindAll(s, g, found) && IsDeduplicated(Copies(spec, LargerSpace(s, g), found), found, added);
      KeptDoNotRepeat(spec, LargerSpace(s, g), found, added, a, b);
    }
  }

  lemma MissingIsRepetition(
    s: Snapshot, s': Snapshot, g: int, spec: OrderingSpec, added: set<Match>, m: Match)
    requires WellFormed(s.history) && IsSearchedAgain(s, s', g, added) && WouldAdd(s, g, spec, true, added)
    requires OnlyRepetitionsAreMissing(s, spec) && s'.Space(s'.indexed).Allows(m)
    ensures IsMade(s', m) || RepeatsSome(s', spec, m)
  {
    hide Repeats;
    var found :| WouldFindAll(s, g, found) && IsDeduplicated(Copies(spec, LargerSpace(s, g), found), found, added);
    if TouchesSet(m.inputs, News(s, g)) {
      assert WouldFind(s, g, m) && m in found;
      if m !in added {
        var k :| k in added && (m, k) in Copies(spec, LargerSpace(s, g), found);
        assert IsMade(s', k) && Repeats(spec, s'.Space(s'.indexed), m, k);
      }
    } else {
      UntouchedIsOld(s, g, m);
      if !IsMade(s, m) {
        RepetitionStays(s, s', spec, m);
      }
    }
  }

  // ----- the same, without the search

  // A match of tokens that were looked at before, some of which are looked at again.
  ghost predicate ComesBack(s: Snapshot, g: int, m: Match)
    requires WellFormed(s.history)
  {
    LargerSpace(s, g).Allows(m) && TouchesSet(m.inputs, Requeued(s, g)) && !TouchesSet(m.inputs, s.unindexed)
  }

  // It is pending, or repeats a pending match that can be found again as well.
  ghost predicate IsCovered(s: Snapshot, g: int, spec: OrderingSpec, m: Match)
    requires WellFormed(s.history)
  {
    m in s.queue || exists k :: k in s.queue && LargerSpace(s, g).Allows(k) && Repeats(spec, LargerSpace(s, g), m, k)
  }

  ghost predicate AllAreCovered(s: Snapshot, g: int, spec: OrderingSpec)
    requires WellFormed(s.history)
  {
    forall m :: ComesBack(s, g, m) ==> IsCovered(s, g, spec, m)
  }

  ghost predicate HarmlessLowering(
    s: Snapshot, g: int, finalGeneration: int, spec: OrderingSpec, deduplicates: bool)
    requires WellFormed(s.history)
  {
    && CanChangeLimit(s, finalGeneration) && NoneIsPassedOver(s, finalGeneration) && NoneIsUsedUp(s, g)
    && !CanRepeatEvent(s, g) && (deduplicates ==> AllAreCovered(s, g, spec))
  }

  // Lowering the limit to g, raising it and searching does no harm at all iff the state before says so: the final
  // limit was not exceeded and passes over no token, no token that is used up is looked at again, no event can be
  // repeated, and, with deduplication, what is found again is pending or repeats what is.
  lemma LoweredLimitIsHarmlessIff(s: Snapshot, s': Snapshot, g: int, spec: OrderingSpec, deduplicates: bool)
    requires Invariant(s) && QueueIsRight(s, spec, deduplicates) && LowersAndRaises(s, s', g, spec, deduplicates)
    ensures WellFormed(s'.history)
    ensures Invariant(s') && QueueIsRight(s', spec, deduplicates) <==>
            HarmlessLowering(s, g, s'.maxGeneration, spec, deduplicates)
  {
    hide WouldAdd, LowersAndRaises, IsSearchedAgain, QueueIsRight, Invariant, NoneIsUsedUp, AllAreCovered;
    hide NoneHappened, NoneAddedRepeats, CanRepeatEvent, CanChangeLimit, NoneIsPassedOver;
    var added := LoweredAndRaised(s, s', g, spec, deduplicates);
    LoweredAndRaisedKeepsInvariantIff(s, s', g, spec, deduplicates, added);
    LoweredAndRaisedKeepsQueueRightIff(s, s', g, spec, deduplicates, added);
    LoweredLimitRepeatsEvents(s, s', g, spec, deduplicates, added);
    if deduplicates {
      RightQueueIsDeduplicated(s, spec);
      if NoneIsUsedUp(s, g) && NoneHappened(s, added) && NoneAddedRepeats(s, g, spec, added) {
        HarmlessIsCovered(s, g, spec, added);
      }
      if NoneIsUsedUp(s, g) && !CanRepeatEvent(s, g) && AllAreCovered(s, g, spec) {
        CoveredIsHarmless(s, g, spec, added);
      }
    }
  }

  lemma RightQueueIsDeduplicated(s: Snapshot, spec: OrderingSpec)
    requires WellFormed(s.history) && QueueIsRight(s, spec, true)
    ensures IsDeduplicatedThroughout(s, spec)
  {
  }

  // What was found and is not added repeats something that is.
  lemma FoundIsAddedOrRepeats(s: Snapshot, g: int, spec: OrderingSpec, added: set<Match>, m: Match)
    returns (k: Match)
    requires Invariant(s) && WouldAdd(s, g, spec, true, added) && WouldFind(s, g, m)
    ensures k in added && WouldFind(s, g, k) && LargerSpace(s, g).Allows(k)
    ensures k == m || Repeats(spec, LargerSpace(s, g), m, k)
  {
    hide Repeats;
    var found :| WouldFindAll(s, g, found) && IsDeduplicated(Copies(spec, LargerSpace(s, g), found), found, added);
    AddedAreAllowed(s, g, spec, true, added);
    if m in added {
      k := m;
    } else {
      k :| k in added && (m, k) in Copies(spec, LargerSpace(s, g), found);
    }
  }

  // Tokens that are looked at again and are not used up were looked at before.
  lemma BackIsOld(s: Snapshot, g: int, m: Match)
    requires Invariant(s) && NoneIsUsedUp(s, g) && g < s.maxGeneration && ComesBack(s, g, m)
    ensures s.Space(s.indexed).Allows(m)
  {
    forall i | 0 <= i < |m.inputs|
      ensures m.inputs[i] in s.indexed
    {
      var t := m.inputs[i];
      assert t in s.indexed + News(s, g);
      assert t in Requeued(s, g) ==> Eligible(s, t);
    }
  }

  // Of such matches, only those are added that are pending anyway.
  lemma HarmlessAddedIsPending(s: Snapshot, g: int, spec: OrderingSpec, added: set<Match>, m: Match)
    requires Invariant(s) && NoneIsUsedUp(s, g) && g < s.maxGeneration && ComesBack(s, g, m)
    requires OnlyRepetitionsAreMissing(s, spec) && NoneAddedRepeats(s, g, spec, added) && NoneHappened(s, added)
    ensures m in added ==> m in s.queue
  {
    hide Repeats, QueueIsSound, IndexIsRight;
    BackIsOld(s, g, m);
    if m in added && !IsMade(s, m) {
      var k :| IsMade(s, k) && Repeats(spec, s.Space(s.indexed), m, k);
      SamePoolSameRepetition(s, g, spec, m, k);
    }
  }

  lemma SamePoolSameRepetition(s: Snapshot, g: int, spec: OrderingSpec, a: Match, b: Match)
    requires WellFormed(s.history)
    ensures Repeats(spec, LargerSpace(s, g), a, b) <==> Repeats(spec, s.Space(s.indexed), a, b)
  {
  }

  // A match of the same inputs comes back as well.
  lemma RepeatedComesBack(s: Snapshot, g: int, spec: OrderingSpec, m: Match, k: Match)
    requires WellFormed(s.history) && ComesBack(s, g, m) && LargerSpace(s, g).Allows(k)
    requires Repeats(spec, LargerSpace(s, g), m, k)
    ensures ComesBack(s, g, k)
  {
    SameInputsTouchTheSame(m, k, Requeued(s, g));
    if TouchesSet(k.inputs, s.unindexed) {
      SameInputsTouchTheSame(k, m, s.unindexed);
    }
  }

  lemma HarmlessIsCovered(s: Snapshot, g: int, spec: OrderingSpec, added: set<Match>)
    requires Invariant(s) && NoneIsUsedUp(s, g) && g < s.maxGeneration && IsDeduplicatedThroughout(s, spec)
    requires WouldAdd(s, g, spec, true, added) && NoneAddedRepeats(s, g, spec, added) && NoneHappened(s, added)
    ensures !CanRepeatEvent(s, g) && AllAreCovered(s, g, spec)
  {
    forall m | Instantiated(s.history, m) && LargerSpace(s, g).Allows(m)
      ensures !TouchesSet(m.inputs, Requeued(s, g))
    {
      if TouchesSet(m.inputs, Requeued(s, g)) {
        EventIsFoundIff(s, g, m);
        var k := FoundIsAddedOrRepeats(s, g, spec, added, m);
      }
    }
    forall m | ComesBack(s, g, m)
      ensures IsCovered(s, g, spec, m)
    {
      TouchesMore(m.inputs, Requeued(s, g), News(s, g));
      var k := FoundIsAddedOrRepeats(s, g, spec, added, m);
      if k != m {
        RepeatedComesBack(s, g, spec, m, k);
      }
      HarmlessAddedIsPending(s, g, spec, added, k);
    }
  }

  // If everything is covered, what is added of the matches that come back is pending: a pending match that it
  // repeats would be added in its place, or something before that.
  lemma {:induction false} CoveredAddedIsPending(
    s: Snapshot, g: int, spec: OrderingSpec, found: set<Match>, added: set<Match>, m: Match)
    requires Invariant(s) && AllAreCovered(s, g, spec) && NothingRepeats(s, spec)
    requires WouldFindAll(s, g, found) && IsDeduplicated(Copies(spec, LargerSpace(s, g), found), found, added)
    requires ComesBack(s, g, m) && m in added
    ensures m in s.queue
    decreases |set x | x in found && Precedes(spec, x, m)|
  {
    hide Precedes, LooksTheSame;
    if m !in s.queue {
      var k :| k in s.queue && LargerSpace(s, g).Allows(k) && Repeats(spec, LargerSpace(s, g), m, k);
      RepeatedComesBack(s, g, spec, m, k);
      TouchesMore(k.inputs, Requeued(s, g), News(s, g));
      assert WouldFind(s, g, k) && k in found && (m, k) in Copies(spec, LargerSpace(s, g), found);
      var l :| l in added && (k, l) in Copies(spec, LargerSpace(s, g), found);
      RepeatedComesBack(s, g, spec, k, l);
      FewerPrecede(spec, found, m, k);
      FewerPrecede(spec, found, k, l);
      CoveredAddedIsPending(s, g, spec, found, added, l);
      MadeDoNotRepeat(s, g, spec, k, l);
    }
  }

  lemma MadeDoNotRepeat(s: Snapshot, g: int, spec: OrderingSpec, a: Match, b: Match)
    requires WellFormed(s.history) && NothingRepeats(s, spec) && IsMade(s, a) && IsMade(s, b)
    ensures !Repeats(spec, LargerSpace(s, g), a, b)
  {
    SamePoolSameRepetition(s, g, spec, a, b);
  }

  lemma CoveredIsHarmless(s: Snapshot, g: int, spec: OrderingSpec, added: set<Match>)
    requires Invariant(s) && g < s.maxGeneration && IsDeduplicatedThroughout(s, spec)
    requires WouldAdd(s, g, spec, true, added) && !CanRepeatEvent(s, g) && AllAreCovered(s, g, spec)
    ensures NoneHappened(s, added) && NoneAddedRepeats(s, g, spec, added)
  {
    var found :| WouldFindAll(s, g, found) && IsDeduplicated(Copies(spec, LargerSpace(s, g), found), found, added);
    AddedAreAllowed(s, g, spec, true, added);
    forall m | m in added
      ensures !Instantiated(s.history, m)
    {
      if Instantiated(s.history, m) {
        EventIsFoundIff(s, g, m);
      }
    }
    forall a, b | a in added && IsMade(s, b)
      ensures !Repeats(spec, LargerSpace(s, g), a, b) && !Repeats(spec, LargerSpace(s, g), b, a)
    {
      AddedIsNewOrPending(s, g, spec, found, added, a);
      NewDoesNotRepeat(s, g, spec, a, b);
      NewDoesNotRepeat(s, g, spec, b, a);
    }
  }

  lemma AddedIsNewOrPending(
    s: Snapshot, g: int, spec: OrderingSpec, found: set<Match>, added: set<Match>, m: Match)
    requires Invariant(s) && AllAreCovered(s, g, spec) && NothingRepeats(s, spec)
    requires WouldFindAll(s, g, found) && IsDeduplicated(Copies(spec, LargerSpace(s, g), found), found, added)
    requires m in added
    ensures m in s.queue || TouchesSet(m.inputs, s.unindexed)
  {
    assert WouldFind(s, g, m);
    if m in s.leftover {
      assert IsLeftBehind(s, m);
    } else if !TouchesSet(m.inputs, s.unindexed) {
      var i :| 0 <= i < |m.inputs| && m.inputs[i] in News(s, g);
      assert m.inputs[i] in Requeued(s, g);
      CoveredAddedIsPending(s, g, spec, found, added, m);
    }
  }

  // What is pending or was made has no inputs in common with a match of new tokens.
  lemma NewDoesNotRepeat(s: Snapshot, g: int, spec: OrderingSpec, a: Match, b: Match)
    requires Invariant(s) && NothingRepeats(s, spec) && QueueIsOld(s)
    requires IsMade(s, a) || TouchesSet(a.inputs, s.unindexed)
    requires IsMade(s, b) || TouchesSet(b.inputs, s.unindexed)
    requires IsMade(s, a) || IsMade(s, b)
    ensures !Repeats(spec, LargerSpace(s, g), a, b)
  {
    hide LooksTheSame;
    SamePoolSameRepetition(s, g, spec, a, b);
    if Repeats(spec, LargerSpace(s, g), a, b) {
      if TouchesSet(a.inputs, s.unindexed) {
        SameInputsTouchTheSame(a, b, s.unindexed);
      } else if TouchesSet(b.inputs, s.unindexed) {
        SameInputsTouchTheSame(b, a, s.unindexed);
      }
      MadeIsOld(s, a);
      MadeIsOld(s, b);
    }
  }

  lemma MadeIsOld(s: Snapshot, m: Match)
    requires Invariant(s) && QueueIsOld(s)
    ensures IsMade(s, m) ==> !TouchesSet(m.inputs, s.unindexed)
  {
    if TouchesSet(m.inputs, s.unindexed) {
      UnusedTokenIsNotInstantiated(s.history, m, s.unindexed);
    }
  }
}
