/**
  Going on after a parallel search was interrupted: what goes wrong, and exactly when nothing does.

  The literal runs are about one token and one rule that consumes it. In one of them an interrupted search
  leaves a match behind. In the others the generation limit is lowered although something is beyond it: an
  event happens again, or beyond the limit, or what it creates is never looked at.
 */
module UnexpectedCalls {
  import opened Types
  import opened CausalHistory
  import opened Matching
  import opened TokenEventGraph
  import opened Evolution
  import opened Runs
  import opened Steps
  import opened LoweredLimits

  // ----- going on with stale matches

  // A search that collects its matches adds those that an earlier one left behind, whatever they are.
  ghost predicate CollectsStale(s: Snapshot, s': Snapshot) {
    && s' == s.(indexed := s.indexed + s.unindexed, unindexed := {}, queue := s'.queue, leftover := {})
    && forall m :: m in s'.queue <==> m in s.queue || m in s.leftover || IsNewMatch(s, s', m)
  }

  // They were matches when they were found.
  ghost predicate WereFound(s: Snapshot, stale: set<Match>) {
    forall m :: m in stale ==> s.Space(s.indexed).Allows(m)
  }

  // They still consist of tokens that may be consumed, and none of them became an event.
  ghost predicate AreHarmless(s: Snapshot, stale: set<Match>) {
    forall m :: m in stale ==> FromPool(s.indexed, m.inputs) && !Instantiated(s.history, m)
  }

  // The search keeps the invariants iff the stale matches are harmless. It misses nothing in any case.
  lemma StaleMatchesAreHarmlessIff(earlier: Snapshot, s: Snapshot, s': Snapshot)
    requires Invariant(s.(leftover := {})) && CollectsStale(s, s')
    requires Invariant(earlier) && Evolves(earlier, s.(leftover := {})) && WereFound(earlier, s.leftover)
    ensures Invariant(s') <==> AreHarmless(s', s.leftover)
    ensures QueueIsComplete(s.(leftover := {})) ==> QueueIsComplete(s')
  {
    var clean := s.(leftover := {});
    if Invariant(s') {
      forall m | m in s.leftover
        ensures FromPool(s'.indexed, m.inputs) && !Instantiated(s.history, m)
      {
        assert IsPending(s', m);
      }
    }
    if AreHarmless(s', s.leftover) {
      HarmlessCollection(earlier, s, s');
    }
    forall m
      ensures IsNewMatch(clean, s', m) <==> IsNewMatch(s, s', m)
    {
    }
    if QueueIsComplete(clean) {
      IndexingKeepsQueueComplete(clean, s');
    }
  }

  lemma HarmlessCollection(earlier: Snapshot, s: Snapshot, s': Snapshot)
    requires Invariant(s.(leftover := {})) && CollectsStale(s, s') && AreHarmless(s', s.leftover)
    requires Invariant(earlier) && Evolves(earlier, s.(leftover := {})) && WereFound(earlier, s.leftover)
    ensures Invariant(s')
  {
    hide StaysFrozen;
    var clean := s.(leftover := {});
    forall t
      ensures Eligible(s', t) <==> Eligible(clean, t)
    {
    }
    forall m | m in s'.queue
      ensures IsPending(s', m)
    {
      if m in s.queue {
        assert IsPending(clean, m);
      } else if m in s.leftover {
        StaleIsPending(earlier, s, s', m);
      } else {
        UnusedTokenIsNotInstantiated(s.history, m, s.unindexed);
      }
    }
  }

  lemma StaleIsPending(earlier: Snapshot, s: Snapshot, s': Snapshot, m: Match)
    requires Invariant(s.(leftover := {})) && CollectsStale(s, s')
    requires Invariant(earlier) && Evolves(earlier, s.(leftover := {})) && earlier.Space(earlier.indexed).Allows(m)
    requires FromPool(s'.indexed, m.inputs) && !Instantiated(s.history, m)
    ensures IsPending(s', m)
  {
    hide StaysFrozen;
    forall t | t in earlier.indexed
      ensures IsToken(earlier.history, t)
    {
      assert Eligible(earlier, t);
    }
    OldMatchesAreStable(earlier, s.(leftover := {}), earlier.indexed, m);
    assert s.Space(earlier.indexed).Fits(m);
  }

  // ----- one token and one rule that consumes a token

  ghost function World(
    h: History, indexed: set<TokenId>, unindexed: set<TokenId>, queue: set<Match>, leftover: set<Match>): Snapshot
  {
    Snapshot([Rule([[-1]], [], SelectAll)], map[0 := [1]], h, false, 1, Some(1), indexed, unindexed, queue, leftover)
  }

  // The token was created, and consumed n times.
  ghost function Consumed(n: nat): (h: History)
    ensures WellFormed(h) && h.creators == [0]
  {
    if n == 0 then
      AppendedIsWellFormed(History([], []), INITIAL_CONDITION_RULE, [], 1);
      Appended(History([], []), INITIAL_CONDITION_RULE, [], 1)
    else
      AppendedIsWellFormed(Consumed(n - 1), 0, [0], 0);
      Appended(Consumed(n - 1), 0, [0], 0)
  }

  ghost function Only(): Match {
    Match(0, [0])
  }

  ghost predicate IsConsumed(h: History, n: nat) {
    && WellFormed(h) && h.creators == [0] && Layered(h)
    && TokenGeneration(h, 0) == 0 && DestroyerCount(h.events, 0) == n
    && |h.events| == n + 1 && h.events[0] == Event(INITIAL_CONDITION_RULE, [], [0], 0)
    && forall e :: 1 <= e <= n ==> h.events[e] == Event(0, [0], [], 1)
  }

  lemma NextOfFirst(h: History)
    requires WellFormed(h) && IsToken(h, 0) && TokenGeneration(h, 0) == 0
    ensures NextGeneration(h, [0]) == 1
  {
    assert [0][..0] == [];
    assert NextGeneration(h, []) == 0;
  }

  lemma ConsumedOnceMore(h: History, n: nat)
    requires IsConsumed(h, n)
    ensures IsConsumed(Appended(h, 0, [0], 0), n + 1)
  {
    hide WellFormed, DestroyerCount;
    var h' := Appended(h, 0, [0], 0);
    NextOfFirst(h);
    AppendedIsWellFormed(h, 0, [0], 0);
    AppendedIsLayered(h, 0, [0], 0);
    DestroyerCountOfAppended(h.events, Event(0, [0], [], 1), 0);
    assert IdsFrom(1, 0) == [] && h'.creators == [0];
    assert h'.events == h.events + [Event(0, [0], [], 1)];
  }

  lemma CreatedIsRight()
    ensures IsConsumed(Consumed(0), 0)
  {
    hide Past, Layered;
    var none := History([], []);
    AppendedIsLayered(none, INITIAL_CONDITION_RULE, [], 1);
    assert IdsFrom(0, 1) == [0] && NextGeneration(none, []) == 0;
    var created := Event(INITIAL_CONDITION_RULE, [], [0], 0);
    DestroyerCountOfAppended([], created, 0);
    assert Consumed(0).events == [] + [created];
  }

  lemma {:induction false} ConsumedIsRight(n: nat)
    ensures IsConsumed(Consumed(n), n)
  {
    if n == 0 {
      CreatedIsRight();
    } else {
      ConsumedIsRight(n - 1);
      ConsumedOnceMore(Consumed(n - 1), n - 1);
    }
  }

  lemma ConsumedAgain(n: nat)
    ensures AreTokens(Consumed(n), [0]) && Consumed(n + 1) == Appended(Consumed(n), 0, [0], 0)
  {
  }

  lemma OnlyIsAllowed(s: Snapshot)
    requires s.rules == [Rule([[-1]], [], SelectAll)] && s.contents == map[0 := [1]]
    ensures 0 in s.indexed ==> s.Space(s.indexed).Allows(Only())
    ensures forall m :: s.Space(s.indexed).Allows(m) ==> m == Only()
  {
    var full: Substitution := map[-1 := 1];
    assert RenameVector(full, [-1]) == [1];
    assert Explains(full, [[-1]], s.contents, [0]);
    forall m | s.Space(s.indexed).Allows(m)
      ensures m == Only()
    {
      assert m.inputs[0] in s.contents;
      assert m.inputs == [0];
    }
  }

  lemma WorldIsRight(
    h: History, n: nat, indexed: set<TokenId>, unindexed: set<TokenId>, queue: set<Match>, leftover: set<Match>)
    requires IsConsumed(h, n)
    ensures var s := World(h, indexed, unindexed, queue, leftover);
            && TokensAreRight(s) && AreTokens(h, [0]) && TokenGeneration(h, 0) == 0
            && (forall t :: Eligible(s, t) <==> t == 0 && n == 0)
            && (Instantiated(h, Only()) <==> n > 0)
            && (LimitIsKept(s) <==> n <= 1) && (NoEventTwice(s) <==> n <= 1)
  {
    hide Layered, DestroyerCount;
    if n > 1 {
      assert h.events[1] == h.events[2];
    }
    if n > 0 {
      assert h.events[1] == Event(0, [0], [], 1);
    }
  }

  // The world is as it should be while the token is unused, or once it was consumed and forgotten.
  lemma WorldIsInvariant(h: History, n: nat, indexed: set<TokenId>, unindexed: set<TokenId>, queue: set<Match>)
    requires IsConsumed(h, n) && n <= 1 && (queue == {} || queue == {Only()})
    requires n == 0 ==> 0 in indexed || 0 in unindexed
    requires forall t :: t in indexed || t in unindexed ==> t == 0 && n == 0
    requires queue != {} ==> 0 in indexed
    ensures Invariant(World(h, indexed, unindexed, queue, {}))
  {
    hide IsConsumed, TokensAreRight;
    var s := World(h, indexed, unindexed, queue, {});
    WorldIsRight(h, n, indexed, unindexed, queue, {});
    OnlyIsAllowed(s);
    WellFormedWorld(h, n);
    forall m | m in s.queue
      ensures IsPending(s, m)
    {
      assert m == Only() && s.Space(s.indexed).Allows(m);
      assert s.Space(s.indexed).Fits(m);
    }
  }

  lemma WellFormedWorld(h: History, n: nat)
    requires IsConsumed(h, n)
    ensures WellFormed(h) && DestroyerCount(h.events, 0) == n
  {
  }

  lemma WorldEvent(h: History)
    requires IsConsumed(h, 0) || IsConsumed(h, 1)
    ensures WellFormed(h) && AreTokens(h, [0])
    ensures var s, s' := World(h, {0}, {}, {Only()}, {}), World(Appended(h, 0, [0], 0), {}, {}, {}, {});
            TokensAreRight(s) && IsEvent(s, s', Only(), 0)
  {
    var n := if IsConsumed(h, 0) then 0 else 1;
    var h' := Appended(h, 0, [0], 0);
    ConsumedOnceMore(h, n);
    WorldIsRight(h, n, {0}, {}, {Only()}, {});
    WorldIsRight(h', n + 1, {}, {}, {}, {});
    WellFormedWorld(h', n + 1);
    WorldChanges(h, h', n);
  }

  lemma WorldChanges(h: History, h': History, n: nat)
    requires IsConsumed(h, n) && IsConsumed(h', n + 1) && h' == Appended(h, 0, [0], 0)
    requires TokensAreRight(World(h, {0}, {}, {Only()}, {})) && AreTokens(h, [0])
    ensures IsEvent(World(h, {0}, {}, {Only()}, {}), World(h', {}, {}, {}, {}), Only(), 0)
  {
    hide TokensAreRight, Layered, NextGeneration, DestroyerCount;
    var s' := World(h', {}, {}, {}, {});
    assert IsSaturatedBy(s', Only(), 0) by {
      assert 0 in Only().inputs;
    }
  }

  // An event keeps what an earlier search left behind.
  ghost predicate MakesEvent(s: Snapshot, s': Snapshot, m: Match, n: nat) {
    var clean, clean' := s.(leftover := {}), s'.(leftover := {});
    && s'.leftover == s.leftover
    && TokensAreRight(clean) && AreTokens(clean.history, m.inputs) && IsEvent(clean, clean', m, n)
  }

  // From the first state, lowering and raising the limit makes an event pending again, and it is made again.
  ghost predicate MakesEventAgain(done: Snapshot, again: Snapshot, twice: Snapshot, g: int, m: Match, n: nat) {
    && Invariant(done) && LowersAndRaises(done, again, g, [], false)
    && Instantiated(done.history, m) && MakesEvent(again, twice, m, n)
    && !NoEventTwice(twice) && !LimitIsKept(twice)
  }

  // Lowered to 0 and raised to 1, the limit lets the event happen again, beyond the limit of one destroyer.
  lemma LoweredLimitExample()
    ensures MakesEventAgain(
              World(Consumed(1), {}, {}, {}, {}), World(Consumed(1), {0}, {}, {Only()}, {}),
              World(Consumed(2), {}, {}, {}, {}), 0, Only(), 0)
  {
    ConsumedIsRight(1);
    ConsumedIsRight(2);
    ConsumedAgain(1);
    hide Consumed;
    RepeatingWorld(Consumed(1), Consumed(2));
  }

  lemma RepeatingWorld(h: History, h': History)
    requires IsConsumed(h, 1) && IsConsumed(h', 2) && AreTokens(h, [0]) && h' == Appended(h, 0, [0], 0)
    ensures MakesEventAgain(
              World(h, {}, {}, {}, {}), World(h, {0}, {}, {Only()}, {}), World(h', {}, {}, {}, {}), 0, Only(), 0)
  {
    hide IsConsumed, IsEvent, Invariant, TokensAreRight, LowersAndRaises, NoEventTwice, LimitIsKept;
    WorldIsInvariant(h, 1, {}, {}, {});
    WorldEvent(h);
    WorldIsRight(h, 1, {}, {}, {}, {});
    WorldIsRight(h', 2, {}, {}, {}, {});
    LoweredWorld(h);
  }

  lemma LoweredWorld(h: History)
    requires IsConsumed(h, 1)
    ensures LowersAndRaises(World(h, {}, {}, {}, {}), World(h, {0}, {}, {Only()}, {}), 0, [], false)
  {
    hide TokensAreRight;
    var done, again := World(h, {}, {}, {}, {}), World(h, {0}, {}, {Only()}, {});
    var raised := World(h, {}, {0}, {}, {});
    WorldIsRight(h, 1, {}, {}, {}, {});
    hide Layered, DestroyerCount;
    assert AddsLastGeneration(done.(maxGeneration := 0), raised, 1);
    OnlyIsAllowed(again);
    assert Only().inputs[0] in raised.unindexed;
    assert IsIndexed(raised, again, [], false);
  }

  // From the first state, lowering the limit to g does not keep m from happening beyond it.
  ghost predicate ExceedsLimit(s: Snapshot, s': Snapshot, g: int, m: Match, n: nat) {
    && CanHappen(s, m) && AreTokens(s.history, m.inputs) && g < s.maxGeneration
    && (forall e :: 0 <= e < |s.history.events| ==> s.history.events[e].generation <= g)
    && IsEvent(s.(maxGeneration := g), s', m, n) && !TokensAreRight(s')
  }

  // A match is pending when the limit is lowered to 0. It happens all the same, in generation 1.
  lemma LoweredBelowPendingExample()
    ensures ExceedsLimit(
              World(Consumed(0), {0}, {}, {Only()}, {}), World(Consumed(1), {}, {}, {}, {}).(maxGeneration := 0),
              0, Only(), 0)
  {
    ConsumedIsRight(0);
    ConsumedIsRight(1);
    ConsumedAgain(0);
    hide Consumed;
    ExceedingWorld(Consumed(0), Consumed(1));
  }

  lemma ExceedingWorld(h: History, h': History)
    requires IsConsumed(h, 0) && IsConsumed(h', 1) && AreTokens(h, [0]) && h' == Appended(h, 0, [0], 0)
    ensures ExceedsLimit(
              World(h, {0}, {}, {Only()}, {}), World(h', {}, {}, {}, {}).(maxGeneration := 0), 0, Only(), 0)
  {
    var s, s' := World(h, {0}, {}, {Only()}, {}), World(h', {}, {}, {}, {}).(maxGeneration := 0);
    WorldIsInvariant(h, 0, {0}, {}, {Only()});
    WorldEvent(h);
    NextOfFirst(h);
    hide Invariant, TokensAreRight, WellFormed, Layered, DestroyerCount, NextGeneration;
    assert CanHappen(s, Only());
    assert IsEvent(s.(maxGeneration := 0), s', Only(), 0);
    EventRespectsLoweredLimitIff(s, s', Only(), 0, 0);
  }

  // Which states are as they should be does not depend on what the rules create.
  lemma OutputsDoNotMatter(s: Snapshot, rules: seq<Rule>)
    requires Invariant(s) && |rules| == |s.rules|
    requires forall i :: 0 <= i < |rules| ==>
               rules[i].inputs == s.rules[i].inputs && rules[i].selection == s.rules[i].selection
    ensures Invariant(s.(rules := rules))
  {
    var s' := s.(rules := rules);
    forall t
      ensures Eligible(s', t) <==> Eligible(s, t)
    {
    }
    forall m
      ensures IsPending(s, m) ==> IsPending(s', m)
      ensures IsLeftBehind(s, m) ==> IsLeftBehind(s', m)
    {
    }
  }

  // From the first state, an event under the lower limit g creates a token that is not looked at any more.
  ghost predicate ForgetsToken(s: Snapshot, s': Snapshot, raised: Snapshot, g: int, m: Match, n: nat, t: TokenId) {
    && CanHappen(s, m) && AreTokens(s.history, m.inputs) && g < s.maxGeneration
    && IsEvent(s.(maxGeneration := g), s', m, n) && IsNewToken(s, s', t)
    && AddsLastGeneration(s', raised, raised.maxGeneration) && IsForgotten(raised, t)
  }

  // One token, and a rule that replaces it.
  ghost function Replacing(h: History): Snapshot {
    World(h, {0}, {}, {Only()}, {}).(rules := [Rule([[-1]], [[-1]], SelectAll)])
  }

  ghost function Replaced(h: History): Snapshot
    requires WellFormed(h) && AreTokens(h, [0])
  {
    Snapshot(Replacing(h).rules, map[0 := [1], 1 := [1]], Appended(h, 0, [0], 1), false, 0, Some(1), {}, {}, {}, {})
  }

  // The limit is lowered from 1 to 0, and later raised to 2.
  lemma ForgottenTokenExample()
    ensures AreTokens(Consumed(0), [0])
    ensures var s, s' := Replacing(Consumed(0)), Replaced(Consumed(0));
            ForgetsToken(s, s', s'.(maxGeneration := 2, unindexed := {0}), 0, Only(), 1, 1)
  {
    ConsumedIsRight(0);
    hide Consumed, Invariant, IsEvent, AddsLastGeneration, IsForgotten;
    var h := Consumed(0);
    var s, s' := Replacing(h), Replaced(h);
    WorldIsInvariant(h, 0, {0}, {}, {Only()});
    OutputsDoNotMatter(World(h, {0}, {}, {Only()}, {}), s.rules);
    ReplacedHistory(h);
    ReplacingEvent(h);
    CreatedAreForgottenIff(s, s', s'.(maxGeneration := 2, unindexed := {0}), Only(), 1, 0, 1);
  }

  lemma ReplacingEvent(h: History)
    requires IsConsumed(h, 0) && AreTokens(h, [0])
    ensures var s, s' := Replacing(h), Replaced(h);
            && NextGeneration(h, [0]) == 1
            && IsEvent(s.(maxGeneration := 0), s', Only(), 1) && IsNewToken(s, s', 1)
            && AddsLastGeneration(s', s'.(maxGeneration := 2, unindexed := {0}), 2)
  {
    ReplacedHistory(h);
    NextOfFirst(h);
    hide WellFormed, Layered, DestroyerCount, NextGeneration;
  }

  lemma ReplacedHistory(h: History)
    requires IsConsumed(h, 0) && AreTokens(h, [0])
    ensures var h' := Appended(h, 0, [0], 1);
            && WellFormed(h') && h'.creators == [0, 1]
            && TokenGeneration(h', 0) == 0 && TokenGeneration(h', 1) == 1 && DestroyerCount(h'.events, 0) == 1
  {
    NextOfFirst(h);
    AppendedIsWellFormed(h, 0, [0], 1);
    AppendedCounts(h, 0, [0], 1);
    AppendedGenerations(h, 0, [0], 1);
    assert Repeated(1, 1) == [1] && IdsFrom(1, 1) == [1];
  }

  // A search by several threads is interrupted after it found the match. A single thread finds it again, and
  // it becomes an event. The next search by several threads makes the same match pending, which has nothing
  // to consume any more and is an event already.
  lemma StaleMatchExample()
    ensures var created := World(Consumed(0), {}, {0}, {}, {});
            var interrupted := World(Consumed(0), {0}, {0}, {}, {Only()});
            var found := World(Consumed(0), {0}, {}, {Only()}, {Only()});
            var consumed := World(Consumed(1), {}, {}, {}, {Only()});
            var stale := World(Consumed(1), {}, {}, {Only()}, {});
            && Invariant(created) && IsSearched(created, interrupted) && IsIndexed(interrupted, found, [], false)
            && MakesEvent(found, consumed, Only(), 0)
            && Invariant(consumed.(leftover := {})) && CollectsStale(consumed, stale)
            && Instantiated(stale.history, Only()) && !Invariant(stale)
  {
    hide Consumed, IsConsumed, IsEvent, Invariant, TokensAreRight, CollectsStale, IsSearched, IsIndexed,
         Layered, WellFormed, Instantiated;
    ConsumedIsRight(0);
    ConsumedIsRight(1);
    ConsumedAgain(0);
    var h, h' := Consumed(0), Consumed(1);
    WorldIsInvariant(h, 0, {}, {0}, {});
    WorldIsRight(h, 0, {0}, {}, {Only()}, {Only()});
    WorldIsRight(h', 1, {}, {}, {Only()}, {});
    WorldEvent(h);
    InterruptedWorld(h);
    WorldIsInvariant(h', 1, {}, {}, {});
    StaleWorld(h');
  }

  lemma InterruptedWorld(h: History)
    requires IsConsumed(h, 0)
    ensures var created, interrupted := World(h, {}, {0}, {}, {}), World(h, {0}, {0}, {}, {Only()});
            var found := World(h, {0}, {}, {Only()}, {Only()});
            IsSearched(created, interrupted) && IsIndexed(interrupted, found, [], false)
  {
    hide IsConsumed;
    var created, interrupted := World(h, {}, {0}, {}, {}), World(h, {0}, {0}, {}, {Only()});
    var found := World(h, {0}, {}, {Only()}, {Only()});
    OnlyIsAllowed(interrupted);
    OnlyIsAllowed(found);
    assert Only().inputs[0] in created.unindexed && Only().inputs[0] in interrupted.unindexed;
    assert IsNewMatch(created, interrupted, Only()) && IsNewMatch(interrupted, found, Only());
  }

  lemma StaleWorld(h: History)
    requires IsConsumed(h, 1)
    ensures CollectsStale(World(h, {}, {}, {}, {Only()}), World(h, {}, {}, {Only()}, {}))
    ensures !Invariant(World(h, {}, {}, {Only()}, {}))
  {
    var consumed, stale := World(h, {}, {}, {}, {Only()}), World(h, {}, {}, {Only()}, {});
    hide IsConsumed, TokensAreRight;
    assert forall m :: !IsNewMatch(consumed, stale, m);
    assert Only().inputs[0] !in stale.indexed;
    WellFormedWorld(h, 1);
    assert !IsPending(stale, Only()) && Only() in stale.queue;
  }
}
