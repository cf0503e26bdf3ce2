/**
  Rules select their inputs by separation or do not care. When nothing can be consumed twice the
  engine drops the distinction, and when all rules agree on it no conflict is ever noticed.
 */
module SelectionFunctions {
  import opened Types
  import opened CausalHistory
  import opened DestroyerChoices
  import opened ExpressionsSeparation
  import opened Matching
  import opened TokenEventGraph
  import opened Evolution

  function Unselective(rules: seq<Rule>): (r: seq<Rule>)
    ensures |r| == |rules|
    ensures forall i :: 0 <= i < |r| ==> r[i] == rules[i].(selection := SelectAll)
  {
    seq(|rules|, i requires 0 <= i < |rules| => rules[i].(selection := SelectAll))
  }

  // The rules as the engine uses them.
  function Optimized(rules: seq<Rule>, maxDestroyerEvents: int): (r: seq<Rule>)
    ensures |r| == |rules|
    ensures forall i :: 0 <= i < |r| ==> r[i].inputs == rules[i].inputs && r[i].outputs == rules[i].outputs
  {
    if maxDestroyerEvents == 1 then Unselective(rules) else rules
  }

  // Whether the engine tracks how tokens are separated.
  predicate NeedsSeparation(maxDestroyerEvents: int, rules: seq<Rule>) {
    maxDestroyerEvents != 1 && exists i | 0 <= i < |rules| :: rules[i].selection != SelectAll
  }

  // ----- one destroyer per token makes a single history

  lemma {:induction false} ConsumedByBoth(events: seq<Event>, e: nat, f: nat, t: TokenId)
    requires e < f < |events| && t in events[e].inputs && t in events[f].inputs
    ensures DestroyerCount(events, t) >= 2
  {
    var n := |events| - 1;
    assert multiset(events[n].inputs)[t] >= 0;
    if f < n {
      ConsumedByBoth(events[..n], e, f, t);
    } else {
      CountedIffConsumed(events[..n], t);
      assert t in events[..n][e].inputs;
      assert multiset(events[n].inputs)[t] >= 1;
    }
  }

  lemma {:induction false} CountsInOneEvent(events: seq<Event>, e: nat, t: TokenId)
    requires e < |events|
    ensures DestroyerCount(events, t) >= multiset(events[e].inputs)[t]
  {
    if e < |events| - 1 {
      CountsInOneEvent(events[..|events| - 1], e, t);
    }
  }

  lemma TwoPlaces(a: seq<int>, i: nat, j: nat)
    requires i < j < |a| && a[i] == a[j]
    ensures multiset(a)[a[i]] >= 2
  {
    assert a == a[..j] + [a[j]] + a[j + 1..];
    assert a[i] in a[..j];
  }

  lemma OneDestroyerIsSingleHistory(h: History)
    requires WellFormed(h) && forall t :: IsToken(h, t) ==> DestroyerCount(h.events, t) <= 1
    ensures SingleHistory(h)
  {
    forall e, f, t | 0 <= e < |h.events| && 0 <= f < |h.events| && Consumes(h, e, t) && Consumes(h, f, t)
      ensures e == f
    {
      if e < f {
        ConsumedByBoth(h.events, e, f, t);
      } else if f < e {
        ConsumedByBoth(h.events, f, e, t);
      }
    }
    forall e | 0 <= e < |h.events|
      ensures Distinct(h.events[e].inputs)
    {
      var a := h.events[e].inputs;
      forall i, j | 0 <= i < j < |a|
        ensures a[i] != a[j]
      {
        if a[i] == a[j] {
          TwoPlaces(a, i, j);
          CountsInOneEvent(h.events, e, a[i]);
          assert Consumes(h, e, a[i]);
        }
      }
    }
  }

  lemma UnconsumedIsLive(h: History, t: TokenId)
    requires IsToken(h, t) && DestroyerCount(h.events, t) == 0
    ensures Live(h, t)
  {
    CountedIffConsumed(h.events, t);
  }

  // ----- dropping the distinction changes nothing

  // Of live tokens of a single history the same matches are allowed with and without the distinction.
  lemma SameMatches(rules: seq<Rule>, contents: Contents, pool: set<TokenId>, h: History, m: Match)
    requires WellFormed(h) && SingleHistory(h) && forall t :: t in pool ==> Live(h, t)
    ensures MatchSpace(Unselective(rules), contents, pool, SeparationView(h, false)).Allows(m) <==>
            MatchSpace(rules, contents, pool, SeparationView(h, true)).Allows(m)
  {
    if 0 <= m.rule < |rules| && FromPool(pool, m.inputs) && Distinct(m.inputs) {
      forall i, j | 0 <= i < j < |m.inputs|
        ensures SpacelikeIn(SeparationView(h, true), m.inputs[i], m.inputs[j])
      {
        LiveTokensAreSpacelike(h, m.inputs[i], m.inputs[j]);
      }
      assert Unselective(rules)[m.rule].inputs == rules[m.rule].inputs;
    }
  }

  // A system finds the matches of the rules as they were given, with separations known: with one destroyer per token
  // because only live tokens are matched, and otherwise because separations are tracked wherever they decide.
  lemma TrackingLosesNoMatch(
    rules: seq<Rule>, maxDestroyerEvents: int, tracksChoices: bool, contents: Contents, pool: set<TokenId>, h: History,
    m: Match)
    requires tracksChoices == NeedsSeparation(maxDestroyerEvents, rules)
    requires maxDestroyerEvents == 1 ==> WellFormed(h) && SingleHistory(h) && forall t :: t in pool ==> Live(h, t)
    ensures MatchSpace(Optimized(rules, maxDestroyerEvents), contents, pool, SeparationView(h, tracksChoices)).Allows(m)
            <==> MatchSpace(rules, contents, pool, SeparationView(h, true)).Allows(m)
  {
    if maxDestroyerEvents == 1 {
      SameMatches(rules, contents, pool, h, m);
    } else if !tracksChoices && 0 <= m.rule < |rules| {
      assert rules[m.rule].selection == SelectAll;
    }
  }

  // The same evolution with the rules as they were given, tracking separations.
  ghost function WithDistinction(s: Snapshot, rules: seq<Rule>): Snapshot {
    s.(rules := rules, tracksChoices := true)
  }

  lemma WithDistinctionIsSingle(s: Snapshot)
    requires TokensAreRight(s) && IndexIsRight(s) && LimitIsKept(s) && s.limit == Some(1)
    ensures SingleHistory(s.history) && Recorded(s.history, |s.history.events|).Some?
    ensures forall t :: t in s.indexed ==> Live(s.history, t)
  {
    OneDestroyerIsSingleHistory(s.history);
    SingleHistoryIsSpacelike(s.history);
    SpacelikeIsRecorded(s.history, |s.history.events|);
    forall t | t in s.indexed
      ensures Live(s.history, t)
    {
      assert Eligible(s, t);
      UnconsumedIsLive(s.history, t);
    }
  }

  // Whatever is pending with the optimised rules is pending with the given ones, and nothing else.
  lemma OptimizationKeepsInvariant(s: Snapshot, rules: seq<Rule>)
    requires s.rules == Unselective(rules) && !s.tracksChoices && s.limit == Some(1)
    ensures TokensAreRight(s) && IndexIsRight(s) && LimitIsKept(s) ==>
              && (QueueIsSound(s) <==> QueueIsSound(WithDistinction(s, rules)))
              && (QueueIsComplete(s) <==> QueueIsComplete(WithDistinction(s, rules)))
    ensures Invariant(s) <==> Invariant(WithDistinction(s, rules))
  {
    var s' := WithDistinction(s, rules);
    assert TokensAreRight(s) <==> TokensAreRight(s');
    if TokensAreRight(s) {
      assert forall t :: Eligible(s, t) <==> Eligible(s', t);
      assert IndexIsRight(s) <==> IndexIsRight(s');
      if IndexIsRight(s) && LimitIsKept(s) {
        SameQueues(s, rules);
      }
    }
  }

  lemma SameQueues(s: Snapshot, rules: seq<Rule>)
    requires s.rules == Unselective(rules) && !s.tracksChoices && s.limit == Some(1)
    requires TokensAreRight(s) && IndexIsRight(s) && LimitIsKept(s)
    ensures QueueIsSound(s) <==> QueueIsSound(WithDistinction(s, rules))
    ensures QueueIsComplete(s) <==> QueueIsComplete(WithDistinction(s, rules))
  {
    var s' := WithDistinction(s, rules);
    WithDistinctionIsSingle(s);
    forall m
      ensures s.Space(s.indexed).Allows(m) <==> s'.Space(s.indexed).Allows(m)
      ensures IsPending(s, m) <==> IsPending(s', m)
    {
      SameMatches(rules, s.contents, s.indexed, s.history, m);
    }
  }

  // ----- when all rules care

  ghost predicate AllSelective(rules: seq<Rule>) {
    forall i :: 0 <= i < |rules| ==> rules[i].selection == SelectSpacelike
  }

  // Rules that all select spacelike inputs only produce histories in which no conflict is ever noticed.
  lemma EventKeepsSpacelike(s: Snapshot, s': Snapshot, m: Match, n: nat)
    requires CanHappen(s, m) && AreTokens(s.history, m.inputs) && IsEvent(s, s', m, n)
    requires AllSelective(s.rules) && s.tracksChoices && SpacelikeHistory(s.history)
    ensures SpacelikeHistory(s'.history) && TrackingIsIntact(s')
  {
    SpacelikeIsRecorded(s.history, |s.history.events|);
    assert IsPending(s, m) && s.Space(s.indexed).Allows(m);
    AppendedIsWellFormed(s.history, m.rule, m.inputs, n);
    SpacelikeMatchKeepsSpacelike(s, s'.history, m);
    SpacelikeIsRecorded(s'.history, |s'.history.events|);
  }

  lemma SpacelikeMatchKeepsSpacelike(s: Snapshot, h': History, m: Match)
    requires WellFormed(s.history) && WellFormed(h') && Extends(s.history, h') && s.tracksChoices
    requires SpacelikeHistory(s.history) && s.Space(s.indexed).Allows(m) && AllSelective(s.rules)
    requires |h'.events| == |s.history.events| + 1 && h'.events[|s.history.events|].inputs == m.inputs
    ensures SpacelikeHistory(h')
  {
    forall e | 0 <= e < |s.history.events|
      ensures SpacelikeEvent(h', e)
    {
      OldEventIsSpacelike(s.history, h', e);
    }
    NewEventIsSpacelike(s, h', m);
  }

  lemma OldEventIsSpacelike(h: History, h': History, e: EventId)
    requires WellFormed(h) && WellFormed(h') && Extends(h, h') && 0 <= e < |h.events| && SpacelikeEvent(h, e)
    ensures SpacelikeEvent(h', e)
  {
    var inputs := h.events[e].inputs;
    forall i, j | 0 <= i < j < |inputs|
      ensures IsToken(h', inputs[i]) && IsToken(h', inputs[j])
      ensures inputs[i] != inputs[j] && Compatible(h', inputs[i], inputs[j])
    {
      assert Consumes(h, e, inputs[i]) && Consumes(h, e, inputs[j]);
      CompatibleIsStable(h, h', inputs[i], inputs[j]);
    }
  }

  lemma NewEventIsSpacelike(s: Snapshot, h': History, m: Match)
    requires WellFormed(s.history) && WellFormed(h') && Extends(s.history, h') && s.tracksChoices
    requires SpacelikeHistory(s.history) && s.Space(s.indexed).Allows(m) && AllSelective(s.rules)
    requires |h'.events| == |s.history.events| + 1 && h'.events[|s.history.events|].inputs == m.inputs
    ensures SpacelikeEvent(h', |s.history.events|)
  {
    var a := m.inputs;
    forall i, j | 0 <= i < j < |a|
      ensures IsToken(h', a[i]) && IsToken(h', a[j]) && a[i] != a[j] && Compatible(h', a[i], a[j])
    {
      assert SpacelikeIn(s.Space(s.indexed).view, a[i], a[j]);
      SeparationsAgree(s.history, a[i], a[j]);
      CompatibleIffHistoryExists(s.history, a[i], a[j]);
      CompatibleIsStable(s.history, h', a[i], a[j]);
    }
  }

  // The initial event consumes nothing.
  lemma InitialHistoryIsSpacelike(n: nat)
    ensures var h := Appended(History([], []), INITIAL_CONDITION_RULE, [], n);
            WellFormed(h) && SpacelikeHistory(h)
  {
    AppendedIsWellFormed(History([], []), INITIAL_CONDITION_RULE, [], n);
  }

  // If rules agree about selection, separations are always known where they are needed.
  lemma UniformRulesKeepTracking(s: Snapshot, rules: seq<Rule>, maxDestroyerEvents: int)
    requires WellFormed(s.history) && s.tracksChoices == NeedsSeparation(maxDestroyerEvents, rules)
    requires s.rules == Optimized(rules, maxDestroyerEvents)
    requires AllSelective(rules) || (forall i :: 0 <= i < |rules| ==> rules[i].selection == SelectAll)
    requires AllSelective(s.rules) && s.tracksChoices ==> SpacelikeHistory(s.history)
    ensures TrackingIsIntact(s)
  {
    if s.tracksChoices {
      assert AllSelective(s.rules);
      SpacelikeIsRecorded(s.history, |s.history.events|);
    }
  }
}
