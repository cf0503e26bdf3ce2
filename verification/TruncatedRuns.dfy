/**
  What a truncated evolution is to the rules.

  Its events are instances of them. If tokens may be consumed any number of times, it is all that can be done
  without later generations: a system with that limit could be in this state, and would have nothing left to do.
 */
module TruncatedRuns {
  import opened Types
  import opened CausalHistory
  import opened DestroyerChoices
  import opened Matching
  import opened LiveAtoms
  import opened TokenEventGraph
  import opened Evolution
  import opened CompleteGenerations
  import opened GlobalDeduplication
  import opened Instances
  import opened TruncatedEvolution

  // ----- the matches of kept tokens

  ghost predicate AreKept(h: History, c: int, tokens: seq<TokenId>)
    requires WellFormed(h)
  {
    forall i :: 0 <= i < |tokens| ==> TokenIsKept(h, c, tokens[i])
  }

  ghost function RenumberedMatch(h: History, c: int, m: Match): Match
    requires WellFormed(h)
  {
    Match(m.rule, Renumbered(h, c, m.inputs))
  }

  // Kept tokens with the given new numbers.
  lemma OldTokens(h: History, c: int, tokens': seq<TokenId>) returns (tokens: seq<TokenId>)
    requires WellFormed(h) && AreTokens(Truncated(h, c), tokens')
    ensures AreKept(h, c, tokens) && Renumbered(h, c, tokens) == tokens'
  {
    tokens := seq(|tokens'|, i requires 0 <= i < |tokens'| => KeptTokens(h, c)[tokens'[i]]);
    forall i | 0 <= i < |tokens'|
      ensures TokenIsKept(h, c, tokens[i]) && NewTokenId(h, c, tokens[i]) == tokens'[i]
    {
      OldToken(h, c, tokens'[i]);
    }
  }

  lemma RenumberedIsDistinct(h: History, c: int, tokens: seq<TokenId>)
    requires WellFormed(h) && AreKept(h, c, tokens)
    ensures Distinct(Renumbered(h, c, tokens)) <==> Distinct(tokens)
  {
    forall i, j | 0 <= i < j < |tokens|
      ensures Renumbered(h, c, tokens)[i] == Renumbered(h, c, tokens)[j] <==> tokens[i] == tokens[j]
    {
      RenumberingIsMonotone(h, c, tokens[i], tokens[j]);
    }
  }

  lemma RenumberedIsEqual(h: History, c: int, a: seq<TokenId>, b: seq<TokenId>)
    requires WellFormed(h) && AreKept(h, c, a) && AreKept(h, c, b) && Renumbered(h, c, a) == Renumbered(h, c, b)
    ensures a == b
  {
    forall i | 0 <= i < |a|
      ensures a[i] == b[i]
    {
      assert Renumbered(h, c, a)[i] == Renumbered(h, c, b)[i];
      RenumberingIsMonotone(h, c, a[i], b[i]);
    }
  }

  // They have the same contents, so that they are explained alike and have the same outputs.
  lemma SameOutputs(s: Snapshot, c: int, pool: set<TokenId>, pool': set<TokenId>, m: Match)
    requires TokensAreRight(s) && AreKept(s.history, c, m.inputs)
    ensures var space, space', m' := s.Space(pool), TruncatedState(s, c).Space(pool'), RenumberedMatch(s.history, c, m);
            && (space'.IsExplained(m') <==> space.IsExplained(m))
            && (space.IsExplained(m) ==> space'.Outputs(m') == space.Outputs(m))
  {
    ContentsAreKept(s, c);
    hide WellFormed, Layered, TruncatedState, NewTokenId;
    forall i | 0 <= i < |m.inputs|
      ensures m.inputs[i] in s.contents && Renumbered(s.history, c, m.inputs)[i] in TruncatedState(s, c).contents
      ensures TruncatedState(s, c).contents[Renumbered(s.history, c, m.inputs)[i]] == s.contents[m.inputs[i]]
    {
      assert TokenIsKept(s.history, c, m.inputs[i]);
    }
    TruncatedRules(s, c);
    OutputsDependOnContents(
      s.Space(pool), TruncatedState(s, c).Space(pool'), m, RenumberedMatch(s.history, c, m));
  }

  lemma TruncatedRules(s: Snapshot, c: int)
    requires TokensAreRight(s)
    ensures TruncatedState(s, c).rules == s.rules
  {
  }

  // ----- its events are instances

  lemma TruncatedKeepsInstances(s: Snapshot, c: int)
    requires TokensAreRight(s) && EventsAreInstances(s)
    ensures EventsAreInstances(TruncatedState(s, c))
  {
    var s', h := TruncatedState(s, c), s.history;
    TruncatedIsWellFormed(h, c);
    forall e' | 0 <= e' < |s'.history.events|
      ensures AreConsecutive(s'.history.events[e'].outputs)
      ensures IsInitialEvent(s'.history.events[e']) || IsInstance(s', e')
    {
      hide IsInstance, AreConsecutive, TokensAreRight, WellFormed, Layered, NewEventId, KeptEvents;
      var e := KeptEvents(h, c)[e'];
      OldEvent(h, c, e');
      NewEvent(h, c, e);
      KeptOutputsAreConsecutive(s, c, e);
      if !IsInitialEvent(h.events[e]) {
        TruncatedInstance(s, c, e);
      }
    }
  }

  lemma KeptOutputsAreConsecutive(s: Snapshot, c: int, e: EventId)
    requires TokensAreRight(s) && EventIsKept(s.history, c, e) && AreConsecutive(s.history.events[e].outputs)
    ensures AreConsecutive(Renumbered(s.history, c, s.history.events[e].outputs))
  {
    var ids := s.history.events[e].outputs;
    EventTokensAreKept(s.history, c, e);
    forall i, j | 0 <= i < j < |ids|
      ensures NewTokenId(s.history, c, ids[j]) == NewTokenId(s.history, c, ids[i]) + (j - i)
    {
      SameDistance(s.history, c, ids, i, j);
    }
  }

  lemma {:induction false} SameDistance(h: History, c: int, ids: seq<TokenId>, i: nat, j: nat)
    requires WellFormed(h) && AreKept(h, c, ids) && AreConsecutive(ids) && i <= j < |ids|
    ensures NewTokenId(h, c, ids[j]) == NewTokenId(h, c, ids[i]) + (j - i)
    decreases j
  {
    if i < j {
      SameDistance(h, c, ids, i, j - 1);
      var t, generations := ids[j - 1], TokenGenerations(h);
      assert TokenIsKept(h, c, t) && TokenIsKept(h, c, ids[j]) && ids[j] == t + 1;
      assert generations[..t + 1] == generations[..t] + [generations[t]];
      assert generations[..t + 1][..t] == generations[..t];
    }
  }

  lemma EventTokensAreKept(h: History, c: int, e: EventId)
    requires WellFormed(h) && Layered(h) && EventIsKept(h, c, e)
    ensures AreKept(h, c, h.events[e].inputs) && AreKept(h, c, h.events[e].outputs)
  {
    forall i | 0 <= i < |h.events[e].inputs|
      ensures TokenIsKept(h, c, h.events[e].inputs[i])
    {
      TruncationIsClosed(h, c, e, h.events[e].inputs[i]);
    }
    forall i | 0 <= i < |h.events[e].outputs|
      ensures TokenIsKept(h, c, h.events[e].outputs[i])
    {
      TruncationIsClosed(h, c, e, h.events[e].outputs[i]);
    }
  }

  // The pools have the same tokens, as far as they are kept.
  ghost predicate SamePools(h: History, c: int, pool: set<TokenId>, pool': set<TokenId>)
    requires WellFormed(h)
  {
    forall t :: TokenIsKept(h, c, t) ==> (t in pool <==> NewTokenId(h, c, t) in pool')
  }

  lemma SameFit(s: Snapshot, c: int, pool: set<TokenId>, pool': set<TokenId>, m: Match)
    requires TokensAreRight(s) && AreKept(s.history, c, m.inputs) && SamePools(s.history, c, pool, pool')
    ensures TruncatedState(s, c).Space(pool').Fits(RenumberedMatch(s.history, c, m)) <==> s.Space(pool).Fits(m)
  {
    SameOutputs(s, c, pool, pool', m);
    TruncatedRules(s, c);
    RenumberedIsDistinct(s.history, c, m.inputs);
    hide WellFormed, Layered, NewTokenId, TruncatedState, TokenIsKept, MatchSpace.IsExplained;
    forall i | 0 <= i < |m.inputs|
      ensures Renumbered(s.history, c, m.inputs)[i] in pool' <==> m.inputs[i] in pool
    {
      var t := m.inputs[i];
      assert TokenIsKept(s.history, c, t);
    }
  }

  lemma KnownPools(s: Snapshot, c: int)
    requires TokensAreRight(s)
    ensures SamePools(s.history, c, s.contents.Keys, TruncatedState(s, c).contents.Keys)
  {
    ContentsAreKept(s, c);
  }

  lemma SameReading(s: Snapshot, c: int, full: Substitution, patterns: seq<AtomsVector>, tokens: seq<TokenId>)
    requires TokensAreRight(s) && AreKept(s.history, c, tokens) && AreReadAs(full, patterns, s.contents, tokens)
    ensures AreReadAs(full, patterns, TruncatedState(s, c).contents, Renumbered(s.history, c, tokens))
  {
    ContentsAreKept(s, c);
    hide WellFormed, Layered, NewTokenId, TruncatedState, IsReadAs;
    forall i | 0 <= i < |tokens|
      ensures Renumbered(s.history, c, tokens)[i] in TruncatedState(s, c).contents
      ensures TruncatedState(s, c).contents[Renumbered(s.history, c, tokens)[i]] == s.contents[tokens[i]]
    {
      assert TokenIsKept(s.history, c, tokens[i]);
    }
  }

  // What is earlier in the truncated evolution was earlier before.
  lemma EarlierStaysEarlier(s: Snapshot, c: int, e: EventId, start: Atom)
    requires TokensAreRight(s) && EventIsKept(s.history, c, e) && IsBeyondEarlier(s, e, start)
    ensures IsBeyondEarlier(TruncatedState(s, c), NewEventId(s.history, c, e), start)
  {
    var h, s', e' := s.history, TruncatedState(s, c), NewEventId(s.history, c, e);
    ContentsAreKept(s, c);
    forall t', x | IsToken(s'.history, t') && s'.history.creators[t'] < e' && t' in s'.contents && x in s'.contents[t']
      ensures RuleAtomsUpTo(s.rules, start) ==> x <= start
    {
      OldToken(h, c, t');
      var t := KeptTokens(h, c)[t'];
      NewToken(h, c, t);
      EventRenumberingIsMonotone(h, c, h.creators[t], e);
      assert IsToken(h, t) && t in s.contents && s'.contents[t'] == s.contents[t];
    }
  }

  lemma TruncatedInstance(s: Snapshot, c: int, e: EventId)
    requires TokensAreRight(s) && EventIsKept(s.history, c, e) && IsInstance(s, e)
    ensures var e' := NewEventId(s.history, c, e);
            0 <= e' < |TruncatedState(s, c).history.events| && IsInstance(TruncatedState(s, c), e')
  {
    var h, s', e' := s.history, TruncatedState(s, c), NewEventId(s.history, c, e);
    var event, rule := h.events[e], s.rules[h.events[e].rule];
    var full, start :| IsInstantiatedBy(s, e, full, start);
    EventTokensAreKept(h, c, e);
    NewEvent(h, c, e);
    RenumberedIsDistinct(h, c, event.inputs);
    SameReading(s, c, full, rule.inputs, event.inputs);
    SameReading(s, c, full, rule.outputs, event.outputs);
    EarlierStaysEarlier(s, c, e, start);
    hide TokensAreRight, WellFormed, Layered, AreKept, AreReadAs, HaveNewNames, IsBeyondEarlier, Truncated;
    assert IsInstantiatedBy(s', e', full, start);
  }

  // ----- it has the same records

  // The same choices, in new numbers.
  ghost predicate SameChoices(h: History, c: int, m: Choices, m': Choices)
    requires WellFormed(h)
  {
    && (forall t :: t in m ==>
          && TokenIsKept(h, c, t) && EventIsKept(h, c, m[t])
          && NewTokenId(h, c, t) in m' && m'[NewTokenId(h, c, t)] == NewEventId(h, c, m[t]))
    && (forall t' :: t' in m' ==> exists t :: t in m && NewTokenId(h, c, t) == t')
  }

  lemma SameChoice(h: History, c: int, m: Choices, m': Choices, t: TokenId)
    requires WellFormed(h) && SameChoices(h, c, m, m') && TokenIsKept(h, c, t)
    ensures NewTokenId(h, c, t) in m' <==> t in m
  {
    if NewTokenId(h, c, t) in m' {
      var u :| u in m && NewTokenId(h, c, u) == NewTokenId(h, c, t);
      RenumberingIsMonotone(h, c, t, u);
    }
  }

  lemma SameAgreement(h: History, c: int, m: Choices, m': Choices, d: Choices, d': Choices)
    requires WellFormed(h) && SameChoices(h, c, m, m') && SameChoices(h, c, d, d')
    ensures Agree(m', d') <==> Agree(m, d)
  {
    if Agree(m, d) {
      forall t' | t' in m' && t' in d'
        ensures m'[t'] == d'[t']
      {
        var t :| t in m && NewTokenId(h, c, t) == t';
        SameChoice(h, c, d, d', t);
      }
    }
    if Agree(m', d') {
      forall t | t in m && t in d
        ensures m[t] == d[t]
      {
        EventRenumberingIsMonotone(h, c, m[t], d[t]);
      }
    }
  }

  lemma SameUnion(h: History, c: int, m: Choices, m': Choices, d: Choices, d': Choices)
    requires WellFormed(h) && SameChoices(h, c, m, m') && SameChoices(h, c, d, d')
    ensures SameChoices(h, c, m + d, m' + d')
  {
    hide WellFormed, TokenIsKept, NewTokenId;
    forall t | t in m + d
      ensures TokenIsKept(h, c, t) && EventIsKept(h, c, (m + d)[t])
      ensures NewTokenId(h, c, t) in m' + d'
      ensures (m' + d')[NewTokenId(h, c, t)] == NewEventId(h, c, (m + d)[t])
    {
      SameChoice(h, c, d, d', t);
    }
    forall t' | t' in m' + d'
      ensures exists t :: t in m + d && NewTokenId(h, c, t) == t'
    {
      if t' in m' {
        var t :| t in m && NewTokenId(h, c, t) == t';
        assert t in m + d;
      } else {
        var t :| t in d && NewTokenId(h, c, t) == t';
        assert t in m + d;
      }
    }
  }

  lemma SameMark(h: History, c: int, m: Choices, m': Choices, t: TokenId, e: EventId)
    requires WellFormed(h) && SameChoices(h, c, m, m') && TokenIsKept(h, c, t) && EventIsKept(h, c, e)
    ensures SameChoices(h, c, m[t := e], m'[NewTokenId(h, c, t) := NewEventId(h, c, e)])
  {
    hide SameChoices, WellFormed, TokenIsKept, NewTokenId, NewEventId;
    SameSingleChoice(h, c, t, e);
    SameUnion(h, c, m, m', map[t := e], map[NewTokenId(h, c, t) := NewEventId(h, c, e)]);
    assert m[t := e] == m + map[t := e];
    assert m'[NewTokenId(h, c, t) := NewEventId(h, c, e)] == m' + map[NewTokenId(h, c, t) := NewEventId(h, c, e)];
  }

  lemma SameSingleChoice(h: History, c: int, t: TokenId, e: EventId)
    requires WellFormed(h) && TokenIsKept(h, c, t) && EventIsKept(h, c, e)
    ensures SameChoices(h, c, map[t := e], map[NewTokenId(h, c, t) := NewEventId(h, c, e)])
  {
  }

  ghost predicate SameInputChoices(h: History, c: int, e: EventId, choices: seq<Choices>, choices': seq<Choices>)
    requires WellFormed(h) && EventIsKept(h, c, e)
    requires InputsKnown(choices, h.creators, h.events[e].inputs)
    requires InputsKnown(choices', Truncated(h, c).creators, Renumbered(h, c, h.events[e].inputs))
  {
    forall i :: 0 <= i < |h.events[e].inputs| ==>
      SameChoices(h, c, InputChoices(choices, h.creators, h.events[e].inputs, i),
                  InputChoices(choices', Truncated(h, c).creators, Renumbered(h, c, h.events[e].inputs), i))
  }

  // Merging notices the same conflicts.
  lemma {:induction false} SameMerge(
    h: History, c: int, e: EventId, choices: seq<Choices>, choices': seq<Choices>, n: nat)
    requires WellFormed(h) && EventIsKept(h, c, e) && AreKept(h, c, h.events[e].inputs) && n <= |h.events[e].inputs|
    requires InputsKnown(choices, h.creators, h.events[e].inputs)
    requires InputsKnown(choices', Truncated(h, c).creators, Renumbered(h, c, h.events[e].inputs))
    requires SameInputChoices(h, c, e, choices, choices')
    ensures var inputs := h.events[e].inputs;
            var merged := Merge(choices, h.creators, inputs, e, n);
            var merged' := Merge(choices', Truncated(h, c).creators, Renumbered(h, c, inputs), NewEventId(h, c, e), n);
            (merged'.Some? <==> merged.Some?) && (merged.Some? ==> SameChoices(h, c, merged.value, merged'.value))
  {
    hide WellFormed, InputsKnown, SameChoices, NewTokenId, TokenIsKept, Agree, Truncated;
    var inputs := h.events[e].inputs;
    if n > 0 {
      SameMerge(h, c, e, choices, choices', n - 1);
      var merged := Merge(choices, h.creators, inputs, e, n - 1);
      if merged.Some? {
        var merged' :=
          Merge(choices', Truncated(h, c).creators, Renumbered(h, c, inputs), NewEventId(h, c, e), n - 1).value;
        var d := InputChoices(choices, h.creators, inputs, n - 1);
        var d' := InputChoices(choices', Truncated(h, c).creators, Renumbered(h, c, inputs), n - 1);
        var t := inputs[n - 1];
        SameMark(h, c, merged.value, merged', t, e);
        SameAgreement(h, c, merged.value[t := e], merged'[NewTokenId(h, c, t) := NewEventId(h, c, e)], d, d');
        SameUnion(h, c, merged.value[t := e], merged'[NewTokenId(h, c, t) := NewEventId(h, c, e)], d, d');
      }
    } else {
      NoChoices(h, c);
    }
  }

  lemma NoChoices(h: History, c: int)
    requires WellFormed(h)
    ensures SameChoices(h, c, map[], map[])
  {
  }

  // Every record of a kept event is the record of its new number.
  ghost predicate RecordsCorrespond(h: History, c: int, choices: seq<Choices>, choices': seq<Choices>)
    requires WellFormed(h) && |choices| == |h.events| && |choices'| <= |KeptEvents(h, c)|
  {
    forall e' :: 0 <= e' < |choices'| ==> SameChoices(h, c, choices[KeptEvents(h, c)[e']], choices'[e'])
  }

  lemma {:induction false} SameRecords(h: History, c: int, n: nat)
    requires WellFormed(h) && Layered(h) && WellFormed(Truncated(h, c)) && n <= |KeptEvents(h, c)|
    requires Recorded(h, |h.events|).Some?
    ensures Recorded(Truncated(h, c), n).Some?
    ensures RecordsCorrespond(h, c, Recorded(h, |h.events|).value, Recorded(Truncated(h, c), n).value)
  {
    if n > 0 {
      SameRecords(h, c, n - 1);
      NextRecordCorresponds(h, c, n - 1);
    }
  }

  lemma RecordIsMerged(h: History, e: EventId)
    requires WellFormed(h) && 0 <= e < |h.events| && Recorded(h, |h.events|).Some?
    ensures var choices, inputs := Recorded(h, |h.events|).value, h.events[e].inputs;
            && |choices| == |h.events| && InputsKnown(choices[..e], h.creators, inputs)
            && Merge(choices[..e], h.creators, inputs, e, |inputs|) == Some(choices[e])
  {
    var choices := Recorded(h, |h.events|).value;
    RecordedIsPrefix(h, e, |h.events|);
    RecordedIsPrefix(h, e + 1, |h.events|);
    EventInputsKnown(h, choices[..e], e);
    assert choices[..e + 1][e] == choices[e];
  }

  lemma InputRecordsCorrespond(h: History, c: int, e': nat, choices: seq<Choices>, choices': seq<Choices>)
    requires WellFormed(h) && Layered(h) && WellFormed(Truncated(h, c)) && e' < |KeptEvents(h, c)| && |choices'| == e'
    requires |choices| == |h.events| && RecordsCorrespond(h, c, choices, choices')
    requires InputsKnown(choices[..KeptEvents(h, c)[e']], h.creators, h.events[KeptEvents(h, c)[e']].inputs)
    ensures var e := KeptEvents(h, c)[e'];
            && EventIsKept(h, c, e) && AreKept(h, c, h.events[e].inputs)
            && NewEventId(h, c, e) == e' && Truncated(h, c).events[e'] == RenumberedEvent(h, c, h.events[e])
            && InputsKnown(choices', Truncated(h, c).creators, Renumbered(h, c, h.events[e].inputs))
            && SameInputChoices(h, c, e, choices[..e], choices')
  {
    var h', e := Truncated(h, c), KeptEvents(h, c)[e'];
    OldEvent(h, c, e');
    EventTokensAreKept(h, c, e);
    NewEvent(h, c, e);
    EventInputsKnown(h', choices', e');
    hide SameChoices, NewTokenId, Truncated, KeptTokens;
    forall i | 0 <= i < |h.events[e].inputs|
      ensures SameChoices(h, c, InputChoices(choices[..e], h.creators, h.events[e].inputs, i),
                          InputChoices(choices', h'.creators, Renumbered(h, c, h.events[e].inputs), i))
    {
      var t := h.events[e].inputs[i];
      NewToken(h, c, t);
      assert Consumes(h, e, t) && TokenIsKept(h, c, t);
      NewEvent(h, c, h.creators[t]);
      EventRenumberingIsMonotone(h, c, h.creators[t], e);
    }
  }

  lemma NextRecordCorresponds(h: History, c: int, e': nat)
    requires WellFormed(h) && Layered(h) && WellFormed(Truncated(h, c)) && e' < |KeptEvents(h, c)|
    requires Recorded(h, |h.events|).Some? && Recorded(Truncated(h, c), e').Some?
    requires RecordsCorrespond(h, c, Recorded(h, |h.events|).value, Recorded(Truncated(h, c), e').value)
    ensures Recorded(Truncated(h, c), e' + 1).Some?
    ensures RecordsCorrespond(h, c, Recorded(h, |h.events|).value, Recorded(Truncated(h, c), e' + 1).value)
  {
    var h', e := Truncated(h, c), KeptEvents(h, c)[e'];
    var choices, choices' := Recorded(h, |h.events|).value, Recorded(h', e').value;
    RecordIsMerged(h, e);
    InputRecordsCorrespond(h, c, e', choices, choices');
    TokenEventGraph.RecordedNext(h', e');
    hide WellFormed, SameChoices, SameInputChoices, NewTokenId, Truncated, InputsKnown, Merge, Recorded, KeptEvents;
    SameMerge(h, c, e, choices[..e], choices', |h.events[e].inputs|);
    OneMoreCorresponds(h, c, choices, choices', Recorded(h', e' + 1).value[e']);
  }

  lemma OneMoreCorresponds(h: History, c: int, choices: seq<Choices>, choices': seq<Choices>, m': Choices)
    requires WellFormed(h) && |choices| == |h.events| && |choices'| < |KeptEvents(h, c)|
    requires RecordsCorrespond(h, c, choices, choices')
    requires SameChoices(h, c, choices[KeptEvents(h, c)[|choices'|]], m')
    ensures RecordsCorrespond(h, c, choices, choices' + [m'])
  {
    hide SameChoices, KeptEvents;
    forall e' | 0 <= e' < |choices'| + 1
      ensures SameChoices(h, c, choices[KeptEvents(h, c)[e']], (choices' + [m'])[e'])
    {
    }
  }

  // The two records of a kept event.
  lemma SameRecordOf(h: History, c: int, e: EventId)
    requires WellFormed(h) && Layered(h) && EventIsKept(h, c, e) && Recorded(h, |h.events|).Some?
    ensures var h', e' := Truncated(h, c), NewEventId(h, c, e);
            && WellFormed(h') && Recorded(h', |h'.events|).Some? && 0 <= e' < |h'.events|
            && SameChoices(h, c, Recorded(h, |h.events|).value[e], Recorded(h', |h'.events|).value[e'])
  {
    TruncatedIsWellFormed(h, c);
    SameRecords(h, c, |KeptEvents(h, c)|);
    NewEvent(h, c, e);
  }

  lemma SameVerdict(
    h: History, c: int, a: TokenId, b: TokenId, first: Choices, first': Choices, second: Choices, second': Choices)
    requires WellFormed(h) && TokenIsKept(h, c, a) && TokenIsKept(h, c, b)
    requires SameChoices(h, c, first, first') && SameChoices(h, c, second, second')
    ensures Separation(first', second', NewTokenId(h, c, a), NewTokenId(h, c, b)) == Separation(first, second, a, b)
  {
    hide SameChoices, NewTokenId, TokenIsKept, Agree;
    RenumberingIsMonotone(h, c, a, b);
    SameChoice(h, c, first, first', b);
    SameChoice(h, c, second, second', a);
    SameAgreement(h, c, first, first', second, second');
  }

  // The verdict about kept tokens is the same, as long as no conflict was noticed.
  lemma TruncationKeepsSeparation(h: History, c: int, a: TokenId, b: TokenId)
    requires WellFormed(h) && Layered(h) && TokenIsKept(h, c, a) && TokenIsKept(h, c, b)
    requires Recorded(h, |h.events|).Some?
    ensures var h', a', b' := Truncated(h, c), NewTokenId(h, c, a), NewTokenId(h, c, b);
            && WellFormed(h') && IsToken(h', a') && IsToken(h', b') && Recorded(h', |h'.events|).Some?
            && TrackedSeparation(h', true, a', b') == TrackedSeparation(h, true, a, b)
  {
    var h', e, f := Truncated(h, c), h.creators[a], h.creators[b];
    SameRecordOf(h, c, e);
    SameRecordOf(h, c, f);
    NewToken(h, c, a);
    NewToken(h, c, b);
    hide Layered, Recorded, SameChoices, NewTokenId, Truncated, Separation;
    var choices, choices' := Recorded(h, |h.events|).value, Recorded(h', |h'.events|).value;
    SameVerdict(h, c, a, b, choices[e], choices'[NewEventId(h, c, e)], choices[f], choices'[NewEventId(h, c, f)]);
  }

  // ----- it is all that can be done without later generations

  ghost function EarlierTokens(h: History, c: int): set<TokenId>
    requires WellFormed(h)
  {
    set t | 0 <= t < |h.creators| && TokenGeneration(h, t) < c
  }

  // The truncated evolution as a system with the generation limit c that has nothing left to do.
  ghost function FinishedState(s: Snapshot, c: int): Snapshot
    requires TokensAreRight(s) && WellFormed(Truncated(s.history, c))
  {
    TruncatedState(s, c).(indexed := EarlierTokens(Truncated(s.history, c), c))
  }

  // Tokens before a complete generation were looked at, if they can be consumed any number of times.
  lemma EarlierAreIndexed(s: Snapshot, c: int, t: TokenId)
    requires Invariant(s) && FrozenUpTo(s, c) && s.limit.None? && IsToken(s.history, t)
    ensures TokenGeneration(s.history, t) < c ==> t in s.indexed && t !in s.unindexed
  {
    if TokenGeneration(s.history, t) < c {
      assert Eligible(s, t);
    }
  }

  // So their matches became events.
  lemma EarlierMatchHappened(s: Snapshot, c: int, m: Match)
    requires Invariant(s) && QueueIsComplete(s) && FrozenUpTo(s, c) && s.limit.None?
    requires AreTokens(s.history, m.inputs) && s.Space(s.contents.Keys).Allows(m)
    requires forall i :: 0 <= i < |m.inputs| ==> TokenGeneration(s.history, m.inputs[i]) < c
    ensures Instantiated(s.history, m) && NextGeneration(s.history, m.inputs) <= c
  {
    NextGenerationIsNextLayer(s.history, m.inputs);
    forall i | 0 <= i < |m.inputs|
      ensures m.inputs[i] in s.indexed && m.inputs[i] !in s.unindexed
    {
      EarlierAreIndexed(s, c, m.inputs[i]);
    }
    assert s.Space(s.indexed).Allows(m);
    assert m in s.queue ==> EventGeneration(s, m) > c;
  }

  lemma KeptEventHappened(s: Snapshot, c: int, m: Match)
    requires TokensAreRight(s) && Instantiated(s.history, m)
    requires AreTokens(s.history, m.inputs) && NextGeneration(s.history, m.inputs) <= c
    ensures Instantiated(Truncated(s.history, c), RenumberedMatch(s.history, c, m))
  {
    var h := s.history;
    var e :| 0 <= e < |h.events| && h.events[e].rule == m.rule && h.events[e].inputs == m.inputs;
    NewEvent(h, c, e);
    var e', events' := NewEventId(h, c, e), Truncated(h, c).events;
    assert events'[e'].rule == m.rule && events'[e'].inputs == Renumbered(h, c, m.inputs);
  }

  // A match of the truncated evolution is a match of the whole one.
  lemma OldMatch(s: Snapshot, c: int, m: Match)
    requires TokensAreRight(s) && TrackingIsIntact(s) && AreKept(s.history, c, m.inputs)
    requires WellFormed(Truncated(s.history, c))
    requires FinishedState(s, c).Space(FinishedState(s, c).indexed).Allows(RenumberedMatch(s.history, c, m))
    ensures s.Space(s.contents.Keys).Allows(m) && AreTokens(s.history, m.inputs)
    ensures forall i :: 0 <= i < |m.inputs| ==> TokenGeneration(s.history, m.inputs[i]) < c
  {
    var h, s', m' := s.history, FinishedState(s, c), RenumberedMatch(s.history, c, m);
    forall i | 0 <= i < |m.inputs|
      ensures m.inputs[i] in s.contents && TokenGeneration(h, m.inputs[i]) < c && m'.inputs[i] in s'.contents
    {
      assert TokenIsKept(h, c, m.inputs[i]) && m'.inputs[i] in s'.indexed;
      SameGeneration(h, c, m.inputs[i]);
      ContentsAreKept(s, c);
    }
    MatchFits(s, c, m);
    OldMatchIsSelected(s, c, m);
  }

  lemma MatchFits(s: Snapshot, c: int, m: Match)
    requires TokensAreRight(s) && AreKept(s.history, c, m.inputs) && WellFormed(Truncated(s.history, c))
    requires FinishedState(s, c).Space(FinishedState(s, c).indexed).Fits(RenumberedMatch(s.history, c, m))
    ensures s.Space(s.contents.Keys).Fits(m)
  {
    KnownPools(s, c);
    SameFit(s, c, s.contents.Keys, TruncatedState(s, c).contents.Keys, m);
    ContentsAreKept(s, c);
    var m' := RenumberedMatch(s.history, c, m);
    forall i | 0 <= i < |m'.inputs|
      ensures m'.inputs[i] in TruncatedState(s, c).contents
    {
      assert TokenIsKept(s.history, c, m.inputs[i]);
    }
  }

  lemma OldMatchIsSelected(s: Snapshot, c: int, m: Match)
    requires TokensAreRight(s) && TrackingIsIntact(s) && AreKept(s.history, c, m.inputs)
    requires WellFormed(Truncated(s.history, c)) && 0 <= m.rule < |s.rules|
    requires SelectedBy(s.rules[m.rule].selection, SeparationView(Truncated(s.history, c), s.tracksChoices),
                        Renumbered(s.history, c, m.inputs))
    ensures SelectedBy(s.rules[m.rule].selection, SeparationView(s.history, s.tracksChoices), m.inputs)
  {
    var h := s.history;
    if s.rules[m.rule].selection == SelectSpacelike {
      forall i, j | 0 <= i < j < |m.inputs|
        ensures SpacelikeIn(SeparationView(h, s.tracksChoices), m.inputs[i], m.inputs[j])
      {
        var a, b := m.inputs[i], m.inputs[j];
        assert TokenIsKept(h, c, a) && TokenIsKept(h, c, b);
        assert SpacelikeIn(SeparationView(Truncated(h, c), s.tracksChoices),
                           Renumbered(h, c, m.inputs)[i], Renumbered(h, c, m.inputs)[j]);
        UntrackedIsNotSpacelike(Truncated(h, c), s.tracksChoices, NewTokenId(h, c, a), NewTokenId(h, c, b));
        if s.tracksChoices {
          TruncationKeepsSeparation(h, c, a, b);
        }
      }
    }
  }

  lemma UntrackedIsNotSpacelike(h: History, tracksChoices: bool, a: TokenId, b: TokenId)
    requires SpacelikeIn(SeparationView(h, tracksChoices), a, b)
    ensures tracksChoices
  {
  }

  // With unlimited destroyers, the truncated evolution is a state that a system with the generation limit c can be
  // in, and every match of its tokens is one of its events.
  lemma TruncatedIsFinished(s: Snapshot, c: int)
    requires Invariant(s) && QueueIsComplete(s) && FrozenUpTo(s, c) && s.limit.None? && TrackingIsIntact(s)
    ensures WellFormed(Truncated(s.history, c))
    ensures Invariant(FinishedState(s, c)) && QueueIsComplete(FinishedState(s, c)) && FinishedState(s, c).queue == {}
    ensures forall m' :: FinishedState(s, c).Space(FinishedState(s, c).indexed).Allows(m') ==>
              Instantiated(Truncated(s.history, c), m')
  {
    var h, s' := s.history, TruncatedState(s, c);
    TruncatedIsLayered(h, c);
    TruncatedIsEvolution(s, c);
    FinishedIsInvariant(s, c);
    forall m' | FinishedState(s, c).Space(FinishedState(s, c).indexed).Allows(m')
      ensures Instantiated(Truncated(h, c), m')
    {
      FinishedMatchHappened(s, c, m');
    }
  }

  lemma FinishedMatchHappened(s: Snapshot, c: int, m': Match)
    requires Invariant(s) && QueueIsComplete(s) && FrozenUpTo(s, c) && s.limit.None? && TrackingIsIntact(s)
    requires WellFormed(Truncated(s.history, c))
    requires FinishedState(s, c).Space(FinishedState(s, c).indexed).Allows(m')
    ensures Instantiated(Truncated(s.history, c), m')
  {
    forall i | 0 <= i < |m'.inputs|
      ensures IsToken(Truncated(s.history, c), m'.inputs[i])
    {
      assert m'.inputs[i] in FinishedState(s, c).indexed;
    }
    var inputs := OldTokens(s.history, c, m'.inputs);
    var m := Match(m'.rule, inputs);
    assert RenumberedMatch(s.history, c, m) == m';
    hide IsMatch, Invariant, QueueIsComplete, FrozenUpTo;
    OldMatch(s, c, m);
    EarlierMatchHappened(s, c, m);
    KeptEventHappened(s, c, m);
  }

  lemma FinishedIsInvariant(s: Snapshot, c: int)
    requires TokensAreRight(s) && NoEventTwice(s) && s.limit.None? && WellFormed(Truncated(s.history, c))
    requires TokensAreRight(TruncatedState(s, c)) && NoEventTwice(TruncatedState(s, c))
    ensures Invariant(FinishedState(s, c))
  {
    var s' := FinishedState(s, c);
    hide WellFormed, Layered, Truncated;
    forall t
      ensures Eligible(s', t) <==> t in s'.indexed
    {
    }
  }
}
