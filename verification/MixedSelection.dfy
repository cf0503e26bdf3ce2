/**
  A system in which one rule merges branches while another one asks for spacelike inputs.

  Two events consume the first token, so that there are two branches. A match of the third rule merges them,
  and a match of the last rule, about two other initial tokens, is pending at the same time. Once the branches
  are merged, a conflict is noticed, and every separation is unknown. The other match stays in the queue
  although it would not be found any more.
 */
module MixedSelection {
  import opened Types
  import opened CausalHistory
  import opened DestroyerChoices
  import opened Matching
  import opened TokenEventGraph
  import opened Evolution

  // The first two rules consume the same token, the third one merges what they created. The last one is
  // about two other tokens.
  ghost function Rules(): seq<Rule> {
    [Rule([[10]], [[11]], SelectAll), Rule([[10]], [[12]], SelectAll), Rule([[11], [12]], [], SelectAll),
     Rule([[20], [21]], [], SelectSpacelike)]
  }

  ghost function Tokens(): Contents {
    map[0 := [10], 1 := [20], 2 := [21], 3 := [11], 4 := [12]]
  }

  ghost function Branched(): History {
    History([Event(INITIAL_CONDITION_RULE, [], [0, 1, 2], 0), Event(0, [0], [3], 1), Event(1, [0], [4], 1)],
            [0, 0, 0, 1, 2])
  }

  ghost function Merged(): History {
    History(Branched().events + [Event(2, [3, 4], [], 2)], Branched().creators)
  }

  ghost function Merging(): Match {
    Match(2, [3, 4])
  }

  ghost function Selective(): Match {
    Match(3, [1, 2])
  }

  // At most two destroyers per token, and no generations beyond the second one.
  ghost function System(h: History, queue: set<Match>): Snapshot {
    Snapshot(Rules(), Tokens(), h, true, 2, Some(2), {1, 2, 3, 4}, {}, queue, {})
  }

  // ----- the history

  lemma BranchedIsWellFormed()
    ensures WellFormed(Branched())
  {
  }

  lemma BranchedIsRight()
    ensures WellFormed(Branched())
    ensures NextGeneration(Branched(), [0]) == 1 && NextGeneration(Branched(), [3, 4]) == 2
  {
    BranchedIsWellFormed();
    hide WellFormed;
    assert [3, 4][..1] == [3] && [3][..0] == [] && [0][..0] == [];
    assert NextGeneration(Branched(), []) == 0;
    assert NextGeneration(Branched(), [0]) == 1;
    assert NextGeneration(Branched(), [3]) == 2;
  }

  lemma BranchedIsLayered()
    ensures WellFormed(Branched()) && Layered(Branched())
  {
    BranchedIsRight();
    assert NextGeneration(Branched(), []) == 0;
  }

  lemma BranchedCounts()
    ensures forall t :: DestroyerCount(Branched().events, t) == if t == 0 then 2 else 0
  {
    var events := Branched().events;
    forall t
      ensures DestroyerCount(events, t) == if t == 0 then 2 else 0
    {
      DestroyerCountOfAppended([], events[0], t);
      DestroyerCountOfAppended([events[0]], events[1], t);
      DestroyerCountOfAppended([events[0], events[1]], events[2], t);
      assert [] + [events[0]] == [events[0]];
      assert [events[0]] + [events[1]] == [events[0], events[1]];
      assert [events[0], events[1]] + [events[2]] == events;
    }
  }

  lemma MergedIsAppended()
    ensures WellFormed(Branched()) && WellFormed(Merged()) && AreTokens(Branched(), [3, 4])
    ensures Merged() == Appended(Branched(), 2, [3, 4], 0)
  {
    BranchedIsRight();
    hide WellFormed, NextGeneration;
    AppendedIsWellFormed(Branched(), 2, [3, 4], 0);
    var h := Appended(Branched(), 2, [3, 4], 0);
    assert h.events == Merged().events && h.creators == Merged().creators;
    assert IdsFrom(5, 0) == [] && Repeated(3, 0) == [];
  }

  // ----- what is noticed

  // Nothing was merged yet, and the initial tokens depend on nothing.
  lemma BranchedIsTracked()
    ensures WellFormed(Branched()) && Recorded(Branched(), 3).Some?
    ensures TrackedSeparation(Branched(), true, 1, 2) == Spacelike
  {
    var h := Branched();
    BranchedIsRight();
    hide WellFormed;
    SpacelikeIsRecorded(h, 3);
    RecordedNamesConsumers(h, 3);
    var first := Recorded(h, 3).value[0];
    PastIsEventSet(h, 0);
    forall t
      ensures t !in first
    {
      assert NamesConsumers(h, 0, first);
    }
  }

  lemma BranchRecord(choices: seq<Choices>, e: EventId)
    requires WellFormed(Branched()) && |choices| == 3 && AllNameConsumers(Branched(), choices) && 1 <= e <= 2
    ensures 0 in choices[e] && choices[e][0] == e
  {
    var h := Branched();
    PastIsClosed(h, e);
    PastIsEventSet(h, e);
    assert NamesConsumers(h, e, choices[e]);
    assert Consumes(h, e, 0);
    var f := choices[e][0];
    if f != e {
      var t := PastMember(h, e, f);
      PastIsEventSet(h, 0);
    }
  }

  // The two branches need different destroyers of the first token.
  lemma MergedIsNoticed()
    ensures WellFormed(Merged()) && Recorded(Merged(), 4).None?
  {
    var h, h' := Branched(), Merged();
    MergedIsAppended();
    BranchedIsTracked();
    hide WellFormed;
    RecordedIsStable(h, h', 3);
    var choices := Recorded(h', 3).value;
    RecordedNamesConsumers(h, 3);
    BranchRecord(choices, 1);
    BranchRecord(choices, 2);
    RecordedIsFromEarlier(h', 3);
    MergeOutcome(choices, h'.creators, h'.events[3].inputs, 3, 2);
  }

  // ----- the two states

  // Only the last two rules have matches among the tokens that are left.
  lemma FittingMatches(h: History, queue: set<Match>, x: Match)
    requires var s := System(h, queue); s.Space(s.indexed).Fits(x)
    ensures x == Merging() || x == Selective()
  {
    var full :| Explains(full, Rules()[x.rule].inputs, Tokens(), x.inputs);
    forall i | 0 <= i < |x.inputs|
      ensures x.inputs[i] in {1, 2, 3, 4} && Tokens()[x.inputs[i]][0] == Rules()[x.rule].inputs[i][0]
    {
      assert Rename(full, Rules()[x.rule].inputs[i][0]) == Tokens()[x.inputs[i]][0];
    }
    assert |x.inputs| == |Rules()[x.rule].inputs|;
    assert x.rule == 2 ==> x.inputs == [x.inputs[0], x.inputs[1]] == [3, 4];
    assert x.rule == 3 ==> x.inputs == [x.inputs[0], x.inputs[1]] == [1, 2];
    assert x.rule != 2 ==> x.rule == 3;
  }

  lemma BothFit(h: History, queue: set<Match>)
    ensures var s := System(h, queue); s.Space(s.indexed).Fits(Merging()) && s.Space(s.indexed).Fits(Selective())
  {
    var s := System(h, queue);
    assert RenameVector(map[], [11]) == [11] && RenameVector(map[], [12]) == [12];
    assert RenameVector(map[], [20]) == [20] && RenameVector(map[], [21]) == [21];
    assert Explains(map[], s.rules[2].inputs, s.contents, [3, 4]);
    assert Explains(map[], s.rules[3].inputs, s.contents, [1, 2]);
  }

  lemma BeforeIsRight(queue: set<Match>)
    ensures var s := System(Branched(), queue);
            TokensAreRight(s) && IndexIsRight(s) && LimitIsKept(s) && NoEventTwice(s)
  {
    BranchedIsLayered();
    BranchedCounts();
    hide WellFormed, Layered, DestroyerCount;
  }

  lemma BeforeIsInvariant()
    ensures var s := System(Branched(), {Merging(), Selective()}); Invariant(s) && QueueIsComplete(s)
  {
    var h := Branched();
    var s := System(h, {Merging(), Selective()});
    BeforeIsRight(s.queue);
    BranchedIsTracked();
    BothFit(h, s.queue);
    hide TokensAreRight, IndexIsRight, LimitIsKept, NoEventTwice, WellFormed, TrackedSeparation, Recorded;
    forall m | m in s.queue
      ensures IsPending(s, m)
    {
      assert s.Space(s.indexed).Allows(m);
    }
    forall m | s.Space(s.indexed).Allows(m)
      ensures m in s.queue
    {
      assert s.Space(s.indexed).Fits(m);
      FittingMatches(h, s.queue, m);
    }
  }

  // The merging match becomes an event. Nothing is used up, so the other one stays pending.
  lemma MergingHappens()
    ensures var s, s' := System(Branched(), {Merging(), Selective()}), System(Merged(), {Selective()});
            TokensAreRight(s) && AreTokens(Branched(), [3, 4]) && IsEvent(s, s', Merging(), 0)
  {
    var s, s' := System(Branched(), {Merging(), Selective()}), System(Merged(), {Selective()});
    BeforeIsRight(s.queue);
    MergedIsAppended();
    BranchedCounts();
    hide TokensAreRight, WellFormed, Layered, DestroyerCount;
    forall t
      ensures !IsSaturatedBy(s', Merging(), t)
    {
      DestroyerCountOfAppended(Branched().events, Merged().events[3], t);
    }
  }

  // Of unknown separations, none is spacelike.
  lemma SelectiveIsNotAllowed(queue: set<Match>)
    ensures var s := System(Merged(), queue);
            && WellFormed(s.history) && !TrackingIsIntact(s)
            && !s.Space(EligibleTokens(s)).Allows(Selective())
            && !IgnoresSeparation(s.rules, Selective())
  {
    var s := System(Merged(), queue);
    MergedIsNoticed();
    hide WellFormed, Recorded;
    assert !SpacelikeIn(s.Space(EligibleTokens(s)).view, Selective().inputs[0], Selective().inputs[1]);
  }

  // Afterwards the other match is pending, although it would not be found any more.
  lemma SelectiveMatchStaysPending()
    ensures var s, s' := System(Branched(), {Merging(), Selective()}), System(Merged(), {Selective()});
            && Invariant(s) && QueueIsComplete(s) && QueueIsExact(s)
            && AreTokens(s.history, [3, 4]) && IsEvent(s, s', Merging(), 0)
            && Invariant(s') && QueueIsComplete(s') && !TrackingIsIntact(s')
            && Selective() in s'.queue && !s'.Space(EligibleTokens(s')).Allows(Selective()) && !QueueIsExact(s')
  {
    var s, s' := System(Branched(), {Merging(), Selective()}), System(Merged(), {Selective()});
    BeforeIsInvariant();
    BranchedIsTracked();
    MergingHappens();
    SelectiveIsNotAllowed(s'.queue);
    assert CanHappen(s, Merging());
    hide Branched, Merged, Invariant, QueueIsComplete, IsEvent, CanHappen, QueueIsExact, Recorded, EligibleTokens;
    EventKeepsInvariant(s, s', Merging(), 0);
    QueueIsExactIff(s);
    QueueIsExactIff(s');
  }
}
