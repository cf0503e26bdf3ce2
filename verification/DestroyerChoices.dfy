/**
  What the engine records about an event, and what the records mean: the destroyer that has to be
  chosen for each token the event depends on. Records are built by merging the records of the
  creators of the event's inputs, and two tokens are compared through two records only.
 */
module DestroyerChoices {
  import opened Types
  import opened CausalHistory

  type Choices = map<TokenId, EventId>

  ghost predicate Agree(m: Choices, d: Choices) {
    forall t :: t in m && t in d ==> m[t] == d[t]
  }

  ghost predicate InputsKnown(choices: seq<Choices>, creators: seq<EventId>, inputs: seq<TokenId>) {
    forall i :: 0 <= i < |inputs| ==> 0 <= inputs[i] < |creators| && 0 <= creators[inputs[i]] < |choices|
  }

  ghost function InputChoices(choices: seq<Choices>, creators: seq<EventId>, inputs: seq<TokenId>, i: nat): Choices
    requires InputsKnown(choices, creators, inputs) && i < |inputs|
  {
    choices[creators[inputs[i]]]
  }

  // The record of event e after merging its first n inputs, or None once a conflict was noticed.
  ghost function Merge(choices: seq<Choices>, creators: seq<EventId>, inputs: seq<TokenId>, e: EventId, n: nat)
    : Option<Choices>
    requires InputsKnown(choices, creators, inputs) && n <= |inputs|
  {
    if n == 0 then Some(map[])
    else
      match Merge(choices, creators, inputs, e, n - 1)
      case None => None
      case Some(m) =>
        var marked := m[inputs[n - 1] := e];
        var d := InputChoices(choices, creators, inputs, n - 1);
        if Agree(marked, d) then Some(marked + d) else None
  }

  // The records of the first n events, or None if any of them had a noticed conflict.
  ghost function Recorded(h: History, n: nat): (r: Option<seq<Choices>>)
    requires WellFormed(h) && n <= |h.events|
    ensures r.Some? ==> |r.value| == n
  {
    if n == 0 then Some([])
    else
      match Recorded(h, n - 1)
      case None => None
      case Some(choices) =>
        EventInputsKnown(h, choices, n - 1);
        match Merge(choices, h.creators, h.events[n - 1].inputs, n - 1, |h.events[n - 1].inputs|)
        case None => None
        case Some(m) => Some(choices + [m])
  }

  lemma EventInputsKnown(h: History, choices: seq<Choices>, e: EventId)
    requires WellFormed(h) && 0 <= e < |h.events| && |choices| >= e
    ensures InputsKnown(choices, h.creators, h.events[e].inputs)
  {
    forall i | 0 <= i < |h.events[e].inputs|
      ensures 0 <= h.events[e].inputs[i] < |h.creators| && 0 <= h.creators[h.events[e].inputs[i]] < |choices|
    {
      assert Consumes(h, e, h.events[e].inputs[i]);
    }
  }

  // How two records decide about two tokens.
  ghost function Separation(first: Choices, second: Choices, a: TokenId, b: TokenId): SeparationType {
    if a == b then Identical
    else if b in first || a in second then Timelike
    else if !Agree(first, second) then Branchlike
    else Spacelike
  }

  // The engine's verdict about two tokens of a history.
  ghost function TrackedSeparation(h: History, tracksChoices: bool, a: TokenId, b: TokenId): SeparationType
    requires WellFormed(h) && IsToken(h, a) && IsToken(h, b)
  {
    var recorded := Recorded(h, |h.events|);
    if !tracksChoices || recorded.None? then Unknown
    else Separation(recorded.value[h.creators[a]], recorded.value[h.creators[b]], a, b)
  }

  // ----- what a record says

  // A record names, for exactly the tokens consumed in the past of e, an event there that consumes it.
  ghost predicate NamesConsumers(h: History, e: EventId, m: Choices)
    requires WellFormed(h) && 0 <= e < |h.events|
  {
    PastIsEventSet(h, e);
    && (forall t :: t in m ==> m[t] in Past(h, e) && Consumes(h, m[t], t))
    && (forall f, t :: f in Past(h, e) && Consumes(h, f, t) ==> t in m)
  }

  // The named consumer is the only one.
  ghost predicate Records(h: History, e: EventId, m: Choices)
    requires WellFormed(h) && 0 <= e < |h.events|
  {
    PastIsEventSet(h, e);
    && NamesConsumers(h, e, m)
    && (forall f, t :: f in Past(h, e) && Consumes(h, f, t) ==> t in m && m[t] == f)
  }

  lemma RecordsIffConflictFree(h: History, e: EventId, m: Choices)
    requires WellFormed(h) && 0 <= e < |h.events| && NamesConsumers(h, e, m)
    ensures EventSet(h, Past(h, e))
    ensures Records(h, e, m) <==> ConflictFree(h, Past(h, e))
  {
    PastIsEventSet(h, e);
  }

  // An event whose past consumes no token twice has a record that names unique consumers.
  lemma RecordExists(h: History, e: EventId) returns (m: Choices)
    requires WellFormed(h) && 0 <= e < |h.events| && EventSet(h, Past(h, e)) && ConflictFree(h, Past(h, e))
    ensures Records(h, e, m)
  {
    var consumed := set f, i | f in Past(h, e) && 0 <= i < |h.events[f].inputs| :: h.events[f].inputs[i];
    forall t
      ensures t in consumed <==> exists f :: f in Past(h, e) && Consumes(h, f, t)
    {
      if f :| f in Past(h, e) && Consumes(h, f, t) {
        var i :| 0 <= i < |h.events[f].inputs| && h.events[f].inputs[i] == t;
        assert t in consumed;
      }
    }
    m := map t | t in consumed :: var f :| f in Past(h, e) && Consumes(h, f, t); f;
  }

  // ----- when merging notices a conflict

  // The conflicts that merging in input order notices.
  ghost predicate NoClash(choices: seq<Choices>, creators: seq<EventId>, inputs: seq<TokenId>, n: nat)
    requires InputsKnown(choices, creators, inputs) && n <= |inputs|
  {
    forall i, j :: 0 <= i < j < n ==>
      && inputs[i] !in InputChoices(choices, creators, inputs, j)
      && Agree(InputChoices(choices, creators, inputs, i), InputChoices(choices, creators, inputs, j))
  }

  ghost predicate InSomeInput(choices: seq<Choices>, creators: seq<EventId>, inputs: seq<TokenId>, n: nat, t: TokenId)
    requires InputsKnown(choices, creators, inputs) && n <= |inputs|
  {
    exists i :: 0 <= i < n && t in InputChoices(choices, creators, inputs, i)
  }

  ghost predicate IsMerged(
    choices: seq<Choices>, creators: seq<EventId>, inputs: seq<TokenId>, e: EventId, n: nat, m: Choices)
    requires InputsKnown(choices, creators, inputs) && n <= |inputs|
  {
    && (forall t :: t in m <==> t in inputs[..n] || InSomeInput(choices, creators, inputs, n, t))
    && (forall t :: t in inputs[..n] ==> t in m && m[t] == e)
    && (forall i, t :: 0 <= i < n && t in InputChoices(choices, creators, inputs, i) && t !in inputs[..n] ==>
          t in m && m[t] == InputChoices(choices, creators, inputs, i)[t])
  }

  // The records of the inputs neither mention the new event nor the token they belong to.
  ghost predicate FromEarlier(choices: seq<Choices>, creators: seq<EventId>, inputs: seq<TokenId>, e: EventId)
    requires InputsKnown(choices, creators, inputs)
  {
    forall i :: 0 <= i < |inputs| ==>
      var d := InputChoices(choices, creators, inputs, i);
      inputs[i] !in d && forall t :: t in d ==> d[t] != e
  }

  // Merging gives up exactly on the clashes above. It does not notice that an input is consumed in
  // the past of an input listed before it: it then silently replaces the recorded destroyer.
  lemma {:induction false} MergeOutcome(
    choices: seq<Choices>, creators: seq<EventId>, inputs: seq<TokenId>, e: EventId, n: nat)
    requires InputsKnown(choices, creators, inputs) && n <= |inputs|
    requires FromEarlier(choices, creators, inputs, e)
    ensures var r := Merge(choices, creators, inputs, e, n);
            && (r.Some? <==> NoClash(choices, creators, inputs, n))
            && (r.Some? ==> IsMerged(choices, creators, inputs, e, n, r.value))
  {
    if n > 0 {
      MergeOutcome(choices, creators, inputs, e, n - 1);
      var previous := Merge(choices, creators, inputs, e, n - 1);
      if previous.Some? {
        MergeStep(choices, creators, inputs, e, n, previous.value);
      }
    }
  }

  lemma MergeStep(
    choices: seq<Choices>, creators: seq<EventId>, inputs: seq<TokenId>, e: EventId, n: nat, m: Choices)
    requires InputsKnown(choices, creators, inputs) && 0 < n <= |inputs|
    requires FromEarlier(choices, creators, inputs, e)
    requires NoClash(choices, creators, inputs, n - 1) && IsMerged(choices, creators, inputs, e, n - 1, m)
    ensures var t := inputs[n - 1];
            var d := InputChoices(choices, creators, inputs, n - 1);
            && (Agree(m[t := e], d) <==> NoClash(choices, creators, inputs, n))
            && (Agree(m[t := e], d) ==> IsMerged(choices, creators, inputs, e, n, m[t := e] + d))
  {
    var t := inputs[n - 1];
    var d := InputChoices(choices, creators, inputs, n - 1);
    var marked := m[t := e];
    assert inputs[..n] == inputs[..n - 1] + [t];
    if Agree(marked, d) {
      forall i | 0 <= i < n - 1
        ensures inputs[i] !in d && Agree(InputChoices(choices, creators, inputs, i), d)
      {
        assert inputs[i] in inputs[..n - 1];
      }
    }
    if NoClash(choices, creators, inputs, n) {
      forall s | s in marked && s in d
        ensures marked[s] == d[s]
      {
        assert forall i :: 0 <= i < n - 1 ==> inputs[i] !in d;
        assert s !in inputs[..n - 1] && s != t;
        var i :| 0 <= i < n - 1 && s in InputChoices(choices, creators, inputs, i);
      }
      MergedKeys(choices, creators, inputs, e, n, m);
    }
  }

  lemma MergedKeys(
    choices: seq<Choices>, creators: seq<EventId>, inputs: seq<TokenId>, e: EventId, n: nat, m: Choices)
    requires InputsKnown(choices, creators, inputs) && 0 < n <= |inputs|
    requires FromEarlier(choices, creators, inputs, e)
    requires NoClash(choices, creators, inputs, n) && IsMerged(choices, creators, inputs, e, n - 1, m)
    requires Agree(m[inputs[n - 1] := e], InputChoices(choices, creators, inputs, n - 1))
    ensures IsMerged(choices, creators, inputs, e, n,
                     m[inputs[n - 1] := e] + InputChoices(choices, creators, inputs, n - 1))
  {
    var t := inputs[n - 1];
    var d := InputChoices(choices, creators, inputs, n - 1);
    var merged := m[t := e] + d;
    assert inputs[..n] == inputs[..n - 1] + [t];
    forall s
      ensures InSomeInput(choices, creators, inputs, n, s) <==>
              InSomeInput(choices, creators, inputs, n - 1, s) || s in d
    {
      if s in d {
        assert s in InputChoices(choices, creators, inputs, n - 1);
      }
    }
    forall s | s in inputs[..n]
      ensures s in merged && merged[s] == e
    {
      var i :| 0 <= i < n && inputs[i] == s;
      assert s !in d;
    }
  }

  // ----- records of whole evolutions

  ghost predicate AllNameConsumers(h: History, choices: seq<Choices>)
    requires WellFormed(h) && |choices| <= |h.events|
  {
    forall e :: 0 <= e < |choices| ==> NamesConsumers(h, e, choices[e])
  }

  lemma {:induction false} RecordedNamesConsumers(h: History, n: nat)
    requires WellFormed(h) && n <= |h.events| && Recorded(h, n).Some?
    ensures AllNameConsumers(h, Recorded(h, n).value)
    decreases n, 0
  {
    if n > 0 {
      var choices := Recorded(h, n - 1).value;
      var inputs := h.events[n - 1].inputs;
      RecordedNamesConsumers(h, n - 1);
      RecordedIsFromEarlier(h, n - 1);
      MergeOutcome(choices, h.creators, inputs, n - 1, |inputs|);
      var m := Merge(choices, h.creators, inputs, n - 1, |inputs|).value;
      MergedNamesConsumers(h, n - 1, choices, m);
      AppendNamesConsumers(h, choices, m);
    }
  }

  lemma AppendNamesConsumers(h: History, choices: seq<Choices>, m: Choices)
    requires WellFormed(h) && |choices| < |h.events| && AllNameConsumers(h, choices)
    requires NamesConsumers(h, |choices|, m)
    ensures AllNameConsumers(h, choices + [m])
  {
    var all := choices + [m];
    forall e | 0 <= e < |all|
      ensures NamesConsumers(h, e, all[e])
    {
      assert e < |choices| ==> all[e] == choices[e];
    }
  }

  // The records of the creators are never about the new event.
  lemma {:induction false} RecordedIsFromEarlier(h: History, e: EventId)
    requires WellFormed(h) && 0 <= e < |h.events| && Recorded(h, e).Some?
    ensures InputsKnown(Recorded(h, e).value, h.creators, h.events[e].inputs)
    ensures FromEarlier(Recorded(h, e).value, h.creators, h.events[e].inputs, e)
    decreases e, 1
  {
    var choices := Recorded(h, e).value;
    var inputs := h.events[e].inputs;
    EventInputsKnown(h, choices, e);
    RecordedNamesConsumers(h, e);
    forall i | 0 <= i < |inputs|
      ensures var d := InputChoices(choices, h.creators, inputs, i);
              inputs[i] !in d && forall t :: t in d ==> d[t] != e
    {
      assert Consumes(h, e, inputs[i]);
      var c := h.creators[inputs[i]];
      PastIsEventSet(h, c);
    }
  }

  lemma MergedNamesConsumers(h: History, e: EventId, choices: seq<Choices>, m: Choices)
    requires WellFormed(h) && 0 <= e < |h.events| && |choices| == e
    requires AllNameConsumers(h, choices)
    requires InputsKnown(choices, h.creators, h.events[e].inputs)
    requires IsMerged(choices, h.creators, h.events[e].inputs, e, |h.events[e].inputs|, m)
    ensures NamesConsumers(h, e, m)
  {
    var inputs := h.events[e].inputs;
    assert inputs[..|inputs|] == inputs;
    PastIsEventSet(h, e);
    forall t | t in m
      ensures m[t] in Past(h, e) && Consumes(h, m[t], t)
    {
      if t !in inputs {
        var i :| 0 <= i < |inputs| && t in InputChoices(choices, h.creators, inputs, i);
        assert Consumes(h, e, inputs[i]);
        PastContainsInputPast(h, e, inputs[i]);
      }
    }
    forall f, t | f in Past(h, e) && Consumes(h, f, t)
      ensures t in m
    {
      if f != e {
        var a := PastMember(h, e, f);
        var i :| 0 <= i < |inputs| && inputs[i] == a;
        assert t in InputChoices(choices, h.creators, inputs, i);
      }
    }
  }

  // Records of old events do not depend on later events.
  lemma {:induction false} MergeIsStable(
    choices: seq<Choices>, creators: seq<EventId>, creators': seq<EventId>, inputs: seq<TokenId>, e: EventId, n: nat)
    requires InputsKnown(choices, creators, inputs) && n <= |inputs| && creators <= creators'
    ensures InputsKnown(choices, creators', inputs)
    ensures Merge(choices, creators', inputs, e, n) == Merge(choices, creators, inputs, e, n)
  {
    if n > 0 {
      MergeIsStable(choices, creators, creators', inputs, e, n - 1);
    }
  }

  lemma {:induction false} RecordedIsStable(h: History, h': History, n: nat)
    requires WellFormed(h) && WellFormed(h') && Extends(h, h') && n <= |h.events|
    ensures Recorded(h', n) == Recorded(h, n)
  {
    if n > 0 {
      RecordedIsStable(h, h', n - 1);
      if Recorded(h, n - 1).Some? {
        var choices := Recorded(h, n - 1).value;
        var inputs := h.events[n - 1].inputs;
        EventInputsKnown(h, choices, n - 1);
        MergeIsStable(choices, h.creators, h'.creators, inputs, n - 1, |inputs|);
      }
    }
  }

  // With unique consumers, records decide exactly whether two tokens can be present together.
  lemma SpacelikeIffCompatible(h: History, a: TokenId, b: TokenId, first: Choices, second: Choices)
    requires WellFormed(h) && IsToken(h, a) && IsToken(h, b) && a != b
    requires Records(h, h.creators[a], first) && Records(h, h.creators[b], second)
    ensures Separation(first, second, a, b) == Spacelike <==> Compatible(h, a, b)
  {
    PastDoesNotConsume(h, a);
    PastDoesNotConsume(h, b);
    var s := TokenPast(h, a) + TokenPast(h, b);
    if Separation(first, second, a, b) == Spacelike {
      forall e, f, t | e in s && f in s && Consumes(h, e, t) && Consumes(h, f, t)
        ensures e == f
      {
        assert t in first ==> first[t] in TokenPast(h, a);
      }
    }
    if Compatible(h, a, b) {
      forall t | t in first && t in second
        ensures first[t] == second[t]
      {
        assert first[t] in s && second[t] in s;
      }
    }
  }

  ghost predicate AllSpacelikeBelow(h: History, n: nat)
    requires WellFormed(h) && n <= |h.events|
  {
    forall e :: 0 <= e < n ==> SpacelikeEvent(h, e)
  }

  lemma RecordedRecords(h: History, n: nat, e: EventId)
    requires WellFormed(h) && n <= |h.events| && 0 <= e < n
    requires AllSpacelikeBelow(h, n) && Recorded(h, n).Some?
    ensures Records(h, e, Recorded(h, n).value[e])
  {
    RecordedNamesConsumers(h, n);
    PastIsConflictFree(h, e);
    RecordsIffConflictFree(h, e, Recorded(h, n).value[e]);
  }

  // If all inputs could be present together, no conflict is ever noticed.
  lemma {:induction false} SpacelikeIsRecorded(h: History, n: nat)
    requires WellFormed(h) && n <= |h.events| && AllSpacelikeBelow(h, n)
    ensures Recorded(h, n).Some?
  {
    if n > 0 {
      SpacelikeIsRecorded(h, n - 1);
      var e := n - 1;
      assert SpacelikeEvent(h, e);
      var choices := Recorded(h, e).value;
      var inputs := h.events[e].inputs;
      RecordedIsFromEarlier(h, e);
      MergeOutcome(choices, h.creators, inputs, e, |inputs|);
      forall i, j | 0 <= i < j < |inputs|
        ensures Separation(InputChoices(choices, h.creators, inputs, i),
                           InputChoices(choices, h.creators, inputs, j), inputs[i], inputs[j]) == Spacelike
      {
        InputSeparation(h, e, i, j);
      }
    }
  }

  lemma InputSeparation(h: History, e: EventId, i: nat, j: nat)
    requires WellFormed(h) && 0 <= e < |h.events| && i < j < |h.events[e].inputs|
    requires AllSpacelikeBelow(h, e) && Recorded(h, e).Some?
    ensures InputsKnown(Recorded(h, e).value, h.creators, h.events[e].inputs)
    ensures var inputs := h.events[e].inputs;
            assert Consumes(h, e, inputs[i]) && Consumes(h, e, inputs[j]);
            var choices := Recorded(h, e).value;
            inputs[i] != inputs[j] ==>
              (Separation(InputChoices(choices, h.creators, inputs, i),
                          InputChoices(choices, h.creators, inputs, j), inputs[i], inputs[j]) == Spacelike
               <==> Compatible(h, inputs[i], inputs[j]))
  {
    var inputs := h.events[e].inputs;
    var choices := Recorded(h, e).value;
    EventInputsKnown(h, choices, e);
    var a, b := inputs[i], inputs[j];
    assert Consumes(h, e, a) && Consumes(h, e, b);
    RecordedRecords(h, e, h.creators[a]);
    RecordedRecords(h, e, h.creators[b]);
    if a != b {
      SpacelikeIffCompatible(h, a, b, choices[h.creators[a]], choices[h.creators[b]]);
    }
  }

  // No input of e is consumed in the past of an input listed before it, and no input is repeated.
  ghost predicate InputsInCausalOrder(h: History, e: EventId, choices: seq<Choices>)
    requires WellFormed(h) && 0 <= e < |h.events| && InputsKnown(choices, h.creators, h.events[e].inputs)
  {
    var inputs := h.events[e].inputs;
    forall i, j :: 0 <= i < j < |inputs| ==>
      inputs[i] != inputs[j] && inputs[j] !in InputChoices(choices, h.creators, inputs, i)
  }

  ghost predicate AllInputsKnown(h: History, choices: seq<Choices>) {
    forall e :: 0 <= e < |h.events| ==> InputsKnown(choices, h.creators, h.events[e].inputs)
  }

  ghost predicate AllInputsInCausalOrder(h: History, choices: seq<Choices>)
    requires WellFormed(h) && AllInputsKnown(h, choices)
  {
    forall e :: 0 <= e < |h.events| ==> InputsInCausalOrder(h, e, choices)
  }

  lemma RecordsCoverInputs(h: History, choices: seq<Choices>)
    requires WellFormed(h) && |choices| == |h.events|
    ensures AllInputsKnown(h, choices)
  {
    forall e | 0 <= e < |h.events|
      ensures InputsKnown(choices, h.creators, h.events[e].inputs)
    {
      EventInputsKnown(h, choices, e);
    }
  }

  // The exact relation between what the engine notices and what is true: an evolution is
  // spacelike iff no conflict was noticed and no event has inputs in the unnoticed order.
  lemma SpacelikeIffTracked(h: History)
    requires WellFormed(h)
    ensures SpacelikeHistory(h) <==>
            && Recorded(h, |h.events|).Some?
            && (RecordsCoverInputs(h, Recorded(h, |h.events|).value);
                AllInputsInCausalOrder(h, Recorded(h, |h.events|).value))
  {
    if SpacelikeHistory(h) {
      SpacelikeIsRecorded(h, |h.events|);
    }
    if Recorded(h, |h.events|).Some? {
      var choices := Recorded(h, |h.events|).value;
      RecordsCoverInputs(h, choices);
      AllSpacelikeIffInOrder(h, |h.events|, choices);
    }
  }

  lemma {:induction false} AllSpacelikeIffInOrder(h: History, n: nat, choices: seq<Choices>)
    requires WellFormed(h) && n <= |h.events| && Recorded(h, |h.events|) == Some(choices)
    requires AllInputsKnown(h, choices)
    ensures AllSpacelikeBelow(h, n) <==> forall e :: 0 <= e < n ==> InputsInCausalOrder(h, e, choices)
  {
    hide SpacelikeEvent, InputsInCausalOrder, Recorded;
    if n > 0 {
      AllSpacelikeIffInOrder(h, n - 1, choices);
      assert AllSpacelikeBelow(h, n) <==> AllSpacelikeBelow(h, n - 1) && SpacelikeEvent(h, n - 1);
      if AllSpacelikeBelow(h, n - 1) {
        RecordedIsPrefix(h, n - 1, |h.events|);
        RecordedIsPrefix(h, n, |h.events|);
        SpacelikeIffInOrder(h, n - 1, choices);
      }
    }
  }

  lemma {:induction false} RecordedIsPrefix(h: History, m: nat, n: nat)
    requires WellFormed(h) && m <= n <= |h.events| && Recorded(h, n).Some?
    ensures Recorded(h, m).Some? && Recorded(h, m).value == Recorded(h, n).value[..m]
    decreases n
  {
    if m < n {
      RecordedIsPrefix(h, m, n - 1);
    }
  }

  lemma SpacelikeIffInOrder(h: History, e: EventId, choices: seq<Choices>)
    requires WellFormed(h) && 0 <= e < |h.events| && AllSpacelikeBelow(h, e)
    requires |choices| == |h.events| && Recorded(h, e) == Some(choices[..e]) && Recorded(h, e + 1).Some?
    requires InputsKnown(choices, h.creators, h.events[e].inputs)
    ensures SpacelikeEvent(h, e) <==> InputsInCausalOrder(h, e, choices)
  {
    hide Past, InputPast, Compatible, Merge;
    var inputs := h.events[e].inputs;
    RecordedIsFromEarlier(h, e);
    MergeOutcome(choices[..e], h.creators, inputs, e, |inputs|);
    forall i, j | 0 <= i < j < |inputs|
      ensures assert Consumes(h, e, inputs[i]) && Consumes(h, e, inputs[j]);
              inputs[i] != inputs[j] ==>
                (inputs[j] !in InputChoices(choices, h.creators, inputs, i) <==> Compatible(h, inputs[i], inputs[j]))
    {
      InputSeparation(h, e, i, j);
      assert Consumes(h, e, inputs[i]) && Consumes(h, e, inputs[j]);
      InputNotInLater(choices[..e], h.creators, inputs, i, j);
    }
  }

  lemma InputNotInLater(choices: seq<Choices>, creators: seq<EventId>, inputs: seq<TokenId>, i: nat, j: nat)
    requires InputsKnown(choices, creators, inputs) && i < j < |inputs|
    requires NoClash(choices, creators, inputs, |inputs|)
    ensures inputs[i] !in InputChoices(choices, creators, inputs, j)
    ensures Agree(InputChoices(choices, creators, inputs, i), InputChoices(choices, creators, inputs, j))
  {
  }
}
