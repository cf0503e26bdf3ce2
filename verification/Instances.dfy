/** What every event of a run is: an instance of its rule, with new tokens for the outputs of the rule. */
module Instances {
  import opened Types
  import opened CausalHistory
  import opened Matching
  import opened MatchOrder
  import opened FreshNames
  import opened LiveAtoms
  import opened Evolution
  import opened Steps
  import opened OptimizedRuns
  import Graph = TokenEventGraph

  // Read with the substitution, the pattern is the vector.
  ghost predicate IsReadAs(s: Substitution, pattern: AtomsVector, v: AtomsVector) {
    |v| == |pattern| && forall k :: 0 <= k < |v| ==> v[k] == if pattern[k] in s then s[pattern[k]] else pattern[k]
  }

  // Read with the substitution, the patterns are the contents of the tokens, in their order.
  ghost predicate AreReadAs(s: Substitution, patterns: seq<AtomsVector>, contents: Contents, ids: seq<TokenId>) {
    && |ids| == |patterns|
    && forall i :: 0 <= i < |ids| ==> ids[i] in contents && IsReadAs(s, patterns[i], contents[ids[i]])
  }

  // A pattern atom that the outputs have and the inputs do not.
  ghost predicate IsCreatedAtom(rule: Rule, x: Atom) {
    x < 0 && IsInputAtom(rule.outputs, x) && !IsInputAtom(rule.inputs, x)
  }

  // Created atoms have names of their own, beyond start.
  ghost predicate HaveNewNames(rule: Rule, s: Substitution, start: Atom) {
    && (forall x :: IsCreatedAtom(rule, x) ==> x in s && s[x] > start)
    && (forall x, y :: IsCreatedAtom(rule, x) && IsCreatedAtom(rule, y) && x != y ==> s[x] != s[y])
  }

  // No token that was there before the event has an atom beyond start, unless rules name such atoms.
  ghost predicate IsBeyondEarlier(s: Snapshot, e: EventId, start: Atom) {
    RuleAtomsUpTo(s.rules, start) ==> forall t, x ::
      IsToken(s.history, t) && s.history.creators[t] < e && t in s.contents && x in s.contents[t] ==> x <= start
  }

  // One substitution makes the inputs of the rule the inputs of the event, and its outputs the outputs.
  ghost predicate IsInstantiatedBy(s: Snapshot, e: EventId, full: Substitution, start: Atom)
    requires 0 <= e < |s.history.events| && 0 <= s.history.events[e].rule < |s.rules|
  {
    var event, rule := s.history.events[e], s.rules[s.history.events[e].rule];
    && OnPatterns(full) && start >= 1
    && AreReadAs(full, rule.inputs, s.contents, event.inputs)
    && AreReadAs(full, rule.outputs, s.contents, event.outputs)
    && HaveNewNames(rule, full, start) && IsBeyondEarlier(s, e, start)
  }

  ghost predicate IsInstance(s: Snapshot, e: EventId)
    requires 0 <= e < |s.history.events|
  {
    var event := s.history.events[e];
    && 0 <= event.rule < |s.rules| && event.inputs != [] && Distinct(event.inputs)
    && exists full, start :: IsInstantiatedBy(s, e, full, start)
  }

  ghost predicate IsInitialEvent(event: Event) {
    event.rule == INITIAL_CONDITION_RULE && event.inputs == []
  }

  // New tokens are numbered one after another.
  ghost predicate AreConsecutive(ids: seq<TokenId>) {
    forall i, j :: 0 <= i < j < |ids| ==> ids[j] == ids[i] + (j - i)
  }

  ghost predicate EventsAreInstances(s: Snapshot) {
    forall e :: 0 <= e < |s.history.events| ==>
      && AreConsecutive(s.history.events[e].outputs)
      && (IsInitialEvent(s.history.events[e]) || IsInstance(s, e))
  }

  // ----- an event

  lemma InstanceIsStable(s: Snapshot, s': Snapshot, e: EventId)
    requires WellFormed(s.history) && WellFormed(s'.history) && Extends(s.history, s'.history) && s'.rules == s.rules
    requires forall t :: IsToken(s.history, t) ==> t in s.contents && t in s'.contents && s'.contents[t] == s.contents[t]
    requires 0 <= e < |s.history.events| && IsInstance(s, e)
    ensures IsInstance(s', e)
  {
    var event, rule := s.history.events[e], s.rules[s.history.events[e].rule];
    assert s'.history.events[e] == event;
    var full, start :| IsInstantiatedBy(s, e, full, start);
    forall i | 0 <= i < |event.inputs|
      ensures IsToken(s.history, event.inputs[i])
    {
      assert Consumes(s.history, e, event.inputs[i]);
    }
    forall i | 0 <= i < |event.outputs|
      ensures IsToken(s.history, event.outputs[i])
    {
      assert event.outputs[i] in event.outputs;
    }
    EarlierAreOld(s, s', e, start);
    assert IsInstantiatedBy(s', e, full, start);
  }

  lemma EarlierAreOld(s: Snapshot, s': Snapshot, e: EventId, start: Atom)
    requires WellFormed(s.history) && WellFormed(s'.history) && Extends(s.history, s'.history) && s'.rules == s.rules
    requires forall t :: IsToken(s.history, t) ==> t in s.contents && t in s'.contents && s'.contents[t] == s.contents[t]
    requires 0 <= e < |s.history.events| && IsBeyondEarlier(s, e, start)
    ensures IsBeyondEarlier(s', e, start)
  {
    forall t, x | IsToken(s'.history, t) && s'.history.creators[t] < e && t in s'.contents && x in s'.contents[t]
      ensures RuleAtomsUpTo(s.rules, start) ==> x <= start
    {
      var f := s'.history.creators[t];
      assert t in s'.history.events[f].outputs && s'.history.events[f] == s.history.events[f];
      assert IsToken(s.history, t) && s.history.creators[t] == f;
    }
  }

  // The substitution that explains the inputs and names the created atoms.
  lemma ReadOutputs(rule: Rule, known: Substitution, outputs: seq<AtomsVector>, start: Atom)
    requires AreInstantiated(known, rule, outputs) && forall x :: x in known ==> x < 0 && IsInputAtom(rule.inputs, x)
    requires forall x :: x < 0 && IsInputAtom(rule.inputs, x) ==> x in known && known[x] >= 0
    ensures var names := Naming(Flatten(outputs), start);
            && (forall x :: x in names <==> IsCreatedAtom(rule, x))
            && (forall x :: x in names ==> x !in known)
            && forall i :: 0 <= i < |outputs| ==>
                 IsReadAs(known + names, rule.outputs[i], RenameVector(names, outputs[i]))
  {
    var names := Naming(Flatten(outputs), start);
    NamesAreFresh(Flatten(outputs), start);
    forall x
      ensures x in names <==> IsCreatedAtom(rule, x)
    {
      FlattenMember(outputs, x);
      CreatedAtomsAreLeft(rule, known, outputs, x);
    }
  }

  lemma CreatedAtomsAreLeft(rule: Rule, known: Substitution, outputs: seq<AtomsVector>, x: Atom)
    requires AreInstantiated(known, rule, outputs) && forall y :: y in known ==> y < 0
    requires forall x :: x < 0 && IsInputAtom(rule.inputs, x) ==> x in known && known[x] >= 0
    ensures x < 0 && (exists i :: 0 <= i < |outputs| && x in outputs[i]) <==> IsCreatedAtom(rule, x)
  {
    if x < 0 {
      if i :| 0 <= i < |outputs| && x in outputs[i] {
        var k :| 0 <= k < |outputs[i]| && outputs[i][k] == x;
        assert rule.outputs[i][k] in rule.outputs[i];
        assert rule.outputs[i][k] == x;
      }
      if IsCreatedAtom(rule, x) {
        var i :| 0 <= i < |rule.outputs| && x in rule.outputs[i];
        var k :| 0 <= k < |rule.outputs[i]| && rule.outputs[i][k] == x;
        assert outputs[i][k] == x && x in outputs[i];
      }
    }
  }

  // The explanation of a match, as far as it is about atoms of the inputs.
  lemma ExplanationOf(space: MatchSpace, m: Match) returns (known: Substitution)
    requires space.IsExplained(m) && GroundContents(space.contents)
    ensures Explains(known, space.rules[m.rule].inputs, space.contents, m.inputs)
    ensures AreInstantiated(known, space.rules[m.rule], space.Outputs(m))
    ensures forall x :: x in known ==> x < 0 && IsInputAtom(space.rules[m.rule].inputs, x)
    ensures forall x :: x < 0 && IsInputAtom(space.rules[m.rule].inputs, x) ==> x in known && known[x] >= 0
  {
    var patterns := space.rules[m.rule].inputs;
    var full :| Explains(full, patterns, space.contents, m.inputs);
    known := map x | x in full && IsInputAtom(patterns, x) :: full[x];
    forall i | 0 <= i < |patterns|
      ensures RenameVector(known, patterns[i]) == RenameVector(full, patterns[i])
    {
      assert forall k :: 0 <= k < |patterns[i]| ==> IsInputAtom(patterns, patterns[i][k]);
    }
    OutputsAreInstantiated(space, m, known);
    forall x | x < 0 && IsInputAtom(patterns, x)
      ensures x in known && known[x] >= 0
    {
      InputAtomIsKnown(patterns, space.contents, m.inputs, known, x);
    }
  }

  lemma InputAtomIsKnown(patterns: seq<AtomsVector>, contents: Contents, a: seq<TokenId>, s: Substitution, x: Atom)
    requires Explains(s, patterns, contents, a) && GroundContents(contents) && x < 0 && IsInputAtom(patterns, x)
    ensures x in s && s[x] >= 0
  {
    var i :| 0 <= i < |patterns| && x in patterns[i];
    var k :| 0 <= k < |patterns[i]| && patterns[i][k] == x;
    var t := a[i];
    assert IsGround(contents[t]) && contents[t][k] == Rename(s, x);
  }

  // What happens is an instance of its rule.
  lemma HappenedIsInstance(s: Snapshot, s': Snapshot, m: Match, start: Atom, counter: Atom)
    requires Happened(s, s', m, start, counter) && CounterIsBeyond(s, start)
    ensures |s'.history.events| == |s.history.events| + 1
    ensures IsInstance(s', |s.history.events|) && AreConsecutive(s'.history.events[|s.history.events|].outputs)
  {
    var rule, space := s.rules[m.rule], s.Space(s.indexed);
    HappenedExtends(s, s', m, start, counter);
    HappenedInputs(s, s', m, start, counter);
    EarlierAreWithin(s, s', start);
    var known := ExplanationOf(space, m);
    hide TokensAreRight, IsEvent, CanHappen, GroundContents, WellFormed, Extends, CounterIsBeyond;
    ReadOutputs(rule, known, space.Outputs(m), start);
    var names := Naming(Flatten(space.Outputs(m)), start);
    InputsAreRead(rule, known, names, s'.contents, m.inputs);
    HappenedOutputs(s, s', m, start, counter, known + names);
    NewEventIsInstance(s', |s.history.events|, known, names, Flatten(space.Outputs(m)), start);
  }

  lemma NewEventIsInstance(
    s: Snapshot, e: EventId, known: Substitution, names: Substitution, atoms: seq<Atom>, start: Atom)
    requires 0 <= e < |s.history.events| && 0 <= s.history.events[e].rule < |s.rules| && start >= 1
    requires s.history.events[e].inputs != [] && Distinct(s.history.events[e].inputs)
    requires names == Naming(atoms, start) && OnPatterns(known) && IsBeyondEarlier(s, e, start)
    requires forall x :: x in names <==> IsCreatedAtom(s.rules[s.history.events[e].rule], x)
    requires AreReadAs(known + names, s.rules[s.history.events[e].rule].inputs, s.contents, s.history.events[e].inputs)
    requires AreReadAs(known + names, s.rules[s.history.events[e].rule].outputs, s.contents, s.history.events[e].outputs)
    ensures IsInstance(s, e)
  {
    NamesAreFresh(atoms, start);
    hide Naming, AreReadAs, IsBeyondEarlier;
    assert HaveNewNames(s.rules[s.history.events[e].rule], known + names, start);
    assert IsInstantiatedBy(s, e, known + names, start);
  }

  // The contents of the inputs are the same after the event.
  lemma HappenedInputs(s: Snapshot, s': Snapshot, m: Match, start: Atom, counter: Atom)
    requires Happened(s, s', m, start, counter)
    ensures s'.rules == s.rules && WellFormed(s'.history) && |s'.history.events| == |s.history.events| + 1
    ensures var event := s'.history.events[|s.history.events|];
            && event.rule == m.rule && event.inputs == m.inputs
            && event.outputs == Graph.IdsFrom(|s.history.creators|, |s.Space(s.indexed).Outputs(m)|)
    ensures forall known :: Explains(known, s.rules[m.rule].inputs, s.contents, m.inputs) ==>
              Explains(known, s.rules[m.rule].inputs, s'.contents, m.inputs)
  {
    forall i | 0 <= i < |m.inputs|
      ensures m.inputs[i] in s.contents && m.inputs[i] in s'.contents
      ensures s'.contents[m.inputs[i]] == s.contents[m.inputs[i]]
    {
      var t := m.inputs[i];
      assert Graph.AreTokens(s.history, m.inputs) && t in s.contents;
    }
  }

  lemma InputsAreRead(rule: Rule, known: Substitution, names: Substitution, contents: Contents, a: seq<TokenId>)
    requires Explains(known, rule.inputs, contents, a) && forall x :: x in names ==> IsCreatedAtom(rule, x)
    ensures AreReadAs(known + names, rule.inputs, contents, a)
  {
    forall i | 0 <= i < |a|
      ensures IsReadAs(known + names, rule.inputs[i], contents[a[i]])
    {
      forall k | 0 <= k < |rule.inputs[i]|
        ensures rule.inputs[i][k] !in names
      {
        assert rule.inputs[i][k] in rule.inputs[i];
      }
      assert RenameVector(known, rule.inputs[i]) == contents[a[i]];
    }
  }

  lemma HappenedOutputs(s: Snapshot, s': Snapshot, m: Match, start: Atom, counter: Atom, full: Substitution)
    requires Happened(s, s', m, start, counter)
    requires var outputs := s.Space(s.indexed).Outputs(m);
             && |outputs| == |s.rules[m.rule].outputs|
             && forall i :: 0 <= i < |outputs| ==>
                  IsReadAs(full, s.rules[m.rule].outputs[i], RenameVector(Naming(Flatten(outputs), start), outputs[i]))
    ensures var ids := Graph.IdsFrom(|s.history.creators|, |s.Space(s.indexed).Outputs(m)|);
            AreReadAs(full, s.rules[m.rule].outputs, s'.contents, ids) && AreConsecutive(ids)
  {
    hide IsReadAs, Naming, IsEvent, CanHappen;
  }

  lemma EarlierAreWithin(s: Snapshot, s': Snapshot, start: Atom)
    requires TokensAreRight(s) && WellFormed(s'.history) && Extends(s.history, s'.history) && s'.rules == s.rules
    requires |s'.history.events| == |s.history.events| + 1 && CounterIsBeyond(s, start)
    requires forall t :: t in s.contents ==> t in s'.contents && s'.contents[t] == s.contents[t]
    ensures IsBeyondEarlier(s', |s.history.events|, start)
  {
    forall t, x | IsToken(s'.history, t) && s'.history.creators[t] < |s.history.events| && t in s'.contents &&
                  x in s'.contents[t]
      ensures RuleAtomsUpTo(s.rules, start) ==> x <= start
    {
      var f := s'.history.creators[t];
      assert t in s'.history.events[f].outputs && s'.history.events[f] == s.history.events[f];
      assert IsToken(s.history, t) && t in s.contents;
    }
  }

  lemma HappenedExtends(s: Snapshot, s': Snapshot, m: Match, start: Atom, counter: Atom)
    requires Happened(s, s', m, start, counter)
    ensures TokensAreRight(s) && s'.rules == s.rules
    ensures WellFormed(s'.history) && Extends(s.history, s'.history)
    ensures forall t :: t in s.contents ==> t in s'.contents && s'.contents[t] == s.contents[t]
    ensures |s'.history.events| == |s.history.events| + 1
  {
    Graph.AppendedIsWellFormed(s.history, m.rule, m.inputs, |s.Space(s.indexed).Outputs(m)|);
  }

  lemma OldInstancesStay(s: Snapshot, s': Snapshot)
    requires TokensAreRight(s) && EventsAreInstances(s) && WellFormed(s'.history) && Extends(s.history, s'.history)
    requires s'.rules == s.rules
    requires forall t :: t in s.contents ==> t in s'.contents && s'.contents[t] == s.contents[t]
    ensures forall e :: 0 <= e < |s.history.events| ==>
              && AreConsecutive(s'.history.events[e].outputs)
              && (IsInitialEvent(s'.history.events[e]) || IsInstance(s', e))
  {
    hide IsInstance, IsInitialEvent, AreConsecutive, WellFormed, GroundContents, Graph.Layered;
    forall e | 0 <= e < |s.history.events|
      ensures AreConsecutive(s'.history.events[e].outputs)
      ensures IsInitialEvent(s'.history.events[e]) || IsInstance(s', e)
    {
      assert s'.history.events[e] == s.history.events[e];
      if !IsInitialEvent(s.history.events[e]) {
        InstanceIsStable(s, s', e);
      }
    }
  }

  lemma HappenedKeepsInstances(s: Snapshot, s': Snapshot, m: Match, start: Atom, counter: Atom)
    requires EventsAreInstances(s) && Happened(s, s', m, start, counter) && CounterIsBeyond(s, start)
    ensures EventsAreInstances(s')
  {
    hide Happened, IsInstance, IsInitialEvent, CounterIsBeyond, AreConsecutive, TokensAreRight, WellFormed, Extends;
    HappenedExtends(s, s', m, start, counter);
    HappenedIsInstance(s, s', m, start, counter);
    OldInstancesStay(s, s');
  }

  // The counter stays beyond all atoms.
  lemma HappenedKeepsCounter(s: Snapshot, s': Snapshot, m: Match, start: Atom, counter: Atom)
    requires Happened(s, s', m, start, counter) && CounterIsBeyond(s, start)
    ensures CounterIsBeyond(s', counter)
  {
    HappenedAdds(s, s', m, start, counter);
    forall n | n >= counter && RuleAtomsUpTo(s.rules, n)
      ensures AtomsUpTo(s'.contents, n)
    {
      EventAtomsUpTo(s, s', m, start, n);
    }
  }

  lemma HappenedAdds(s: Snapshot, s': Snapshot, m: Match, start: Atom, counter: Atom)
    requires Happened(s, s', m, start, counter)
    ensures var outputs := s.Space(s.indexed).Outputs(m);
            AddsContents(s.contents, s'.contents, Graph.IdsFrom(|s.history.creators|, |outputs|),
                         RenameAll(Naming(Flatten(outputs), start), outputs))
  {
    hide Flatten, Graph.Layered, Naming, QueueIsSound, IndexIsRight;
    var ids := Graph.IdsFrom(|s.history.creators|, |s.Space(s.indexed).Outputs(m)|);
    forall t
      ensures t in s'.contents <==> t in s.contents || t in ids
    {
      if |s.history.creators| <= t < |s.history.creators| + |ids| {
        assert ids[t - |s.history.creators|] == t;
      }
    }
  }

  // Only an event changes what events there are and what they are about.
  lemma SameInstances(s: Snapshot, s': Snapshot)
    requires s'.rules == s.rules && s'.contents == s.contents && s'.history == s.history
    ensures EventsAreInstances(s') <==> EventsAreInstances(s)
  {
    forall e | 0 <= e < |s.history.events|
      ensures IsInstance(s', e) <==> IsInstance(s, e)
    {
      SameInstance(s, s', e);
    }
  }

  lemma SameInstance(s: Snapshot, s': Snapshot, e: EventId)
    requires s'.rules == s.rules && s'.contents == s.contents && s'.history == s.history
    requires 0 <= e < |s.history.events|
    ensures IsInstance(s', e) <==> IsInstance(s, e)
  {
    var event := s.history.events[e];
    if 0 <= event.rule < |s.rules| {
      forall full, start
        ensures IsInstantiatedBy(s', e, full, start) <==> IsInstantiatedBy(s, e, full, start)
      {
      }
    }
  }

  lemma AppliedIsInstance(
    s: Snapshot, s': Snapshot, m: Match, start: Atom, counter: Atom, outputs: seq<AtomsVector>, named: seq<AtomsVector>)
    requires EventsAreInstances(s) && CanHappen(s, m) && Graph.AreTokens(s.history, m.inputs)
    requires CounterIsBeyond(s, start)
    requires IsNamed(s, m, start, counter, outputs, named) && IsEvent(s, s', m, |named|)
    requires AreContents(s'.contents, Graph.IdsFrom(|s.history.creators|, |named|), named)
    ensures EventsAreInstances(s')
  {
    hide IsEvent, CanHappen, EventsAreInstances, CounterIsBeyond;
    HappenedKeepsInstances(s, s', m, start, counter);
  }

  lemma InitialIsInstance(s: Snapshot, initialTokens: seq<AtomsVector>, ids: seq<TokenId>)
    requires IsInitial(s, initialTokens, ids)
    ensures EventsAreInstances(s)
  {
  }

  // ----- whole runs

  lemma StepKeepsInstances(a: RunState, b: RunState, step: Step, spec: OrderingSpec, deduplicates: bool)
    requires EventsAreInstances(a.snapshot) && CounterIsBeyond(a.snapshot, a.nextAtom)
    requires IsStep(a, b, step, spec, deduplicates)
    ensures EventsAreInstances(b.snapshot) && CounterIsBeyond(b.snapshot, b.nextAtom)
  {
    hide EventsAreInstances, Happened;
    if step.MakeEvent? {
      HappenedKeepsInstances(a.snapshot, b.snapshot, step.m, a.nextAtom, b.nextAtom);
      HappenedKeepsCounter(a.snapshot, b.snapshot, step.m, a.nextAtom, b.nextAtom);
    } else {
      SameInstances(a.snapshot, b.snapshot);
    }
  }

  // Whatever is searched, made and allowed, every event of a run is an instance of its rule.
  lemma {:induction false} RunKeepsInstances(
    states: seq<RunState>, steps: seq<Step>, spec: OrderingSpec, deduplicates: bool, n: nat)
    requires n <= |steps| && |states| == |steps| + 1 && IsRun(states, steps, spec, deduplicates, n)
    requires Invariant(states[0].snapshot) && EventsAreInstances(states[0].snapshot)
    requires CounterIsBeyond(states[0].snapshot, states[0].nextAtom)
    ensures Invariant(states[n].snapshot) && EventsAreInstances(states[n].snapshot)
    ensures CounterIsBeyond(states[n].snapshot, states[n].nextAtom)
  {
    hide Invariant, IsStep, EventsAreInstances, CounterIsBeyond;
    if n > 0 {
      RunKeepsInstances(states, steps, spec, deduplicates, n - 1);
      StepKeepsInvariant(states[n - 1], states[n], steps[n - 1], spec, deduplicates);
      StepKeepsInstances(states[n - 1], states[n], steps[n - 1], spec, deduplicates);
    }
  }
}
