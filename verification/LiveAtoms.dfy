/** The tokens that are still there and the atoms in them, as the step limits count them. */
module LiveAtoms {
  import opened Types
  import opened Collections
  import opened CausalHistory
  import opened Matching
  import opened FreshNames
  import opened AtomDegrees
  import opened TokenEventGraph
  import opened Evolution

  ghost predicate ContainsAtom(contents: Contents, t: TokenId, x: Atom) {
    t in contents && x in contents[t]
  }

  // How many of the tokens contain the atom.
  ghost function LiveDegree(contents: Contents, live: set<TokenId>, x: Atom): nat {
    |TokensWith(contents, live, x)|
  }

  ghost function TokensWith(contents: Contents, live: set<TokenId>, x: Atom): set<TokenId> {
    set t | t in live && ContainsAtom(contents, t, x)
  }

  // The degrees are those of the live tokens, and atoms without tokens are not listed.
  ghost predicate DegreesAreRight(degrees: Degrees, contents: Contents, live: set<TokenId>) {
    HasNoZeros(degrees) && forall x :: At(degrees, x) == LiveDegree(contents, live, x)
  }

  ghost predicate AreContents(contents: Contents, ids: seq<TokenId>, vs: seq<AtomsVector>) {
    |ids| == |vs| && forall i :: 0 <= i < |ids| ==> ids[i] in contents && contents[ids[i]] == vs[i]
  }

  lemma AddOneLive(contents: Contents, live: set<TokenId>, t: TokenId, x: Atom)
    requires t !in live && t in contents
    ensures LiveDegree(contents, live + {t}, x) == LiveDegree(contents, live, x) + if x in contents[t] then 1 else 0
  {
    SizeStep(TokensWith(contents, live, x), TokensWith(contents, live + {t}, x), t);
  }

  lemma {:induction false} AddLive(
    contents: Contents, live: set<TokenId>, ids: seq<TokenId>, vs: seq<AtomsVector>, x: Atom)
    requires AreContents(contents, ids, vs) && Distinct(ids) && forall t :: t in ids ==> t !in live
    ensures LiveDegree(contents, live + Elements(ids), x) == LiveDegree(contents, live, x) + DegreeIn(vs, x)
  {
    if ids == [] {
      assert live + Elements(ids) == live;
    } else {
      var n := |ids| - 1;
      var last := ids[n];
      AddLive(contents, live, ids[..n], vs[..n], x);
      AddOneLive(contents, live + Elements(ids[..n]), last, x);
      assert live + Elements(ids) == live + Elements(ids[..n]) + {last};
    }
  }

  // Contents of other tokens do not matter.
  lemma SameLiveDegree(contents: Contents, more: Contents, live: set<TokenId>, x: Atom)
    requires forall t :: t in live ==> t in contents && t in more && more[t] == contents[t]
    ensures LiveDegree(more, live, x) == LiveDegree(contents, live, x)
  {
    SameElements(TokensWith(contents, live, x), TokensWith(more, live, x));
  }

  lemma RemoveLive(contents: Contents, live: set<TokenId>, ids: seq<TokenId>, vs: seq<AtomsVector>, x: Atom)
    requires AreContents(contents, ids, vs) && Distinct(ids) && forall t :: t in ids ==> t in live
    ensures LiveDegree(contents, live - Elements(ids), x) == LiveDegree(contents, live, x) - DegreeIn(vs, x)
  {
    AddLive(contents, live - Elements(ids), ids, vs, x);
    SameElements(live - Elements(ids) + Elements(ids), live);
  }

  // Distinct live tokens can be consumed.
  lemma LiveTokensCanBeConsumed(
    degrees: Degrees, contents: Contents, live: set<TokenId>, ids: seq<TokenId>, vs: seq<AtomsVector>)
    requires DegreesAreRight(degrees, contents, live)
    requires AreContents(contents, ids, vs) && Distinct(ids) && forall t :: t in ids ==> t in live
    ensures CanConsume(degrees, vs)
  {
    forall x
      ensures At(degrees, x) >= DegreeIn(vs, x)
    {
      RemoveLive(contents, live, ids, vs, x);
    }
    forall x | x in degrees
      ensures degrees[x] > 0
    {
      assert At(degrees, x) == LiveDegree(contents, live, x);
    }
  }

  lemma LiveDegreesAreGround(degrees: Degrees, contents: Contents, live: set<TokenId>)
    requires DegreesAreRight(degrees, contents, live) && GroundContents(contents)
    ensures IsGroundDegrees(degrees)
  {
    forall x | x in degrees
      ensures x >= 0
    {
      assert At(degrees, x) == LiveDegree(contents, live, x);
      var t := AtomOfLive(contents, live, x);
      assert IsGround(contents[t]);
    }
  }

  lemma AtomOfLive(contents: Contents, live: set<TokenId>, x: Atom) returns (t: TokenId)
    requires LiveDegree(contents, live, x) > 0
    ensures t in live && ContainsAtom(contents, t, x)
  {
    assert TokensWith(contents, live, x) != {};
    t := Member(TokensWith(contents, live, x));
  }

  // The number of listed atoms after an event is the number of atoms in the tokens that are left.
  lemma AtomsAfterAreListed(degrees: Degrees, after: Degrees, inputs: seq<AtomsVector>, outputs: seq<AtomsVector>)
    requires HasNoZeros(after)
    requires forall x :: At(after, x) == After(degrees, inputs, outputs, x) >= 0
    ensures after.Keys == AtomsAfter(degrees, inputs, outputs)
    ensures |after| == |AtomsAfter(degrees, inputs, outputs)|
  {
    forall x
      ensures x in after.Keys <==> x in AtomsAfter(degrees, inputs, outputs)
    {
      assert At(after, x) == After(degrees, inputs, outputs, x);
      DegreeIsPositive(outputs, x);
      assert x in degrees || At(degrees, x) == 0;
    }
    SameElements(after.Keys, AtomsAfter(degrees, inputs, outputs));
  }

  // ----- names are new as long as rules do not name atoms that are not there

  ghost predicate AtomsUpTo(contents: Contents, n: Atom) {
    forall t, x :: t in contents && x in contents[t] ==> x <= n
  }

  ghost predicate VectorsUpTo(vs: seq<AtomsVector>, n: Atom) {
    forall i, x :: 0 <= i < |vs| && x in vs[i] ==> x <= n
  }

  // No rule puts an atom beyond n into its outputs.
  ghost predicate RuleAtomsUpTo(rules: seq<Rule>, n: Atom) {
    forall r :: 0 <= r < |rules| ==> VectorsUpTo(rules[r].outputs, n)
  }

  lemma OutputsUpTo(space: MatchSpace, m: Match, n: Atom)
    requires GroundContents(space.contents) && space.IsExplained(m)
    requires AtomsUpTo(space.contents, n) && RuleAtomsUpTo(space.rules, n)
    ensures VectorsUpTo(space.Outputs(m), n)
  {
    var s := Explanation(space.rules[m.rule].inputs, space.contents, m.inputs);
    ExplainedAtomsUpTo(space, m, n);
    var outputs := space.rules[m.rule].outputs;
    forall i, x | 0 <= i < |outputs| && x in RenameVector(s, outputs[i])
      ensures x <= n
    {
      var k :| 0 <= k < |outputs[i]| && RenameVector(s, outputs[i])[k] == x;
      assert outputs[i][k] in outputs[i];
    }
  }

  lemma ExplainedAtomsUpTo(space: MatchSpace, m: Match, n: Atom)
    requires GroundContents(space.contents) && space.IsExplained(m) && AtomsUpTo(space.contents, n)
    ensures var s := Explanation(space.rules[m.rule].inputs, space.contents, m.inputs);
            forall x :: x in s ==> x < 0 && 0 <= s[x] <= n
  {
    var patterns := space.rules[m.rule].inputs;
    var full :| Explains(full, patterns, space.contents, m.inputs) &&
                Explanation(patterns, space.contents, m.inputs) == map x | x in full && IsInputAtom(patterns, x) :: full[x];
    forall x | x in full && IsInputAtom(patterns, x)
      ensures 0 <= full[x] <= n
    {
      var i :| 0 <= i < |patterns| && x in patterns[i];
      var k :| 0 <= k < |patterns[i]| && patterns[i][k] == x;
      var t := m.inputs[i];
      assert IsGround(space.contents[t]) && RenameVector(full, patterns[i])[k] == space.contents[t][k];
      assert space.contents[t][k] in space.contents[t];
    }
  }

  // Fresh names then never clash, ...
  lemma NoClashUpTo(degrees: Degrees, contents: Contents, live: set<TokenId>, inputs: seq<AtomsVector>,
                    outputs: seq<AtomsVector>, n: Atom)
    requires DegreesAreRight(degrees, contents, live) && GroundContents(contents) && n >= 0
    requires AtomsUpTo(contents, n) && VectorsUpTo(outputs, n)
    ensures !NamesClash(AtomsAfter(degrees, inputs, outputs), Naming(Flatten(outputs), n))
  {
    var names := Naming(Flatten(outputs), n);
    NamesAreFresh(Flatten(outputs), n);
    forall x, y | x in names && y in AtomsAfter(degrees, inputs, outputs)
      ensures names[x] != y
    {
      if y in degrees {
        assert At(degrees, y) == LiveDegree(contents, live, y);
        if LiveDegree(contents, live, y) > 0 {
          var t := AtomOfLive(contents, live, y);
        }
      }
      assert y <= n;
    }
  }

  // ... and any bound beyond the counter stays one.
  lemma NamedUpTo(outputs: seq<AtomsVector>, start: Atom, n: Atom)
    requires VectorsUpTo(outputs, n) && start + |Naming(Flatten(outputs), start)| <= n
    ensures VectorsUpTo(RenameAll(Naming(Flatten(outputs), start), outputs), n)
  {
    var names := Naming(Flatten(outputs), start);
    NamesAreFresh(Flatten(outputs), start);
    forall i, y | 0 <= i < |outputs| && y in RenameVector(names, outputs[i])
      ensures y <= n
    {
      var k :| 0 <= k < |outputs[i]| && RenameVector(names, outputs[i])[k] == y;
      assert outputs[i][k] in outputs[i];
    }
  }

  // ----- an event where every token is consumed at most once

  ghost function LiveTokens(contents: Contents, events: seq<Event>): set<TokenId> {
    set t | t in contents && DestroyerCount(events, t) == 0
  }

  ghost function LiveOf(s: Snapshot): set<TokenId> {
    LiveTokens(s.contents, s.history.events)
  }

  lemma LiveInputs(s: Snapshot, m: Match)
    requires CanHappen(s, m) && s.limit == Some(1)
    ensures AreTokens(s.history, m.inputs) && Distinct(m.inputs) && forall t :: t in m.inputs ==> t in LiveOf(s)
  {
    PendingInputs(s, m);
    forall t | t in m.inputs
      ensures t in LiveOf(s)
    {
      var i :| 0 <= i < |m.inputs| && m.inputs[i] == t;
      assert Eligible(s, m.inputs[i]);
    }
  }

  // The inputs leave and the outputs arrive.
  ghost predicate IsReplaced(live: set<TokenId>, live': set<TokenId>, inputs: seq<TokenId>, outputs: seq<TokenId>) {
    && Distinct(inputs) && Distinct(outputs)
    && (forall t :: t in inputs ==> t in live)
    && (forall t :: t in outputs ==> t !in live)
    && live' == live - Elements(inputs) + Elements(outputs)
  }

  lemma LiveAfterEvent(s: Snapshot, s': Snapshot, m: Match, n: nat)
    requires CanHappen(s, m) && AreTokens(s.history, m.inputs) && IsEvent(s, s', m, n) && s.limit == Some(1)
    ensures IsReplaced(LiveOf(s), LiveOf(s'), m.inputs, IdsFrom(|s.history.creators|, n))
  {
    LiveInputs(s, m);
    EventHistory(s, s', m, n);
    LiveAfterCounting(s, s', m, n);
  }

  lemma LiveAfterCounting(s: Snapshot, s': Snapshot, m: Match, n: nat)
    requires TokensAreRight(s) && WellFormed(s'.history) && AreTokens(s.history, m.inputs)
    requires IsCountedEvent(s, s', m) && |s'.history.creators| == |s.history.creators| + n
    requires forall t :: t in s'.contents <==> IsToken(s'.history, t)
    requires Distinct(m.inputs) && forall t :: t in m.inputs ==> t in LiveOf(s)
    ensures IsReplaced(LiveOf(s), LiveOf(s'), m.inputs, IdsFrom(|s.history.creators|, n))
  {
    hide Layered, GroundContents;
    var ids := IdsFrom(|s.history.creators|, n);
    forall t
      ensures t in ids <==> IsNewToken(s, s', t)
    {
      if IsNewToken(s, s', t) {
        assert ids[t - |s.history.creators|] == t;
      }
    }
    SameElements(LiveOf(s'), LiveOf(s) - Elements(m.inputs) + Elements(ids));
  }

  lemma ReplacedCount(live: set<TokenId>, live': set<TokenId>, inputs: seq<TokenId>, outputs: seq<TokenId>)
    requires IsReplaced(live, live', inputs, outputs)
    ensures |live'| == |live| - |inputs| + |outputs|
  {
    DistinctSize(inputs);
    DistinctSize(outputs);
    SizeOfReplaced(live, Elements(inputs), Elements(outputs));
  }

  lemma ReplacedDegree(
    contents: Contents, contents': Contents, live: set<TokenId>, live': set<TokenId>, ids: seq<TokenId>,
    inputs: seq<AtomsVector>, ids': seq<TokenId>, outputs: seq<AtomsVector>, x: Atom)
    requires IsReplaced(live, live', ids, ids')
    requires AreContents(contents, ids, inputs) && AreContents(contents', ids', outputs)
    requires forall t :: t in live ==> t in contents && t in contents' && contents'[t] == contents[t]
    ensures LiveDegree(contents', live', x) == LiveDegree(contents, live, x) - DegreeIn(inputs, x) + DegreeIn(outputs, x)
  {
    var rest := live - Elements(ids);
    RemoveLive(contents, live, ids, inputs, x);
    SameLiveDegree(contents, contents', rest, x);
    AddLive(contents', rest, ids', outputs, x);
  }

  // If the limit holds before, and for the atoms involved, it holds for all atoms after.
  lemma DegreesStayInLimit(
    degrees: Degrees, after: Degrees, inputs: seq<AtomsVector>, outputs: seq<AtomsVector>, start: Atom, limit: int)
    requires CanConsume(degrees, inputs) && IsGroundDegrees(degrees) && start >= 0 && HasNoZeros(after)
    requires !NamesClash(AtomsAfter(degrees, inputs, outputs), Naming(Flatten(outputs), start))
    requires forall x :: At(after, x) ==
                         After(degrees, inputs, RenameAll(Naming(Flatten(outputs), start), outputs), x) >= 0
    requires forall x :: x in degrees ==> degrees[x] <= limit
    requires forall x :: IsInvolved(inputs, outputs, x) ==> After(degrees, inputs, outputs, x) <= limit
    ensures forall y :: y in after ==> after[y] <= limit
  {
    var names := Naming(Flatten(outputs), start);
    AtomsAfterAreListed(degrees, after, inputs, RenameAll(names, outputs));
    AtomsAfterNaming(degrees, inputs, outputs, start);
    forall y | y in after
      ensures after[y] <= limit
    {
      assert y in Image(names, AtomsAfter(degrees, inputs, outputs));
      var x :| x in AtomsAfter(degrees, inputs, outputs) && Rename(names, x) == y;
      DegreesAreExact(degrees, inputs, outputs, start, x);
      assert At(after, y) == After(degrees, inputs, outputs, x);
      if !IsInvolved(inputs, outputs, x) {
        assert x in degrees;
      }
    }
  }
}
