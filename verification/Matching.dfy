/**
  What a match is, without any search: tokens assigned to the inputs of a rule so that one
  substitution of the rule's pattern atoms turns the inputs into the contents of the tokens.
 */
module Matching {
  import opened Types
  import opened Collections
  import opened CausalHistory
  import opened DestroyerChoices

  type Substitution = map<Atom, Atom>
  type Contents = map<TokenId, AtomsVector>

  function Rename(s: Substitution, x: Atom): Atom {
    if x in s then s[x] else x
  }

  function RenameVector(s: Substitution, v: AtomsVector): (r: AtomsVector)
    ensures |r| == |v| && forall i :: 0 <= i < |v| ==> r[i] == Rename(s, v[i])
  {
    seq(|v|, i requires 0 <= i < |v| => Rename(s, v[i]))
  }

  function RenameAll(s: Substitution, vs: seq<AtomsVector>): (r: seq<AtomsVector>)
    ensures |r| == |vs| && forall i :: 0 <= i < |vs| ==> r[i] == RenameVector(s, vs[i])
  {
    seq(|vs|, i requires 0 <= i < |vs| => RenameVector(s, vs[i]))
  }

  ghost function Image(s: Substitution, atoms: set<Atom>): set<Atom> {
    set x | x in atoms :: Rename(s, x)
  }

  ghost predicate IsInjectiveOn(s: Substitution, atoms: set<Atom>) {
    forall x, y :: x in atoms && y in atoms && Rename(s, x) == Rename(s, y) ==> x == y
  }

  // Identifying atoms leaves fewer of them.
  lemma {:induction false} ImageSize(s: Substitution, atoms: set<Atom>)
    ensures |Image(s, atoms)| <= |atoms|
    ensures |Image(s, atoms)| == |atoms| <==> IsInjectiveOn(s, atoms)
    decreases |atoms|
  {
    if atoms != {} {
      var x := Member(atoms);
      var rest := atoms - {x};
      ImageSize(s, rest);
      var whole, part := Image(s, atoms), Image(s, rest);
      SameElements(whole, part + {Rename(s, x)});
      if |whole| == |atoms| {
        assert Rename(s, x) !in part;
        forall y | y in rest
          ensures Rename(s, y) != Rename(s, x)
        {
          assert Rename(s, y) in part;
        }
      }
      if IsInjectiveOn(s, atoms) {
        assert Rename(s, x) !in part;
      }
    }
  }

  // Only pattern atoms may be substituted.
  ghost predicate OnPatterns(s: Substitution) {
    forall x :: x in s ==> x < 0
  }

  ghost predicate IsGround(v: AtomsVector) {
    forall i :: 0 <= i < |v| ==> v[i] >= 0
  }

  ghost predicate GroundContents(contents: Contents) {
    forall t :: t in contents ==> IsGround(contents[t])
  }

  ghost predicate HasExplicit(v: AtomsVector) {
    exists i :: 0 <= i < |v| && v[i] >= 0
  }

  ghost predicate Explains(s: Substitution, patterns: seq<AtomsVector>, contents: Contents, a: seq<TokenId>) {
    && OnPatterns(s)
    && |a| == |patterns|
    && forall i :: 0 <= i < |a| ==> a[i] in contents && RenameVector(s, patterns[i]) == contents[a[i]]
  }

  // The causal graph as the matcher sees it; an empty history if there is none.
  datatype SeparationView = SeparationView(history: History, tracksChoices: bool)

  ghost predicate SpacelikeIn(view: SeparationView, a: TokenId, b: TokenId) {
    && WellFormed(view.history) && IsToken(view.history, a) && IsToken(view.history, b)
    && TrackedSeparation(view.history, view.tracksChoices, a, b) == Spacelike
  }

  ghost predicate SelectedBy(selection: SelectionFunction, view: SeparationView, a: seq<TokenId>) {
    selection == SelectSpacelike ==> forall i, j :: 0 <= i < j < |a| ==> SpacelikeIn(view, a[i], a[j])
  }

  ghost predicate FromPool(pool: set<TokenId>, a: seq<TokenId>) {
    forall i :: 0 <= i < |a| ==> a[i] in pool
  }

  // The brute-force definition: distinct tokens, one substitution, and the rule's selection function.
  ghost predicate IsMatch(
    rule: Rule, contents: Contents, pool: set<TokenId>, view: SeparationView, a: seq<TokenId>)
  {
    && 0 < |a| == |rule.inputs|
    && FromPool(pool, a)
    && Distinct(a)
    && (exists s :: Explains(s, rule.inputs, contents, a))
    && SelectedBy(rule.selection, view, a)
  }

  // Everything that decides what a match is.
  datatype MatchSpace = MatchSpace(rules: seq<Rule>, contents: Contents, pool: set<TokenId>, view: SeparationView)
  {
    ghost predicate Allows(m: Match) {
      0 <= m.rule < |rules| && IsMatch(rules[m.rule], contents, pool, view, m.inputs)
    }

    // The same, whatever the rule says about separation.
    ghost predicate Fits(m: Match) {
      && 0 <= m.rule < |rules|
      && 0 < |m.inputs| == |rules[m.rule].inputs|
      && FromPool(pool, m.inputs)
      && Distinct(m.inputs)
      && IsExplained(m)
    }

    ghost predicate IsExplained(m: Match) {
      0 <= m.rule < |rules| && exists s :: Explains(s, rules[m.rule].inputs, contents, m.inputs)
    }

    // The outputs of a match; pattern atoms that no input explains stay patterns.
    ghost function Outputs(m: Match): seq<AtomsVector>
      requires IsExplained(m)
    {
      RenameAll(Explanation(rules[m.rule].inputs, contents, m.inputs), rules[m.rule].outputs)
    }
  }

  ghost predicate Touches(a: seq<TokenId>, tokens: seq<TokenId>) {
    exists i :: 0 <= i < |a| && a[i] in tokens
  }

  ghost predicate IsInputAtom(patterns: seq<AtomsVector>, x: Atom) {
    exists i :: 0 <= i < |patterns| && x in patterns[i]
  }

  // The one substitution of the atoms of the patterns that explains the tokens.
  ghost function Explanation(patterns: seq<AtomsVector>, contents: Contents, a: seq<TokenId>): Substitution
    requires exists s :: Explains(s, patterns, contents, a)
  {
    var full :| Explains(full, patterns, contents, a);
    map x | x in full && IsInputAtom(patterns, x) :: full[x]
  }

  lemma ExplanationsAgree(
    patterns: seq<AtomsVector>, contents: Contents, a: seq<TokenId>, s: Substitution, t: Substitution, x: Atom)
    requires Explains(s, patterns, contents, a) && Explains(t, patterns, contents, a)
    requires GroundContents(contents) && IsInputAtom(patterns, x)
    ensures x in s <==> x in t
    ensures x in s ==> s[x] == t[x]
  {
    var i :| 0 <= i < |patterns| && x in patterns[i];
    var k :| 0 <= k < |patterns[i]| && patterns[i][k] == x;
    var t' := a[i];
    var token := contents[t'];
    assert RenameVector(s, patterns[i]) == token && RenameVector(t, patterns[i]) == token;
    assert IsGround(token);
    assert Rename(s, x) == token[k] == Rename(t, x);
    assert token[k] >= 0;
  }

  lemma ExplanationIsUnique(patterns: seq<AtomsVector>, contents: Contents, a: seq<TokenId>, s: Substitution)
    requires Explains(s, patterns, contents, a) && forall x :: x in s ==> IsInputAtom(patterns, x)
    requires GroundContents(contents)
    ensures Explanation(patterns, contents, a) == s
  {
    var full :| Explains(full, patterns, contents, a) &&
                Explanation(patterns, contents, a) == map x | x in full && IsInputAtom(patterns, x) :: full[x];
    forall x | IsInputAtom(patterns, x)
      ensures (x in full <==> x in s) && (x in s ==> full[x] == s[x])
    {
      ExplanationsAgree(patterns, contents, a, full, s, x);
    }
    if Explanation(patterns, contents, a) != s {
      var x := MapDifference(Explanation(patterns, contents, a), s);
    }
  }

  // The outputs of the rule, with the substitution applied to the atoms that inputs have, and no others.
  ghost predicate AreInstantiated(s: Substitution, rule: Rule, outputs: seq<AtomsVector>) {
    && |outputs| == |rule.outputs|
    && forall i :: 0 <= i < |outputs| ==>
         && |outputs[i]| == |rule.outputs[i]|
         && forall k :: 0 <= k < |outputs[i]| ==>
              var x := rule.outputs[i][k];
              outputs[i][k] == if x in s && IsInputAtom(rule.inputs, x) then s[x] else x
  }

  // Whatever substitution explains the inputs, it is the one that the outputs are made with.
  lemma OutputsAreInstantiated(space: MatchSpace, m: Match, s: Substitution)
    requires space.IsExplained(m) && GroundContents(space.contents)
    requires Explains(s, space.rules[m.rule].inputs, space.contents, m.inputs)
    ensures AreInstantiated(s, space.rules[m.rule], space.Outputs(m))
  {
    var patterns := space.rules[m.rule].inputs;
    var inputAtoms := map x | x in s && IsInputAtom(patterns, x) :: s[x];
    forall i | 0 <= i < |patterns|
      ensures RenameVector(inputAtoms, patterns[i]) == RenameVector(s, patterns[i])
    {
      assert forall k :: 0 <= k < |patterns[i]| ==> IsInputAtom(patterns, patterns[i][k]);
    }
    assert Explains(inputAtoms, patterns, space.contents, m.inputs);
    ExplanationIsUnique(patterns, space.contents, m.inputs, inputAtoms);
  }

  // ----- connected rules

  ghost predicate ShareAtom(v: AtomsVector, w: AtomsVector) {
    exists i, j :: 0 <= i < |v| && 0 <= j < |w| && v[i] == w[j]
  }

  // Some input outside s names an atom explicitly or shares one with an input in s.
  ghost predicate HasFrontier(inputs: seq<AtomsVector>, s: set<int>) {
    exists i :: 0 <= i < |inputs| && i !in s &&
                (HasExplicit(inputs[i]) || exists j :: 0 <= j < |inputs| && j in s && ShareAtom(inputs[i], inputs[j]))
  }

  // Starting anywhere, the inputs can be visited one by one, each time one that is anchored already.
  ghost predicate Connected(inputs: seq<AtomsVector>) {
    forall s :: (exists i :: 0 <= i < |inputs| && i in s) && (exists i :: 0 <= i < |inputs| && i !in s) ==>
      HasFrontier(inputs, s)
  }

  // ----- partial matches, where UNMATCHED marks the inputs that are still free

  ghost predicate Matched(m: seq<int>, i: int) {
    0 <= i < |m| && m[i] >= 0
  }

  ghost predicate Completes(m: seq<int>, a: seq<TokenId>) {
    |a| == |m| && forall i :: Matched(m, i) ==> a[i] == m[i]
  }

  // s is what the matched inputs say about the pattern atoms, and nothing else.
  ghost predicate IsPartialMatch(
    rule: Rule, contents: Contents, pool: set<TokenId>, view: SeparationView, m: seq<int>, s: Substitution)
  {
    && |m| == |rule.inputs|
    && OnPatterns(s)
    && (forall x :: x in s ==> s[x] >= 0)
    && (forall i :: Matched(m, i) ==>
          m[i] in pool && m[i] in contents && RenameVector(s, rule.inputs[i]) == contents[m[i]])
    && (forall i, j :: Matched(m, i) && Matched(m, j) && i < j ==> m[i] != m[j])
    && (rule.selection == SelectSpacelike ==>
          forall i, j :: Matched(m, i) && Matched(m, j) && i < j ==> SpacelikeIn(view, m[i], m[j]))
    && (forall x :: x in s ==> exists i :: Matched(m, i) && x in rule.inputs[i])
  }

  // The matched inputs force what any substitution that completes the match does.
  lemma PartialMatchForces(
    rule: Rule, contents: Contents, pool: set<TokenId>, view: SeparationView, m: seq<int>, s: Substitution,
    a: seq<TokenId>, full: Substitution)
    requires IsPartialMatch(rule, contents, pool, view, m, s)
    requires Completes(m, a) && Explains(full, rule.inputs, contents, a)
    ensures forall x :: x in s ==> x in full && full[x] == s[x]
    ensures forall i :: 0 <= i < |m| ==> RenameVector(full, RenameVector(s, rule.inputs[i])) == contents[a[i]]
  {
    forall x | x in s
      ensures x in full && full[x] == s[x]
    {
      var i :| Matched(m, i) && x in rule.inputs[i];
      var k :| 0 <= k < |rule.inputs[i]| && rule.inputs[i][k] == x;
      assert RenameVector(s, rule.inputs[i])[k] == RenameVector(full, rule.inputs[i])[k];
    }
    forall i | 0 <= i < |m|
      ensures RenameVector(full, RenameVector(s, rule.inputs[i])) == contents[a[i]]
    {
      var once := RenameVector(full, rule.inputs[i]);
      forall k | 0 <= k < |once|
        ensures RenameVector(full, RenameVector(s, rule.inputs[i]))[k] == once[k]
      {
        var x := rule.inputs[i][k];
        assert x in s ==> s[x] !in full;
      }
    }
  }

  // u is the least substitution that turns the (partly instantiated) pattern into the token.
  ghost predicate LeastUnifier(u: Substitution, pattern: AtomsVector, token: AtomsVector) {
    && OnPatterns(u)
    && RenameVector(u, pattern) == token
    && forall x :: x in u ==> x in pattern
  }

  // What matching one more token does to a partial match.
  lemma ExtendPartialMatch(
    rule: Rule, contents: Contents, pool: set<TokenId>, view: SeparationView, m: seq<int>, s: Substitution,
    n: nat, t: TokenId, u: Substitution)
    requires IsPartialMatch(rule, contents, pool, view, m, s) && GroundContents(contents)
    requires n < |m| && m[n] == UNMATCHED && t >= 0 && t in pool && t in contents && t !in m
    requires LeastUnifier(u, RenameVector(s, rule.inputs[n]), contents[t])
    requires rule.selection == SelectSpacelike ==>
               forall i :: Matched(m, i) ==> SpacelikeIn(view, m[i], t) && SpacelikeIn(view, t, m[i])
    ensures IsPartialMatch(rule, contents, pool, view, m[n := t], s + u)
    ensures forall v :: RenameVector(u, RenameVector(s, v)) == RenameVector(s + u, v)
  {
    UnifierIsDisjoint(s, u, rule.inputs[n], contents[t]);
    forall v
      ensures RenameVector(u, RenameVector(s, v)) == RenameVector(s + u, v)
    {
      ComposeVector(s, u, v);
    }
    ExtendedIsExplained(rule, contents, pool, view, m, s, n, t, u);
    ExtendedIsSelected(rule, contents, pool, view, m, s, n, t);
  }

  lemma ExtendedIsExplained(
    rule: Rule, contents: Contents, pool: set<TokenId>, view: SeparationView, m: seq<int>, s: Substitution,
    n: nat, t: TokenId, u: Substitution)
    requires IsPartialMatch(rule, contents, pool, view, m, s) && GroundContents(contents)
    requires n < |m| && m[n] == UNMATCHED && t >= 0 && t in pool && t in contents
    requires LeastUnifier(u, RenameVector(s, rule.inputs[n]), contents[t])
    requires forall v :: RenameVector(u, RenameVector(s, v)) == RenameVector(s + u, v)
    ensures var m' := m[n := t];
            && (forall i :: Matched(m', i) ==>
                  m'[i] in pool && m'[i] in contents && RenameVector(s + u, rule.inputs[i]) == contents[m'[i]])
            && (forall x :: x in s + u ==> exists i :: Matched(m', i) && x in rule.inputs[i])
  {
    var m' := m[n := t];
    forall i | Matched(m', i)
      ensures m'[i] in pool && m'[i] in contents && RenameVector(s + u, rule.inputs[i]) == contents[m'[i]]
    {
      if i != n {
        assert Matched(m, i);
        GroundIsFixed(u, contents[m[i]]);
      }
    }
    forall x | x in s + u
      ensures exists i :: Matched(m', i) && x in rule.inputs[i]
    {
      ExtendedHasInput(rule, contents, pool, view, m, s, n, t, u, x);
    }
  }

  // Every atom that is substituted after the step occurs in an input that is matched then.
  lemma ExtendedHasInput(
    rule: Rule, contents: Contents, pool: set<TokenId>, view: SeparationView, m: seq<int>, s: Substitution,
    n: nat, t: TokenId, u: Substitution, x: Atom)
    requires IsPartialMatch(rule, contents, pool, view, m, s)
    requires n < |m| && m[n] == UNMATCHED && t >= 0 && t in contents
    requires LeastUnifier(u, RenameVector(s, rule.inputs[n]), contents[t]) && x in s + u
    ensures exists i :: Matched(m[n := t], i) && x in rule.inputs[i]
  {
    var m' := m[n := t];
    if x in u {
      var k :| 0 <= k < |rule.inputs[n]| && RenameVector(s, rule.inputs[n])[k] == x;
      assert x < 0 && x == rule.inputs[n][k];
      assert Matched(m', n) && x in rule.inputs[n];
    } else {
      var i :| Matched(m, i) && x in rule.inputs[i];
      assert Matched(m', i);
    }
  }

  lemma GroundIsFixed(u: Substitution, v: AtomsVector)
    requires OnPatterns(u) && IsGround(v)
    ensures RenameVector(u, v) == v
  {
  }

  lemma ExtendedIsSelected(
    rule: Rule, contents: Contents, pool: set<TokenId>, view: SeparationView, m: seq<int>, s: Substitution,
    n: nat, t: TokenId)
    requires IsPartialMatch(rule, contents, pool, view, m, s)
    requires n < |m| && m[n] == UNMATCHED && t >= 0 && t !in m
    requires rule.selection == SelectSpacelike ==>
               forall i :: Matched(m, i) ==> SpacelikeIn(view, m[i], t) && SpacelikeIn(view, t, m[i])
    ensures var m' := m[n := t];
            forall i, j :: Matched(m', i) && Matched(m', j) && i < j ==>
              m'[i] != m'[j] && (rule.selection == SelectSpacelike ==> SpacelikeIn(view, m'[i], m'[j]))
  {
    var m' := m[n := t];
    forall i, j | Matched(m', i) && Matched(m', j) && i < j
      ensures m'[i] != m'[j] && (rule.selection == SelectSpacelike ==> SpacelikeIn(view, m'[i], m'[j]))
    {
      assert i != n ==> Matched(m, i);
      assert j != n ==> Matched(m, j);
    }
  }

  lemma UnifierIsDisjoint(s: Substitution, u: Substitution, v: AtomsVector, token: AtomsVector)
    requires OnPatterns(s) && (forall x :: x in s ==> s[x] >= 0) && IsGround(token)
    requires LeastUnifier(u, RenameVector(s, v), token)
    ensures forall x :: x in u ==> x !in s && u[x] >= 0
    ensures OnPatterns(s + u) && forall x :: x in s + u ==> (s + u)[x] >= 0
  {
    forall x | x in u
      ensures x !in s && u[x] >= 0
    {
      var k :| 0 <= k < |v| && RenameVector(s, v)[k] == x;
      assert RenameVector(u, RenameVector(s, v))[k] == u[x];
    }
  }

  lemma ComposeVector(s: Substitution, u: Substitution, v: AtomsVector)
    requires OnPatterns(s) && OnPatterns(u)
    requires forall x :: x in s ==> s[x] >= 0
    requires forall x :: x in u ==> x !in s
    ensures RenameVector(u, RenameVector(s, v)) == RenameVector(s + u, v)
  {
    var twice := RenameVector(u, RenameVector(s, v));
    forall k | 0 <= k < |v|
      ensures twice[k] == Rename(s + u, v[k])
    {
      assert v[k] in s ==> s[v[k]] !in u;
    }
  }

  // If a token cannot be unified with an input, no match has it there.
  lemma NoUnifierNoMatch(
    rule: Rule, contents: Contents, pool: set<TokenId>, view: SeparationView, m: seq<int>, s: Substitution,
    n: nat, t: TokenId, a: seq<TokenId>)
    requires IsPartialMatch(rule, contents, pool, view, m, s)
    requires n < |m| && Completes(m, a) && a[n] == t && t in contents
    requires IsMatch(rule, contents, pool, view, a)
    ensures exists full :: OnPatterns(full) && RenameVector(full, RenameVector(s, rule.inputs[n])) == contents[t]
  {
    var full :| Explains(full, rule.inputs, contents, a);
    PartialMatchForces(rule, contents, pool, view, m, s, a, full);
  }

  // A token that completes a match contains every atom its input names explicitly by now.
  lemma MatchHasExplicitAtoms(
    rule: Rule, contents: Contents, pool: set<TokenId>, view: SeparationView, m: seq<int>, s: Substitution,
    n: nat, a: seq<TokenId>, x: Atom)
    requires IsPartialMatch(rule, contents, pool, view, m, s)
    requires n < |m| && Completes(m, a) && IsMatch(rule, contents, pool, view, a)
    requires x >= 0 && x in RenameVector(s, rule.inputs[n])
    ensures a[n] in contents && x in contents[a[n]]
  {
    var full :| Explains(full, rule.inputs, contents, a);
    PartialMatchForces(rule, contents, pool, view, m, s, a, full);
    var v := RenameVector(s, rule.inputs[n]);
    var k :| 0 <= k < |v| && v[k] == x;
    assert RenameVector(full, v)[k] == x;
  }

  // Filling the last place turns a partial match into a match, the only one that completes it.
  lemma CompletePartialMatch(
    rule: Rule, contents: Contents, pool: set<TokenId>, view: SeparationView, m: seq<int>, s: Substitution)
    requires IsPartialMatch(rule, contents, pool, view, m, s) && m != []
    requires forall i :: 0 <= i < |m| ==> m[i] >= 0
    ensures IsMatch(rule, contents, pool, view, m)
    ensures forall a :: Completes(m, a) ==> a == m
  {
    assert forall i :: 0 <= i < |m| ==> Matched(m, i);
    assert Explains(s, rule.inputs, contents, m);
    forall a | Completes(m, a)
      ensures a == m
    {
      assert forall i :: 0 <= i < |m| ==> a[i] == m[i];
    }
  }

  // In a connected rule a proper partial match always leaves an input with an explicit atom.
  lemma ConnectedHasAnchoredInput(
    rule: Rule, contents: Contents, pool: set<TokenId>, view: SeparationView, m: seq<int>, s: Substitution)
    requires IsPartialMatch(rule, contents, pool, view, m, s) && GroundContents(contents) && Connected(rule.inputs)
    requires exists i :: Matched(m, i)
    requires exists i :: 0 <= i < |m| && !Matched(m, i)
    ensures exists i :: 0 <= i < |m| && !Matched(m, i) && HasExplicit(RenameVector(s, rule.inputs[i]))
  {
    var matched := set i | 0 <= i < |m| && m[i] >= 0;
    assert forall i :: 0 <= i < |m| ==> (i in matched <==> Matched(m, i));
    assert HasFrontier(rule.inputs, matched);
    var i :| 0 <= i < |rule.inputs| && i !in matched &&
             (HasExplicit(rule.inputs[i]) ||
              exists j :: 0 <= j < |rule.inputs| && j in matched && ShareAtom(rule.inputs[i], rule.inputs[j]));
    var v := RenameVector(s, rule.inputs[i]);
    if HasExplicit(rule.inputs[i]) {
      var k :| 0 <= k < |rule.inputs[i]| && rule.inputs[i][k] >= 0;
      assert v[k] >= 0;
    } else {
      var j :| 0 <= j < |rule.inputs| && j in matched && ShareAtom(rule.inputs[i], rule.inputs[j]);
      var k, l :| 0 <= k < |rule.inputs[i]| && 0 <= l < |rule.inputs[j]| && rule.inputs[i][k] == rule.inputs[j][l];
      assert Matched(m, j);
      assert v[k] == RenameVector(s, rule.inputs[j])[l] == contents[m[j]][l];
      assert IsGround(contents[m[j]]);
      assert v[k] >= 0;
    }
  }
}
