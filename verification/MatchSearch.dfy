/**
  The steps of the search for matches, without its state: what one call may add, how partial matches
  grow, and how names are inferred.

  A call is described by two sets of matches, before and after it: AddsOnlyMatches says that it added
  nothing but matches that complete a partial match in a certain way, HasAllMatches that none of those
  is missing after it.
 */
module MatchSearch {
  import opened Types
  import opened Collections
  import opened Matching
  import opened FreshNames
  import opened EngineIsomorphism

  // Everything the matches of one rule depend on.
  datatype Problem = Problem(ruleId: int, rule: Rule, contents: Contents, pool: set<TokenId>, view: SeparationView)
  {
    ghost predicate Allows(a: seq<TokenId>) {
      IsMatch(rule, contents, pool, view, a)
    }

    ghost predicate HasMatch(m: Match) {
      m.rule == ruleId && Allows(m.inputs)
    }

    ghost predicate HasPartialMatch(m: seq<int>, s: Substitution) {
      && IsPartialMatch(rule, contents, pool, view, m, s)
      && forall i :: 0 <= i < |m| ==> m[i] == UNMATCHED || m[i] >= 0
    }
  }

  // Whatever was added is a match that completes m with one of the tokens at input n.
  ghost predicate AddsOnlyMatches(
    before: set<Match>, after: set<Match>, p: Problem, m: seq<int>, n: nat, tokens: seq<TokenId>)
  {
    && before <= after
    && forall x :: x in after && x !in before ==>
         p.HasMatch(x) && Completes(m, x.inputs) && n < |x.inputs| && x.inputs[n] in tokens
  }

  // Every such match is there.
  ghost predicate HasAllMatches(after: set<Match>, p: Problem, m: seq<int>, n: nat, tokens: seq<TokenId>) {
    forall a :: p.Allows(a) && Completes(m, a) && n < |a| && a[n] in tokens ==> Match(p.ruleId, a) in after
  }

  ghost predicate AddsOnlyMatchesTouching(before: set<Match>, after: set<Match>, p: Problem, tokens: seq<TokenId>) {
    && before <= after
    && forall x :: x in after && x !in before ==> p.HasMatch(x) && Touches(x.inputs, tokens)
  }

  // Every match that has one of the tokens among its first n inputs is there.
  ghost predicate HasAllMatchesTouching(after: set<Match>, p: Problem, tokens: seq<TokenId>, n: nat) {
    forall a :: p.Allows(a) && n <= |a| && Touches(a[..n], tokens) ==> Match(p.ruleId, a) in after
  }

  lemma TouchAtNextInput(
    before: set<Match>, middle: set<Match>, after: set<Match>, p: Problem, tokens: seq<TokenId>, m: seq<int>, n: nat)
    requires n < |m| == |p.rule.inputs| && forall i :: 0 <= i < |m| ==> m[i] == UNMATCHED
    requires AddsOnlyMatchesTouching(before, middle, p, tokens)
    requires AddsOnlyMatches(middle, after, p, m, n, tokens)
    ensures AddsOnlyMatchesTouching(before, after, p, tokens)
    ensures HasAllMatchesTouching(middle, p, tokens, n) && HasAllMatches(after, p, m, n, tokens) ==>
              HasAllMatchesTouching(after, p, tokens, n + 1)
  {
    if HasAllMatchesTouching(middle, p, tokens, n) && HasAllMatches(after, p, m, n, tokens) {
      forall a | p.Allows(a) && n + 1 <= |a| && Touches(a[..n + 1], tokens)
        ensures Match(p.ruleId, a) in after
      {
        assert Completes(m, a);
        var i :| 0 <= i < n + 1 && a[..n + 1][i] in tokens;
        assert i < n ==> a[..n][i] in tokens;
      }
    }
  }

  lemma RenameNothing(inputs: seq<AtomsVector>)
    ensures RenameAll(map[], inputs) == inputs
  {
    forall i | 0 <= i < |inputs|
      ensures RenameVector(map[], inputs[i]) == inputs[i]
    {
    }
  }

  // The tokens of the pool that contain every atom the input names explicitly.
  ghost predicate IsCandidate(input: AtomsVector, contents: Contents, pool: set<TokenId>, t: TokenId) {
    t in pool && t in contents && forall x :: x in input && x >= 0 ==> x in contents[t]
  }

  ghost function CandidateCount(input: AtomsVector, contents: Contents, pool: set<TokenId>): nat {
    |set t | t in pool && IsCandidate(input, contents, pool, t)|
  }

  lemma AddNextToken(
    before: set<Match>, middle: set<Match>, after: set<Match>, p: Problem, m: seq<int>, n: nat,
    tokens: seq<TokenId>, k: nat)
    requires k < |tokens|
    requires AddsOnlyMatches(before, middle, p, m, n, tokens[..k])
    requires AddsOnlyMatches(middle, after, p, m, n, [tokens[k]])
    ensures AddsOnlyMatches(before, after, p, m, n, tokens[..k + 1])
    ensures HasAllMatches(middle, p, m, n, tokens[..k]) && HasAllMatches(after, p, m, n, [tokens[k]]) ==>
              HasAllMatches(after, p, m, n, tokens[..k + 1])
  {
    assert tokens[..k + 1] == tokens[..k] + [tokens[k]];
    assert forall t :: t in tokens[..k + 1] <==> t in tokens[..k] || t in [tokens[k]];
  }

  lemma AddFewerTokens(
    before: set<Match>, after: set<Match>, p: Problem, m: seq<int>, n: nat, tokens: seq<TokenId>, k: nat)
    requires k <= |tokens| && AddsOnlyMatches(before, after, p, m, n, tokens[..k])
    ensures AddsOnlyMatches(before, after, p, m, n, tokens)
  {
    assert tokens == tokens[..k] + tokens[k..];
    assert forall t :: t in tokens[..k] ==> t in tokens;
  }

  // A token that is already used cannot take another place.
  lemma UsedTokenAddsNothing(after: set<Match>, p: Problem, m: seq<int>, n: nat, token: TokenId)
    requires n < |m| && m[n] == UNMATCHED && token >= 0 && token in m
    ensures HasAllMatches(after, p, m, n, [token])
  {
    var i :| 0 <= i < |m| && m[i] == token;
    forall a | p.Allows(a) && Completes(m, a)
      ensures a[n] != token
    {
      assert Matched(m, i) && a[i] == m[i];
    }
  }

  lemma CompletesWithToken(m: seq<int>, n: nat, token: TokenId, a: seq<TokenId>)
    requires n < |m| && m[n] == UNMATCHED && token >= 0
    ensures Completes(m[n := token], a) <==> Completes(m, a) && a[n] == token
  {
    var m' := m[n := token];
    assert Matched(m', n);
    assert forall i :: i != n ==> (Matched(m', i) <==> Matched(m, i));
  }

  // Completing the match with the token at input n, by way of another input and all its candidates.
  lemma CompleteThroughToken(
    before: set<Match>, after: set<Match>, p: Problem, m: seq<int>, n: nat, token: TokenId,
    next: nat, candidates: seq<TokenId>)
    requires n < |m| && m[n] == UNMATCHED && token >= 0 && next < |m|
    requires AddsOnlyMatches(before, after, p, m[n := token], next, candidates)
    ensures AddsOnlyMatches(before, after, p, m, n, [token])
    ensures (forall a :: p.Allows(a) && Completes(m[n := token], a) ==> a[next] in candidates) &&
            HasAllMatches(after, p, m[n := token], next, candidates) ==>
              HasAllMatches(after, p, m, n, [token])
  {
    forall a
      ensures Completes(m[n := token], a) <==> Completes(m, a) && a[n] == token
    {
      CompletesWithToken(m, n, token, a);
    }
  }

  lemma NothingToAdd(stored: set<Match>, p: Problem, m: seq<int>, n: nat, token: TokenId)
    requires n < |m| && forall a :: p.Allows(a) && Completes(m, a) ==> a[n] != token
    ensures AddsOnlyMatches(stored, stored, p, m, n, [token]) && HasAllMatches(stored, p, m, n, [token])
  {
  }

  // Looking only at tokens that contain the named atoms loses no match.
  lemma CandidatesAreComplete(p: Problem, m: seq<int>, s: Substitution, next: nat, candidates: seq<TokenId>)
    requires p.HasPartialMatch(m, s) && next < |m|
    requires forall t :: t in candidates <==>
               IsCandidate(RenameVector(s, p.rule.inputs[next]), p.contents, p.pool, t)
    ensures forall a :: p.Allows(a) && Completes(m, a) ==> a[next] in candidates
    ensures FromPool(p.pool, candidates)
  {
    var input := RenameVector(s, p.rule.inputs[next]);
    forall a | p.Allows(a) && Completes(m, a)
      ensures a[next] in candidates
    {
      var full :| Explains(full, p.rule.inputs, p.contents, a);
      forall x | x in input && x >= 0
        ensures x in p.contents[a[next]]
      {
        MatchHasExplicitAtoms(p.rule, p.contents, p.pool, p.view, m, s, next, a, x);
      }
      assert IsCandidate(input, p.contents, p.pool, a[next]);
    }
    forall i | 0 <= i < |candidates|
      ensures candidates[i] in p.pool
    {
      assert candidates[i] in candidates;
      assert IsCandidate(input, p.contents, p.pool, candidates[i]);
    }
  }

  lemma OnlyCompletion(
    before: set<Match>, after: set<Match>, p: Problem, m: seq<int>, n: nat, token: TokenId, full: seq<TokenId>)
    requires n < |m| && m[n] == UNMATCHED && token >= 0 && full == m[n := token]
    requires p.Allows(full) && after == before + {Match(p.ruleId, full)}
    requires forall a :: Completes(full, a) ==> a == full
    ensures AddsOnlyMatches(before, after, p, m, n, [token]) && HasAllMatches(after, p, m, n, [token])
  {
    CompletesWithToken(m, n, token, full);
    forall a | Completes(m, a) && a[n] == token
      ensures a == full
    {
      CompletesWithToken(m, n, token, a);
    }
  }

  // ----- substitution, step by step

  // Extends the known renaming so that the pattern becomes the token, if that is possible.
  method SubstituteMissingAtoms(pattern: AtomsVector, patternMatch: AtomsVector, known: Substitution)
    returns (ok: bool, renaming: Substitution)
    requires IsGround(patternMatch) && OnPatterns(known) && forall x :: x in known ==> known[x] >= 0
    ensures ok ==> OnPatterns(renaming) && RenameVector(renaming, pattern) == patternMatch
    ensures ok ==> forall x :: x in known ==> x in renaming && renaming[x] == known[x]
    ensures ok ==> forall x :: x in renaming ==> renaming[x] >= 0 && (x in known || x in pattern)
    ensures !ok ==> forall full ::
              OnPatterns(full) && (forall x :: x in known ==> x in full && full[x] == known[x]) ==>
                RenameVector(full, pattern) != patternMatch
  {
    renaming := known;
    if |pattern| != |patternMatch| {
      return false, renaming;
    }
    for j := 0 to |pattern|
      invariant OnPatterns(renaming)
      invariant forall k :: 0 <= k < j ==> Rename(renaming, pattern[k]) == patternMatch[k]
      invariant forall x :: x in known ==> x in renaming && renaming[x] == known[x]
      invariant forall x :: x in renaming ==> renaming[x] >= 0 && (x in known || x in pattern[..j])
      invariant forall full ::
                  OnPatterns(full) && (forall x :: x in known ==> x in full && full[x] == known[x]) &&
                  RenameVector(full, pattern) == patternMatch ==>
                    forall x :: x in renaming ==> x in full && full[x] == renaming[x]
    {
      assert pattern[..j + 1] == pattern[..j] + [pattern[j]];
      var inputAtom := if pattern[j] in renaming then renaming[pattern[j]] else pattern[j];
      if inputAtom < 0 {
        renaming := renaming[inputAtom := patternMatch[j]];
      } else if inputAtom != patternMatch[j] {
        return false, renaming;
      }
    }
    ok := true;
  }

  ghost predicate RenamesAll(s: Substitution, patterns: seq<AtomsVector>, tokens: seq<AtomsVector>) {
    && OnPatterns(s)
    && |patterns| == |tokens|
    && forall i :: 0 <= i < |patterns| ==> RenameVector(s, patterns[i]) == tokens[i]
  }

  // Infers the names of pattern atoms from all inputs together.
  method InferRenaming(patterns: seq<AtomsVector>, tokens: seq<AtomsVector>) returns (ok: bool, renaming: Substitution)
    requires forall i :: 0 <= i < |tokens| ==> IsGround(tokens[i])
    ensures ok ==> RenamesAll(renaming, patterns, tokens) && forall x :: x in renaming ==> IsInputAtom(patterns, x)
    ensures !ok ==> forall full :: !RenamesAll(full, patterns, tokens)
  {
    renaming := map[];
    if |patterns| != |tokens| {
      return false, renaming;
    }
    for i := 0 to |patterns|
      invariant OnPatterns(renaming) && forall x :: x in renaming ==> renaming[x] >= 0 && IsInputAtom(patterns, x)
      invariant forall k :: 0 <= k < i ==> RenameVector(renaming, patterns[k]) == tokens[k]
      invariant forall full :: RenamesAll(full, patterns, tokens) ==> Extends(renaming, full)
    {
      var known := renaming;
      ok, renaming := SubstituteMissingAtoms(patterns[i], tokens[i], known);
      if !ok {
        return;
      }
      forall k | 0 <= k < i
        ensures RenameVector(renaming, patterns[k]) == tokens[k]
      {
      }
      forall full | RenamesAll(full, patterns, tokens)
        ensures Extends(renaming, full)
      {
      }
    }
    ok := true;
  }

  ghost predicate Extends(s: Substitution, t: Substitution) {
    forall x :: x in s ==> x in t && t[x] == s[x]
  }

  // ----- the rule of the isomorphism test

  lemma AnchoredInputsAreConnected(first: Hypergraph)
    ensures Connected(AppendAtom(first, CONNECTING_ATOM))
  {
    var inputs := AppendAtom(first, CONNECTING_ATOM);
    forall i | 0 <= i < |inputs|
      ensures HasExplicit(inputs[i])
    {
      assert inputs[i][|inputs[i]| - 1] == CONNECTING_ATOM;
    }
  }

  lemma InstantiationIsGround(second: Hypergraph, instantiated: Hypergraph)
    requires IsInstantiated(second, instantiated)
    ensures |instantiated| == |second| && forall i :: 0 <= i < |second| ==> IsGround(instantiated[i])
  {
    var connected := AppendAtom(second, CONNECTING_ATOM);
    var largest :| IsLargestAtom(connected, largest) &&
                   instantiated == RenameAll(Naming(Flatten(connected), largest), connected);
    var names := Naming(Flatten(connected), largest);
    NamesAreFresh(Flatten(connected), largest);
    forall i, k | 0 <= i < |connected| && 0 <= k < |connected[i]|
      ensures instantiated[i][k] >= 0
    {
      var v := connected[i];
      assert v[|v| - 1] == CONNECTING_ATOM && CONNECTING_ATOM in v && HasAtom(connected, CONNECTING_ATOM);
      assert v[k] in v && HasAtom(connected, v[k]);
      FlattenMember(connected, v[k]);
    }
  }

  // A match of a single rule touching one token is a renaming of its inputs onto the tokens.
  lemma MatchIsRenaming(space: MatchSpace, inputs: Hypergraph, tokens: Hypergraph, matches: set<Match>)
    requires space.rules == [Rule(inputs, [], SelectAll)] && 0 < |inputs| == |tokens|
    requires forall t :: t in space.contents <==> 0 <= t < |tokens|
    requires forall t :: t in space.contents ==> space.contents[t] == tokens[t]
    requires forall t :: t in space.pool <==> 0 <= t < |tokens|
    requires forall m :: m in matches <==> space.Allows(m) && Touches(m.inputs, [0])
    ensures matches != {} <==> RenamesOnto(inputs, tokens)
  {
    if matches != {} {
      var m := Member(matches);
      var s :| Explains(s, inputs, space.contents, m.inputs);
      assert Carries(s, m.inputs, inputs, tokens);
    }
    if RenamesOnto(inputs, tokens) {
      var s, p :| Carries(s, p, inputs, tokens);
      assert Explains(s, inputs, space.contents, p);
      var i := PermutationReaches(p, |inputs|, 0);
      assert Touches(p, [0]);
      assert space.Allows(Match(0, p));
      assert Match(0, p) in matches;
    }
  }

  lemma OnlyOneInstantiation(first: Hypergraph, second: Hypergraph, instantiated: Hypergraph)
    requires 0 < |first| == |second| && IsInstantiated(second, instantiated)
    ensures EngineIsomorphic(first, second) <==> RenamesOnto(AppendAtom(first, CONNECTING_ATOM), instantiated)
  {
  }

  lemma FitTokenExtends(
    p: Problem, m: seq<int>, inputs: seq<AtomsVector>, s: Substitution, n: nat, token: TokenId, u: Substitution)
    requires p.HasPartialMatch(m, s) && GroundContents(p.contents) && inputs == RenameAll(s, p.rule.inputs)
    requires n < |m| && m[n] == UNMATCHED && token >= 0 && token in p.pool && token in p.contents && token !in m
    requires LeastUnifier(u, inputs[n], p.contents[token])
    requires p.rule.selection == SelectSpacelike ==>
               forall i :: Matched(m, i) ==> SpacelikeIn(p.view, m[i], token) && SpacelikeIn(p.view, token, m[i])
    ensures p.HasPartialMatch(m[n := token], s + u)
    ensures RenameAll(u, inputs) == RenameAll(s + u, p.rule.inputs)
  {
    ExtendPartialMatch(p.rule, p.contents, p.pool, p.view, m, s, n, token, u);
    FitTokenRenames(p.rule.inputs, inputs, s, n, p.contents[token], u);
  }

  lemma FitTokenRenames(
    patterns: seq<AtomsVector>, inputs: seq<AtomsVector>, s: Substitution, n: nat, token: AtomsVector, u: Substitution)
    requires OnPatterns(s) && (forall x :: x in s ==> s[x] >= 0) && IsGround(token)
    requires inputs == RenameAll(s, patterns) && n < |inputs| && LeastUnifier(u, inputs[n], token)
    ensures RenameAll(u, inputs) == RenameAll(s + u, patterns)
  {
    UnifierIsDisjoint(s, u, patterns[n], token);
    forall i | 0 <= i < |inputs|
      ensures RenameAll(u, inputs)[i] == RenameAll(s + u, patterns)[i]
    {
      ComposeVector(s, u, patterns[i]);
    }
  }

  lemma UnfitTokenMatchesNothing(p: Problem, m: seq<int>, s: Substitution, n: nat, token: TokenId)
    requires p.HasPartialMatch(m, s) && n < |m| && token in p.contents
    requires forall full :: OnPatterns(full) ==>
               RenameVector(full, RenameVector(s, p.rule.inputs[n])) != p.contents[token]
    ensures forall a :: p.Allows(a) && Completes(m, a) ==> a[n] != token
  {
    forall a | p.Allows(a) && Completes(m, a)
      ensures a[n] != token
    {
      if a[n] == token {
        NoUnifierNoMatch(p.rule, p.contents, p.pool, p.view, m, s, n, token, a);
      }
    }
  }

  lemma NotSpacelikeNoMatch(p: Problem, m: seq<int>, n: nat, token: TokenId, m': seq<int>)
    requires p.rule.selection == SelectSpacelike
    requires n < |m| && m[n] == UNMATCHED && token >= 0 && m' == m[n := token]
    requires exists i :: Matched(m', i) && m'[i] != token && !SpacelikeIn(p.view, m'[i], token)
    ensures forall a :: p.Allows(a) && Completes(m, a) ==> a[n] != token
  {
    var i :| Matched(m', i) && m'[i] != token && !SpacelikeIn(p.view, m'[i], token);
    forall a | p.Allows(a) && Completes(m, a)
      ensures a[n] != token
    {
      assert Matched(m, i) && a[i] == m[i];
    }
  }

  lemma SpacelikeBothWays(p: Problem, m: seq<int>, n: nat, token: TokenId, m': seq<int>)
    requires n < |m| && m[n] == UNMATCHED && token !in m && m' == m[n := token]
    requires forall i :: Matched(m', i) && m'[i] != token ==> SpacelikeIn(p.view, m'[i], token)
    ensures forall i :: Matched(m, i) ==> SpacelikeIn(p.view, m[i], token) && SpacelikeIn(p.view, token, m[i])
  {
    forall i | Matched(m, i)
      ensures SpacelikeIn(p.view, m[i], token) && SpacelikeIn(p.view, token, m[i])
    {
      assert Matched(m', i) && m'[i] == m[i];
    }
  }

  lemma NextInStride(i: nat, n: nat)
    requires n > 0
    ensures (i + n) % n == i % n
    ensures forall r :: i < r < i + n ==> r % n != i % n
  {
    assert i + n == n * (i / n + 1) + i % n;
    SameRemainder(i + n, n, i / n + 1, i % n);
    forall r | i < r < i + n
      ensures r % n != i % n
    {
      if r % n == i % n {
        assert r - i == n * (r / n - i / n);
        PositiveMultiple(n, r / n - i / n);
      }
    }
  }

  // The rules that a worker takes which starts at start and advances by n.
  ghost predicate InStride(r: int, start: int, n: int) {
    n > 0 && r % n == start
  }

  lemma StrideStarts(start: nat, n: nat)
    requires start < n
    ensures InStride(start, start, n) && forall r :: 0 <= r < start ==> !InStride(r, start, n)
  {
  }

  lemma StrideAdvances(i: nat, start: nat, n: nat)
    requires InStride(i, start, n)
    ensures InStride(i + n, start, n) && forall r :: i < r < i + n ==> !InStride(r, start, n)
  {
    NextInStride(i, n);
  }

  lemma SameRemainder(x: int, n: int, q: int, r: int)
    requires n > 0 && 0 <= r < n && x == n * q + r
    ensures x % n == r
  {
    assert n * (x / n - q) == r - x % n;
    if x / n != q {
      PositiveMultiple(n, x / n - q);
    }
  }

  lemma PositiveMultiple(n: int, k: int)
    requires n > 0
    ensures k >= 1 ==> n * k >= n
    ensures k <= -1 ==> n * k <= -n
    ensures k == 0 ==> n * k == 0
  {
  }
}
