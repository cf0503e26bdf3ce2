/**
  The search for matches: a backtracking join over the rule inputs, guided by the atoms index.

  The ghost parameter p of the methods is the problem they solve, and s the substitution that the
  inputs matched so far amount to. Contracts say which matches were stored since the call.
 */
module HypergraphMatcher {
  import opened Types
  import opened Collections
  import opened CausalHistory
  import opened Matching
  import opened MatchOrder
  import opened FreshNames
  import opened EngineIsomorphism
  import opened Deduplication
  import opened MatchSearch
  import opened InsertionOrder
  import opened Workers
  import Index = AtomsIndex
  import Graph = TokenEventGraph
  import Queue = MatchQueue

  datatype Error = NoError | Aborted | DisconnectedInputs

  // Where matches go as they are found.
  datatype MatchStorage = Main | NewMatches

  class HypergraphMatcher {
    const rules: seq<Rule>
    const atomsIndex: Index.AtomsIndex
    // Tells how tokens are separated; without it every separation is unknown.
    const graph: Graph.TokenEventGraph?
    const queue: Queue.MatchQueue
    const deduplicates: bool
    // What the standard library does to sort matches by their rules.
    const ruleSort: RuleSort
    var newMatches: set<Match>
    var currentError: Error

    constructor (rules: seq<Rule>, atomsIndex: Index.AtomsIndex, graph: Graph.TokenEventGraph?,
                 orderingSpec: OrderingSpec, deduplicates: bool, ruleSort: RuleSort)
      ensures this.deduplicates == deduplicates && this.ruleSort == ruleSort
      ensures this.rules == rules && this.atomsIndex == atomsIndex && this.graph == graph
      ensures fresh(queue) && queue.Valid() && queue.NextIsCurrent() && queue.allMatches == {}
      ensures queue.orderingSpec == orderingSpec
      ensures newMatches == {} && currentError == NoError
    {
      this.rules, this.atomsIndex, this.graph, this.deduplicates := rules, atomsIndex, graph, deduplicates;
      this.ruleSort := ruleSort;
      queue := new Queue.MatchQueue(orderingSpec);
      newMatches, currentError := {}, NoError;
    }

    ghost function View(): SeparationView
      reads graph
    {
      if graph == null then SeparationView(History([], []), false)
      else SeparationView(graph.History(), graph.tracksChoices)
    }

    ghost predicate IsReady(contents: Contents, pool: set<TokenId>)
      reads atomsIndex, graph
    {
      && atomsIndex.Indexes(contents, pool)
      && GroundContents(contents)
      && (forall t :: t in pool ==> t >= 0)
      && (graph != null ==> graph.Consistent() && forall t :: t in pool ==> IsToken(graph.History(), t))
    }

    ghost predicate Solves(p: Problem)
      reads atomsIndex, graph
    {
      && 0 <= p.ruleId < |rules| && p.rule == rules[p.ruleId]
      && IsReady(p.contents, p.pool)
      && p.view == View()
    }

    ghost function Stored(storage: MatchStorage): set<Match>
      reads this`newMatches, queue`allMatches
    {
      if storage == Main then queue.allMatches else newMatches
    }

    // Matches are stored in one place only, and the queue stays consistent.
    twostate predicate StoresIn(storage: MatchStorage)
      reads this, queue
    {
      && queue.Valid()
      && (storage == Main ==> newMatches == old(newMatches))
      && (storage == NewMatches ==> unchanged(queue))
      && unchanged(queue`nextMatch)
    }

    twostate predicate ErrorIsJustified(mayAbort: bool, p: Problem)
      reads this`currentError
    {
      && (old(currentError) != NoError ==> currentError == old(currentError))
      && (currentError == Aborted ==> mayAbort || old(currentError) == Aborted)
      && (currentError == DisconnectedInputs ==>
            !Connected(p.rule.inputs) || old(currentError) == DisconnectedInputs)
    }

    method SetCurrentErrorIfNone(error: Error)
      modifies this`currentError
      ensures currentError == if old(currentError) == NoError then error else old(currentError)
    {
      if currentError == NoError {
        currentError := error;
      }
    }

    predicate IsMatchComplete(m: seq<int>)
      ensures IsMatchComplete(m) <==> forall i :: 0 <= i < |m| ==> m[i] >= 0
    {
      forall i | 0 <= i < |m| :: m[i] >= 0
    }

    method StoreMatch(m: Match, storage: MatchStorage)
      requires queue.Valid()
      modifies this`newMatches, queue
      ensures StoresIn(storage) && Stored(storage) == old(Stored(storage)) + {m}
    {
      if storage == NewMatches {
        newMatches := newMatches + {m};
      } else {
        queue.InsertMatch(m);
      }
    }

    // Whether the token can take the place, and the partial match if it does.
    method FitToken(
      incomplete: seq<int>, inputs: seq<AtomsVector>, nextInput: nat, token: TokenId,
      ruleId: int, contents: Contents, ghost p: Problem, ghost s: Substitution)
      returns (fits: bool, newMatch: seq<int>, newInputs: seq<AtomsVector>, ghost newRenaming: Substitution)
      requires Solves(p) && p.ruleId == ruleId && p.contents == contents
      requires p.HasPartialMatch(incomplete, s) && inputs == RenameAll(s, p.rule.inputs)
      requires nextInput < |incomplete| && incomplete[nextInput] == UNMATCHED
      requires token in p.pool && token !in incomplete
      ensures newMatch == incomplete[nextInput := token]
      ensures fits ==> p.HasPartialMatch(newMatch, newRenaming) && newInputs == RenameAll(newRenaming, p.rule.inputs)
      ensures !fits ==> forall a :: p.Allows(a) && Completes(incomplete, a) ==> a[nextInput] != token
    {
      newMatch, newInputs, newRenaming := incomplete[nextInput := token], inputs, s;
      var ok, renaming := SubstituteMissingAtoms(inputs[nextInput], contents[token], map[]);
      if !ok {
        UnfitTokenMatchesNothing(p, incomplete, s, nextInput, token);
        return false, newMatch, newInputs, newRenaming;
      }
      if rules[ruleId].selection == SelectSpacelike {
        var spacelike := IsSpacelikeSeparated(token, newMatch, p);
        if !spacelike {
          NotSpacelikeNoMatch(p, incomplete, nextInput, token, newMatch);
          return false, newMatch, newInputs, newRenaming;
        }
        SpacelikeBothWays(p, incomplete, nextInput, token, newMatch);
      }
      newInputs := RenameAll(renaming, inputs);
      newRenaming := s + renaming;
      FitTokenExtends(p, incomplete, inputs, s, nextInput, token, renaming);
      fits := true;
    }

    // Separation from the tokens matched before; the token itself and free places do not matter.
    method IsSpacelikeSeparated(token: TokenId, previousTokens: seq<int>, ghost p: Problem) returns (spacelike: bool)
      requires Solves(p) && token in p.pool
      requires forall i :: Matched(previousTokens, i) ==> previousTokens[i] in p.pool
      ensures spacelike <==> forall i :: Matched(previousTokens, i) && previousTokens[i] != token ==>
                               SpacelikeIn(p.view, previousTokens[i], token)
    {
      for k := 0 to |previousTokens|
        invariant forall i :: Matched(previousTokens, i) && i < k && previousTokens[i] != token ==>
                    SpacelikeIn(p.view, previousTokens[i], token)
      {
        var previous := previousTokens[k];
        if previous != token && previous >= 0 {
          assert Matched(previousTokens, k);
          var separation := Unknown;
          if graph != null {
            separation := graph.TokenSeparation(previous, token);
          }
          if separation != Spacelike {
            return false;
          }
        }
      }
      spacelike := true;
    }

    // The free input with the fewest candidate tokens among those that name some atom, and its candidates.
    method NextBestInputAndTokensToTry(
      incomplete: seq<int>, inputs: seq<AtomsVector>, contents: Contents, ghost p: Problem, ghost s: Substitution)
      returns (nextInput: int, tokensToTry: seq<TokenId>)
      requires Solves(p) && p.contents == contents
      requires p.HasPartialMatch(incomplete, s) && inputs == RenameAll(s, p.rule.inputs)
      requires (exists i :: Matched(incomplete, i)) && exists i :: 0 <= i < |incomplete| && !Matched(incomplete, i)
      modifies this`currentError
      ensures ErrorIsJustified(false, p)
      ensures nextInput == -1 ==> currentError != NoError
      ensures nextInput != -1 ==>
                && currentError == old(currentError)
                && 0 <= nextInput < |incomplete| && incomplete[nextInput] == UNMATCHED
                && (forall t :: t in tokensToTry <==> IsCandidate(inputs[nextInput], contents, p.pool, t))
                && (forall i :: 0 <= i < |inputs| && incomplete[i] == UNMATCHED && HasExplicit(inputs[i]) ==>
                      CandidateCount(inputs[nextInput], contents, p.pool) <= CandidateCount(inputs[i], contents, p.pool))
    {
      nextInput, tokensToTry := -1, [];
      for i := 0 to |inputs|
        invariant currentError == old(currentError)
        invariant -1 <= nextInput < i
        invariant nextInput == -1 ==> forall k :: 0 <= k < i && incomplete[k] == UNMATCHED ==> !HasExplicit(inputs[k])
        invariant nextInput != -1 ==>
                    && incomplete[nextInput] == UNMATCHED
                    && (forall t :: t in tokensToTry <==> IsCandidate(inputs[nextInput], contents, p.pool, t))
                    && |tokensToTry| == CandidateCount(inputs[nextInput], contents, p.pool)
                    && (forall k :: 0 <= k < i && incomplete[k] == UNMATCHED && HasExplicit(inputs[k]) ==>
                          |tokensToTry| <= CandidateCount(inputs[k], contents, p.pool))
      {
        if incomplete[i] == UNMATCHED {
          var appearingAtoms := ExplicitAtoms(inputs[i]);
          if appearingAtoms != {} {
            var potentialTokens := TokensContainingAll(inputs[i], appearingAtoms, contents, p.pool);
            if nextInput == -1 || |potentialTokens| < |tokensToTry| {
              nextInput, tokensToTry := i, potentialTokens;
            }
          }
        }
      }
      if nextInput == -1 {
        if Connected(p.rule.inputs) {
          ConnectedHasAnchoredInput(p.rule, p.contents, p.pool, p.view, incomplete, s);
        }
        SetCurrentErrorIfNone(DisconnectedInputs);
      }
    }

    static method ExplicitAtoms(input: AtomsVector) returns (atoms: set<Atom>)
      ensures forall x :: x in atoms <==> x in input && x >= 0
      ensures atoms == {} <==> !HasExplicit(input)
    {
      atoms := {};
      for k := 0 to |input|
        invariant forall x :: x in atoms <==> x in input[..k] && x >= 0
      {
        assert input[..k + 1] == input[..k] + [input[k]];
        assert forall x :: x in input[..k + 1] <==> x in input[..k] || x == input[k];
        if input[k] >= 0 {
          atoms := atoms + {input[k]};
        }
      }
      assert input[..|input|] == input;
      if atoms != {} {
        ghost var x := Member(atoms);
        assert x in input;
      }
      if k :| 0 <= k < |input| && input[k] >= 0 {
        assert input[k] in atoms;
      }
    }

    // Counts, for every token, how many of the atoms it contains, and keeps those that contain all.
    method TokensContainingAll(
      input: AtomsVector, atoms: set<Atom>, contents: Contents, ghost pool: set<TokenId>) returns (tokens: seq<TokenId>)
      requires atomsIndex.Indexes(contents, pool)
      requires atoms != {} && forall x :: x in atoms <==> x in input && x >= 0
      ensures forall t :: t in tokens <==> IsCandidate(input, contents, pool, t)
      ensures |tokens| == CandidateCount(input, contents, pool)
    {
      var inputAtomsCount: map<TokenId, int> := map[];
      var remaining := atoms;
      while remaining != {}
        invariant remaining <= atoms
        invariant forall t :: Count(inputAtomsCount, t) == |AtomsOfToken(atoms - remaining, t)|
      {
        var atom := Pick(remaining);
        forall t
          ensures |AtomsOfToken(atoms - (remaining - {atom}), t)| ==
                  |AtomsOfToken(atoms - remaining, t)| + if t in atomsIndex.TokensContainingAtom(atom) then 1 else 0
        {
          assert atoms - (remaining - {atom}) == (atoms - remaining) + {atom};
          AddAtom(atoms - remaining, atom, t);
        }
        inputAtomsCount := IncrementAll(inputAtomsCount, atomsIndex.TokensContainingAtom(atom));
        remaining := remaining - {atom};
      }
      assert atoms - {} == atoms;
      tokens := TokensWithCount(inputAtomsCount, |atoms|);
      forall t
        ensures Count(inputAtomsCount, t) == |atoms| <==> IsCandidate(input, contents, pool, t)
      {
        AllAtomsIffCandidate(input, atoms, contents, pool, t);
      }
      SameCandidates(input, contents, pool, tokens);
    }

    ghost function AtomsOfToken(atoms: set<Atom>, t: TokenId): set<Atom>
      reads atomsIndex
    {
      set x | x in atoms && t in atomsIndex.TokensContainingAtom(x)
    }

    lemma AddAtom(atoms: set<Atom>, atom: Atom, t: TokenId)
      requires atom !in atoms
      ensures |AtomsOfToken(atoms + {atom}, t)| ==
              |AtomsOfToken(atoms, t)| + if t in atomsIndex.TokensContainingAtom(atom) then 1 else 0
    {
      var before, after := AtomsOfToken(atoms, t), AtomsOfToken(atoms + {atom}, t);
      var expected := if t in atomsIndex.TokensContainingAtom(atom) then before + {atom} else before;
      SameElements(after, expected);
    }

    lemma AllAtomsIffCandidate(
      input: AtomsVector, atoms: set<Atom>, contents: Contents, pool: set<TokenId>, t: TokenId)
      requires atomsIndex.Indexes(contents, pool)
      requires atoms != {} && forall x :: x in atoms <==> x in input && x >= 0
      ensures |AtomsOfToken(atoms, t)| == |atoms| <==> IsCandidate(input, contents, pool, t)
    {
      var present := AtomsOfToken(atoms, t);
      if |present| == |atoms| {
        SameSizeSubset(present, atoms);
        var x := Member(atoms);
        assert x in present;
      }
      if IsCandidate(input, contents, pool, t) {
        SameElements(present, atoms);
      }
    }

    static ghost function Count(counts: map<TokenId, int>, t: TokenId): int {
      if t in counts then counts[t] else 0
    }

    static method IncrementAll(counts: map<TokenId, int>, tokens: set<TokenId>) returns (result: map<TokenId, int>)
      ensures forall t :: Count(result, t) == Count(counts, t) + if t in tokens then 1 else 0
    {
      result := counts;
      var remaining := tokens;
      while remaining != {}
        invariant remaining <= tokens
        invariant forall t :: Count(result, t) == Count(counts, t) + if t in tokens && t !in remaining then 1 else 0
      {
        var token := Pick(remaining);
        result := result[token := (if token in result then result[token] else 0) + 1];
        remaining := remaining - {token};
      }
    }

    static method TokensWithCount(counts: map<TokenId, int>, count: int) returns (tokens: seq<TokenId>)
      requires count > 0
      ensures forall t :: t in tokens <==> Count(counts, t) == count
      ensures Distinct(tokens)
    {
      tokens := [];
      var remaining := counts.Keys;
      while remaining != {}
        invariant remaining <= counts.Keys
        invariant forall t :: t in tokens <==> t in counts && t !in remaining && counts[t] == count
        invariant Distinct(tokens)
      {
        var token := Pick(remaining);
        if counts[token] == count {
          tokens := tokens + [token];
        }
        remaining := remaining - {token};
      }
    }

    static lemma SameCandidates(input: AtomsVector, contents: Contents, pool: set<TokenId>, tokens: seq<TokenId>)
      requires Distinct(tokens) && forall t :: t in tokens <==> IsCandidate(input, contents, pool, t)
      ensures |tokens| == CandidateCount(input, contents, pool)
    {
      var candidates := set t | t in pool && IsCandidate(input, contents, pool, t);
      DistinctSize(tokens);
      var elements := Elements(tokens);
      SameElements(elements, candidates);
    }

    method CompleteMatchesStartingWithInput(
      incomplete: seq<int>, inputs: seq<AtomsVector>, nextInput: nat, potentialTokens: seq<TokenId>,
      ruleId: int, contents: Contents, mayAbort: bool, storage: MatchStorage, ghost p: Problem, ghost s: Substitution)
      requires Solves(p) && p.ruleId == ruleId && p.contents == contents && queue.Valid()
      requires p.HasPartialMatch(incomplete, s) && inputs == RenameAll(s, p.rule.inputs)
      requires nextInput < |incomplete| && incomplete[nextInput] == UNMATCHED
      requires FromPool(p.pool, potentialTokens)
      modifies this, queue
      ensures StoresIn(storage) && ErrorIsJustified(mayAbort, p)
      ensures AddsOnlyMatches(old(Stored(storage)), Stored(storage), p, incomplete, nextInput, potentialTokens)
      ensures currentError == NoError ==> HasAllMatches(Stored(storage), p, incomplete, nextInput, potentialTokens)
      decreases multiset(incomplete)[UNMATCHED], 1
    {
      for k := 0 to |potentialTokens|
        invariant StoresIn(storage) && ErrorIsJustified(mayAbort, p)
        invariant AddsOnlyMatches(old(Stored(storage)), Stored(storage), p, incomplete, nextInput, potentialTokens[..k])
        invariant currentError == NoError ==> HasAllMatches(Stored(storage), p, incomplete, nextInput, potentialTokens[..k])
      {
        if currentError != NoError {
          AddFewerTokens(old(Stored(storage)), Stored(storage), p, incomplete, nextInput, potentialTokens, k);
          return;
        }
        var token := potentialTokens[k];
        ghost var middle := Stored(storage);
        if token !in incomplete {
          AttemptMatchTokenToInput(
            incomplete, inputs, nextInput, token, ruleId, contents, mayAbort, storage, p, s);
        } else {
          UsedTokenAddsNothing(Stored(storage), p, incomplete, nextInput, token);
        }
        AddNextToken(old(Stored(storage)), middle, Stored(storage), p, incomplete, nextInput, potentialTokens, k);
      }
      assert potentialTokens[..|potentialTokens|] == potentialTokens;
    }

    method AttemptMatchTokenToInput(
      incomplete: seq<int>, inputs: seq<AtomsVector>, nextInput: nat, token: TokenId,
      ruleId: int, contents: Contents, mayAbort: bool, storage: MatchStorage, ghost p: Problem, ghost s: Substitution)
      requires Solves(p) && p.ruleId == ruleId && p.contents == contents && queue.Valid()
      requires p.HasPartialMatch(incomplete, s) && inputs == RenameAll(s, p.rule.inputs)
      requires nextInput < |incomplete| && incomplete[nextInput] == UNMATCHED
      requires token in p.pool && token !in incomplete
      modifies this, queue
      ensures StoresIn(storage) && ErrorIsJustified(mayAbort, p)
      ensures AddsOnlyMatches(old(Stored(storage)), Stored(storage), p, incomplete, nextInput, [token])
      ensures currentError == NoError ==> HasAllMatches(Stored(storage), p, incomplete, nextInput, [token])
      decreases multiset(incomplete)[UNMATCHED], 0
    {
      var abortRequested: bool := *;
      if mayAbort && abortRequested {
        SetCurrentErrorIfNone(Aborted);
        return;
      }
      var fits, newMatch, newInputs;
      ghost var newRenaming;
      fits, newMatch, newInputs, newRenaming := FitToken(incomplete, inputs, nextInput, token, ruleId, contents, p, s);
      if !fits {
        NothingToAdd(Stored(storage), p, incomplete, nextInput, token);
        return;
      }
      ContinueMatch(
        incomplete, nextInput, token, newMatch, newInputs, ruleId, contents, mayAbort, storage, p, newRenaming);
    }

    // The token has taken its place; the rest of the inputs follow.
    method ContinueMatch(
      ghost incomplete: seq<int>, ghost nextInput: nat, ghost token: TokenId, newMatch: seq<int>, newInputs: seq<AtomsVector>,
      ruleId: int, contents: Contents, mayAbort: bool, storage: MatchStorage, ghost p: Problem, ghost s: Substitution)
      requires Solves(p) && p.ruleId == ruleId && p.contents == contents && queue.Valid()
      requires nextInput < |incomplete| && incomplete[nextInput] == UNMATCHED && token >= 0
      requires newMatch == incomplete[nextInput := token]
      requires p.HasPartialMatch(newMatch, s) && newInputs == RenameAll(s, p.rule.inputs)
      modifies this, queue
      ensures StoresIn(storage) && ErrorIsJustified(mayAbort, p)
      ensures AddsOnlyMatches(old(Stored(storage)), Stored(storage), p, incomplete, nextInput, [token])
      ensures currentError == NoError ==> HasAllMatches(Stored(storage), p, incomplete, nextInput, [token])
      decreases multiset(newMatch)[UNMATCHED], 2
    {
      if IsMatchComplete(newMatch) {
        CompletePartialMatch(p.rule, p.contents, p.pool, p.view, newMatch, s);
        StoreMatch(Match(ruleId, newMatch), storage);
        OnlyCompletion(old(Stored(storage)), Stored(storage), p, incomplete, nextInput, token, newMatch);
        return;
      }
      assert Matched(newMatch, nextInput);
      assert exists i :: 0 <= i < |newMatch| && !Matched(newMatch, i) by {
        var i :| 0 <= i < |newMatch| && newMatch[i] < 0;
        assert !Matched(newMatch, i);
      }
      var next, candidates := NextBestInputAndTokensToTry(newMatch, newInputs, contents, p, s);
      if next == -1 {
        return;
      }
      CandidatesAreComplete(p, newMatch, s, next, candidates);
      CompleteMatchesStartingWithInput(
        newMatch, newInputs, next, candidates, ruleId, contents, mayAbort, storage, p, s);
      CompleteThroughToken(old(Stored(storage)), Stored(storage), p, incomplete, nextInput, token, next, candidates);
    }

    method AddMatchesForRule(
      tokenIds: seq<TokenId>, ruleId: int, contents: Contents, mayAbort: bool, storage: MatchStorage, ghost p: Problem)
      requires Solves(p) && p.ruleId == ruleId && p.contents == contents && queue.Valid()
      requires FromPool(p.pool, tokenIds)
      modifies this, queue
      ensures StoresIn(storage) && ErrorIsJustified(mayAbort, p)
      ensures AddsOnlyMatchesTouching(old(Stored(storage)), Stored(storage), p, tokenIds)
      ensures currentError == NoError ==> HasAllMatchesTouching(Stored(storage), p, tokenIds, |p.rule.inputs|)
    {
      var ruleInputs := rules[ruleId].inputs;
      var emptyMatch := seq(|ruleInputs|, i => UNMATCHED);
      ghost var none: Substitution := map[];
      assert p.HasPartialMatch(emptyMatch, none);
      RenameNothing(ruleInputs);
      for i := 0 to |ruleInputs|
        invariant StoresIn(storage) && ErrorIsJustified(mayAbort, p)
        invariant AddsOnlyMatchesTouching(old(Stored(storage)), Stored(storage), p, tokenIds)
        invariant currentError == NoError ==> HasAllMatchesTouching(Stored(storage), p, tokenIds, i)
      {
        ghost var middle := Stored(storage);
        CompleteMatchesStartingWithInput(
          emptyMatch, ruleInputs, i, tokenIds, ruleId, contents, mayAbort, storage, p, none);
        TouchAtNextInput(old(Stored(storage)), middle, Stored(storage), p, tokenIds, emptyMatch, i);
      }
    }

    // ----- all rules

    ghost function Space(contents: Contents, pool: set<TokenId>): MatchSpace
      reads graph
    {
      MatchSpace(rules, contents, pool, View())
    }

    ghost function ProblemOf(ruleId: int, contents: Contents, pool: set<TokenId>): Problem
      requires 0 <= ruleId < |rules|
      reads graph
    {
      Problem(ruleId, rules[ruleId], contents, pool, View())
    }

    // Between before and after only allowed matches that touch the tokens were stored.
    ghost predicate AddsOnlyAllowed(before: set<Match>, after: set<Match>, space: MatchSpace, tokens: seq<TokenId>) {
      && before <= after
      && forall m :: m in after && m !in before ==> space.Allows(m) && Touches(m.inputs, tokens)
    }

    // For the rules in done, all of them are there.
    ghost predicate HasAllAllowed(after: set<Match>, space: MatchSpace, tokens: seq<TokenId>, done: set<int>) {
      forall m :: space.Allows(m) && Touches(m.inputs, tokens) && m.rule in done ==> m in after
    }

    twostate predicate ErrorsAreJustified(mayAbort: bool)
      reads this`currentError
    {
      && (old(currentError) != NoError ==> currentError == old(currentError))
      && (currentError == Aborted ==> mayAbort || old(currentError) == Aborted)
      && (currentError == DisconnectedInputs ==>
            (exists r :: 0 <= r < |rules| && !Connected(rules[r].inputs)) || old(currentError) == DisconnectedInputs)
    }

    method AddMatchesForOneRule(
      tokenIds: seq<TokenId>, ruleId: int, contents: Contents, mayAbort: bool, storage: MatchStorage,
      ghost pool: set<TokenId>, ghost before: set<Match>, ghost done: set<int>)
      requires 0 <= ruleId < |rules| && IsReady(contents, pool) && queue.Valid() && FromPool(pool, tokenIds)
      requires AddsOnlyAllowed(before, Stored(storage), Space(contents, pool), tokenIds)
      requires currentError == NoError ==> HasAllAllowed(Stored(storage), Space(contents, pool), tokenIds, done)
      modifies this, queue
      ensures StoresIn(storage) && ErrorsAreJustified(mayAbort)
      ensures AddsOnlyAllowed(before, Stored(storage), Space(contents, pool), tokenIds)
      ensures currentError == NoError ==>
                HasAllAllowed(Stored(storage), Space(contents, pool), tokenIds, done + {ruleId})
      ensures old(Stored(storage)) <= Stored(storage)
      ensures forall m :: m in Stored(storage) && m !in old(Stored(storage)) ==> m.rule == ruleId
    {
      ghost var p := ProblemOf(ruleId, contents, pool);
      ghost var start := Stored(storage);
      AddMatchesForRule(tokenIds, ruleId, contents, mayAbort, storage, p);
      OneRuleIsDone(start, Stored(storage), ruleId, contents, pool, tokenIds, currentError == NoError);
    }

    // The matches of the problem are the allowed matches of its rule.
    lemma OneRuleIsDone(
      start: set<Match>, after: set<Match>, ruleId: int, contents: Contents, pool: set<TokenId>,
      tokenIds: seq<TokenId>, done: bool)
      requires 0 <= ruleId < |rules|
      requires AddsOnlyMatchesTouching(start, after, ProblemOf(ruleId, contents, pool), tokenIds)
      requires done ==>
                 HasAllMatchesTouching(after, ProblemOf(ruleId, contents, pool), tokenIds, |rules[ruleId].inputs|)
      ensures AddsOnlyAllowed(start, after, Space(contents, pool), tokenIds)
      ensures forall m :: m in after && m !in start ==> m.rule == ruleId
      ensures done ==> HasAllAllowed(after, Space(contents, pool), tokenIds, {ruleId})
    {
      var p := ProblemOf(ruleId, contents, pool);
      forall m | done && Space(contents, pool).Allows(m) && Touches(m.inputs, tokenIds) && m.rule == ruleId
        ensures m in after
      {
        assert m.inputs[..|m.inputs|] == m.inputs;
        assert p.Allows(m.inputs) && m == Match(ruleId, m.inputs);
      }
    }

    // One worker of several: every numThreads-th rule, from its own first one. It adds exactly its work.
    method AddMatchesForRuleRange(
      tokenIds: seq<TokenId>, start: nat, numThreads: nat, contents: Contents, mayAbort: bool, storage: MatchStorage,
      ghost pool: set<TokenId>, ghost before: set<Match>, ghost done: set<int>)
      returns (ghost doneNow: set<int>)
      requires numThreads > start && IsReady(contents, pool) && queue.Valid() && FromPool(pool, tokenIds)
      requires AddsOnlyAllowed(before, Stored(storage), Space(contents, pool), tokenIds)
      requires currentError == NoError ==> HasAllAllowed(Stored(storage), Space(contents, pool), tokenIds, done)
      modifies this, queue
      ensures StoresIn(storage) && ErrorsAreJustified(mayAbort)
      ensures AddsOnlyAllowed(before, Stored(storage), Space(contents, pool), tokenIds)
      ensures currentError == NoError ==> HasAllAllowed(Stored(storage), Space(contents, pool), tokenIds, doneNow)
      ensures done <= doneNow && forall r :: 0 <= r < |rules| && r % numThreads == start ==> r in doneNow
      ensures forall m :: m in Stored(storage) && m !in old(Stored(storage)) ==>
                IsWorkOf(m, Space(contents, pool), tokenIds, start, numThreads)
      ensures currentError == NoError ==> forall m ::
                IsWorkOf(m, Space(contents, pool), tokenIds, start, numThreads) ==> m in Stored(storage)
    {
      doneNow := AddMatchesInStride(tokenIds, start, numThreads, contents, mayAbort, storage, pool, before, done);
    }

    method AddMatchesInStride(
      tokenIds: seq<TokenId>, start: nat, numThreads: nat, contents: Contents, mayAbort: bool, storage: MatchStorage,
      ghost pool: set<TokenId>, ghost before: set<Match>, ghost done: set<int>)
      returns (ghost doneNow: set<int>)
      requires numThreads > start && IsReady(contents, pool) && queue.Valid() && FromPool(pool, tokenIds)
      requires AddsOnlyAllowed(before, Stored(storage), Space(contents, pool), tokenIds)
      requires currentError == NoError ==> HasAllAllowed(Stored(storage), Space(contents, pool), tokenIds, done)
      modifies this, queue
      ensures StoresIn(storage) && ErrorsAreJustified(mayAbort)
      ensures AddsOnlyAllowed(before, Stored(storage), Space(contents, pool), tokenIds)
      ensures currentError == NoError ==> HasAllAllowed(Stored(storage), Space(contents, pool), tokenIds, doneNow)
      ensures done <= doneNow && forall r :: 0 <= r < |rules| && InStride(r, start, numThreads) ==> r in doneNow
      ensures forall m :: m in Stored(storage) && m !in old(Stored(storage)) ==> InStride(m.rule, start, numThreads)
    {
      hide AddsOnlyAllowed, HasAllAllowed, IsReady, InStride;
      StrideStarts(start, numThreads);
      doneNow := done;
      var i := start;
      while i < |rules|
        invariant InStride(i, start, numThreads)
        invariant StoresIn(storage) && ErrorsAreJustified(mayAbort)
        invariant AddsOnlyAllowed(before, Stored(storage), Space(contents, pool), tokenIds)
        invariant currentError == NoError ==> HasAllAllowed(Stored(storage), Space(contents, pool), tokenIds, doneNow)
        invariant done <= doneNow && forall r :: 0 <= r < i && InStride(r, start, numThreads) ==> r in doneNow
        invariant old(Stored(storage)) <= Stored(storage)
        invariant forall m :: m in Stored(storage) && m !in old(Stored(storage)) ==> InStride(m.rule, start, numThreads)
        decreases |rules| - i
      {
        AddMatchesForOneRule(tokenIds, i, contents, mayAbort, storage, pool, before, doneNow);
        doneNow := doneNow + {i};
        StrideAdvances(i, start, numThreads);
        i := i + numThreads;
      }
    }

    // Finds the matches of all rules that touch one of the tokens. The threads of the pool, if any
    // are obtained, take the rules in turn. Unless a single thread inserts them as it finds them, matches
    // are collected first; found and kept are the collected matches before and after deduplication.
    method AddMatchesInvolvingTokens(
      tokenIds: seq<TokenId>, contents: Contents, mayAbort: bool, ghost pool: set<TokenId>)
      returns (error: Error, ghost collected: bool, ghost found: set<Match>, ghost kept: set<Match>)
      requires IsReady(contents, pool) && queue.Valid() && FromPool(pool, tokenIds)
      requires currentError == NoError && AllAllowed(Space(contents, pool), newMatches)
      modifies this, queue
      ensures queue.Valid() && currentError == NoError
      ensures error == Aborted ==> mayAbort
      ensures error == DisconnectedInputs ==> exists r :: 0 <= r < |rules| && !Connected(rules[r].inputs)
      ensures old(queue.allMatches) <= queue.allMatches
      ensures forall m :: m in queue.allMatches + newMatches && m !in old(queue.allMatches + newMatches) ==>
                Space(contents, pool).Allows(m) && Touches(m.inputs, tokenIds)
      ensures forall m :: m in newMatches && m !in old(newMatches) ==>
                Space(contents, pool).Allows(m) && Touches(m.inputs, tokenIds)
      ensures error == NoError ==> queue.NextIsCurrent() && newMatches <= old(newMatches)
      ensures error != NoError && deduplicates ==> queue.allMatches == old(queue.allMatches)
      ensures error == NoError && !deduplicates ==> forall m ::
                Space(contents, pool).Allows(m) && Touches(m.inputs, tokenIds) ==> m in queue.allMatches
      ensures deduplicates ==> collected
      ensures error == NoError && collected ==>
                && (forall m :: m in found <==>
                      m in old(newMatches) || (Space(contents, pool).Allows(m) && Touches(m.inputs, tokenIds)))
                && AreCollected(queue.orderingSpec, ruleSort, Space(contents, pool), deduplicates, found,
                                old(queue.buckets), queue.buckets)
      ensures error == NoError && deduplicates ==>
                && AllAllowed(Space(contents, pool), found)
                && IsDeduplicated(Copies(queue.orderingSpec, Space(contents, pool), found), found, kept)
                && queue.allMatches == old(queue.allMatches) + kept && newMatches == {}
      decreases deduplicates, 5
    {
      found, kept := {}, {};
      var numThreads :| numThreads == 0 || 2 <= numThreads <= |rules|;
      var storage := if numThreads == 0 && !deduplicates then Main else NewMatches;
      collected := storage == NewMatches;
      error := SearchAllRules(tokenIds, numThreads, contents, mayAbort, storage, pool);
      hide IsReady, Connected, IsDeduplicated, Copies, AreCollected, Compare;
      if error == NoError {
        error, found, kept := FinishSearch(storage, contents, mayAbort, pool);
      }
    }

    // What was collected is put into the queue, and the next match is chosen.
    method FinishSearch(storage: MatchStorage, contents: Contents, mayAbort: bool, ghost pool: set<TokenId>)
      returns (error: Error, ghost found: set<Match>, ghost kept: set<Match>)
      requires IsReady(contents, pool) && queue.Valid() && AllAllowed(Space(contents, pool), newMatches)
      requires deduplicates ==> storage == NewMatches
      modifies this`newMatches, queue
      ensures queue.Valid() && newMatches <= old(newMatches)
      ensures error == NoError || (error == Aborted && mayAbort)
      ensures error != NoError || storage == Main ==> queue.allMatches == old(queue.allMatches)
      ensures error == NoError ==> queue.NextIsCurrent()
      ensures error == NoError && storage == NewMatches ==>
                && newMatches == {} && found == old(newMatches) && kept <= found
                && queue.allMatches == old(queue.allMatches) + kept
                && AreCollected(queue.orderingSpec, ruleSort, Space(contents, pool), deduplicates, found,
                                old(queue.buckets), queue.buckets)
                && if deduplicates then
                     IsDeduplicated(Copies(queue.orderingSpec, Space(contents, pool), found), found, kept)
                   else kept == found
      decreases deduplicates, 4, 3
    {
      hide IsReady, IsDeduplicated, Copies, AreCollected;
      error, found, kept := NoError, newMatches, {};
      if storage == NewMatches {
        error, kept := InsertCollected(contents, mayAbort, pool);
        if error != NoError {
          return;
        }
      }
      queue.ChooseNextMatch();
    }

    // An error that occurred is reported and forgotten.
    method SearchAllRules(
      tokenIds: seq<TokenId>, numThreads: nat, contents: Contents, mayAbort: bool, storage: MatchStorage,
      ghost pool: set<TokenId>)
      returns (error: Error)
      requires IsReady(contents, pool) && queue.Valid() && FromPool(pool, tokenIds) && currentError == NoError
      modifies this, queue
      ensures StoresIn(storage) && currentError == NoError
      ensures error == Aborted ==> mayAbort
      ensures error == DisconnectedInputs ==> exists r :: 0 <= r < |rules| && !Connected(rules[r].inputs)
      ensures AddsOnlyAllowed(old(Stored(storage)), Stored(storage), Space(contents, pool), tokenIds)
      ensures error == NoError ==> forall m ::
                Space(contents, pool).Allows(m) && Touches(m.inputs, tokenIds) ==> m in Stored(storage)
    {
      hide IsReady, AddsOnlyAllowed, Connected, Touches, IsMatch;
      AddMatchesForAllRules(tokenIds, numThreads, contents, mayAbort, storage, pool);
      error := currentError;
      currentError := NoError;
    }

    method AddMatchesForAllRules(
      tokenIds: seq<TokenId>, numThreads: nat, contents: Contents, mayAbort: bool, storage: MatchStorage,
      ghost pool: set<TokenId>)
      requires IsReady(contents, pool) && queue.Valid() && FromPool(pool, tokenIds) && currentError == NoError
      modifies this, queue
      ensures StoresIn(storage) && ErrorsAreJustified(mayAbort)
      ensures AddsOnlyAllowed(old(Stored(storage)), Stored(storage), Space(contents, pool), tokenIds)
      ensures currentError == NoError ==> forall m ::
                Space(contents, pool).Allows(m) && Touches(m.inputs, tokenIds) ==> m in Stored(storage)
    {
      ghost var before := Stored(storage);
      ghost var done: set<int> := {};
      if numThreads > 0 {
        for start := 0 to numThreads
          invariant StoresIn(storage) && ErrorsAreJustified(mayAbort)
          invariant AddsOnlyAllowed(before, Stored(storage), Space(contents, pool), tokenIds)
          invariant currentError == NoError ==> HasAllAllowed(Stored(storage), Space(contents, pool), tokenIds, done)
          invariant forall r :: 0 <= r < |rules| && r % numThreads < start ==> r in done
        {
          done := AddMatchesForRuleRange(
            tokenIds, start, numThreads, contents, mayAbort, storage, pool, before, done);
        }
      } else {
        for i := 0 to |rules|
          invariant StoresIn(storage) && ErrorsAreJustified(mayAbort)
          invariant AddsOnlyAllowed(before, Stored(storage), Space(contents, pool), tokenIds)
          invariant currentError == NoError ==> HasAllAllowed(Stored(storage), Space(contents, pool), tokenIds, done)
          invariant forall r :: 0 <= r < i ==> r in done
        {
          AddMatchesForOneRule(tokenIds, i, contents, mayAbort, storage, pool, before, done);
          done := done + {i};
        }
      }
    }

    // Drops copies if they are not wanted, and puts the other collected matches into the queue.
    method InsertCollected(contents: Contents, mayAbort: bool, ghost pool: set<TokenId>)
      returns (error: Error, ghost kept: set<Match>)
      requires IsReady(contents, pool) && queue.Valid() && AllAllowed(Space(contents, pool), newMatches)
      modifies this`newMatches, queue
      ensures queue.Valid() && newMatches <= old(newMatches)
      ensures error == NoError || (error == Aborted && mayAbort)
      ensures error != NoError ==> unchanged(queue)
      ensures error == NoError ==>
                && newMatches == {} && queue.allMatches == old(queue.allMatches) + kept && kept <= old(newMatches)
                && AreCollected(queue.orderingSpec, ruleSort, Space(contents, pool), deduplicates, old(newMatches),
                                old(queue.buckets), queue.buckets)
                && if deduplicates then
                     IsDeduplicated(Copies(queue.orderingSpec, Space(contents, pool), old(newMatches)), old(newMatches),
                                    kept)
                   else kept == old(newMatches)
      decreases deduplicates, 4, 2
    {
      hide IsReady, IsDeduplicated, WereInserted;
      kept := {};
      if deduplicates {
        error := RemoveIdenticalMatches(contents, mayAbort, pool);
        if error != NoError {
          return;
        }
      }
      kept := newMatches;
      InsertNewMatches();
      error := NoError;
    }

    // The order in which the matches were found is forgotten.
    method InsertNewMatches()
      requires queue.Valid()
      modifies this`newMatches, queue
      ensures queue.Valid() && newMatches == {}
      ensures queue.allMatches == old(queue.allMatches) + old(newMatches)
      ensures WereInserted(queue.orderingSpec, ruleSort, old(newMatches), old(queue.buckets), queue.buckets)
      ensures forall a, b ::
                a in old(newMatches) && b in old(newMatches) && b !in old(queue.allMatches) && a.rule < b.rule &&
                Compare(queue.orderingSpec, a, b) == 0 ==>
                  Queue.IsAheadOf(queue.buckets, a, b)
    {
      var sorted := SortMatches(queue.orderingSpec, newMatches);
      var order := ruleSort(sorted);
      assert IsListed(queue.orderingSpec, newMatches, sorted);
      InsertionOrderIsByRule(queue.orderingSpec, ruleSort, newMatches, order);
      hide IsListed, IsInsertionOrder, StrictlyAscending, AscendsByRule, Queue.AllInserted;
      newMatches := {};
      for k := 0 to |order|
        invariant queue.Valid() && newMatches == {}
        invariant forall m :: m in queue.allMatches <==> m in old(queue.allMatches) || m in order[..k]
        invariant queue.buckets == Queue.AllInserted(queue.orderingSpec, old(queue.buckets), order[..k])
      {
        Queue.InsertedNext(queue.orderingSpec, old(queue.buckets), order, k);
        queue.InsertMatch(order[k]);
      }
      assert order[..|order|] == order;
      assert WereInserted(queue.orderingSpec, ruleSort, old(newMatches), old(queue.buckets), queue.buckets);
      forall a, b |
        a in old(newMatches) && b in old(newMatches) && b !in old(queue.allMatches) && a.rule < b.rule &&
        Compare(queue.orderingSpec, a, b) == 0
        ensures Queue.IsAheadOf(queue.buckets, a, b)
      {
        EarlierRuleIsAhead(queue.orderingSpec, ruleSort, old(newMatches), old(queue.buckets), queue.buckets, a, b);
      }
    }

    // ----- deduplication

    // Goes through the new matches in order and drops those that repeat an earlier one of the same inputs.
    method RemoveIdenticalMatches(contents: Contents, mayAbort: bool, ghost pool: set<TokenId>) returns (error: Error)
      requires deduplicates && IsReady(contents, pool) && AllAllowed(Space(contents, pool), newMatches)
      modifies this`newMatches
      ensures newMatches <= old(newMatches)
      ensures error == NoError || (error == Aborted && mayAbort)
      ensures error == NoError ==>
                && IsDeduplicated(
                     Copies(queue.orderingSpec, Space(contents, pool), old(newMatches)), old(newMatches), newMatches)
                && DropsOnlyLater(queue.orderingSpec, Space(contents, pool), old(newMatches), newMatches)
      decreases deduplicates, 4, 1
    {
      hide DropsOnlyLater, IsReady, CopiesFollow, StrictlyAscending;
      ghost var space, found := Space(contents, pool), newMatches;
      var sorted := SortMatches(queue.orderingSpec, newMatches);
      AllowedInOrder(space, found, sorted);
      CopiesDoFollow(queue.orderingSpec, space, found);
      error := ProcessInOrder(
        sorted, contents, mayAbort, pool, space, found, Copies(queue.orderingSpec, space, found));
      assert sorted[..|sorted|] == sorted;
      if error == NoError {
        DroppedComeLater(queue.orderingSpec, space, found, newMatches);
      }
    }

    method ProcessInOrder(
      sorted: seq<Match>, contents: Contents, mayAbort: bool, ghost pool: set<TokenId>, ghost space: MatchSpace,
      ghost found: set<Match>, ghost copies: set<(Match, Match)>) returns (error: Error)
      requires deduplicates && IsReady(contents, pool) && space == Space(contents, pool) && AllAllowed(space, found)
      requires copies == Copies(queue.orderingSpec, space, found)
      requires CopiesFollow(queue.orderingSpec, copies)
      requires StrictlyAscending(queue.orderingSpec, sorted) && AllDistinct(sorted)
      requires found == newMatches && forall m :: m in sorted <==> m in found
      modifies this`newMatches
      ensures newMatches <= found
      ensures error == NoError || (error == Aborted && mayAbort)
      ensures error == NoError ==> DeduplicatedUpTo(copies, sorted, |sorted|, newMatches)
      decreases deduplicates, 4, 0
    {
      var currentInputsSet: set<TokenId> := {};
      var addedSameInputMatches: seq<Match> := [];
      for k := 0 to |sorted|
        invariant RemovalState(copies, found, sorted, k, currentInputsSet, addedSameInputMatches, newMatches)
      {
        var newInputs, newAdded := StartBatchIfNew(sorted, k, currentInputsSet, addedSameInputMatches);
        var matchAppearedBefore;
        error, matchAppearedBefore :=
          AppearedBefore(sorted[k], newAdded, contents, mayAbort, pool, space, found, copies);
        if error != NoError {
          return;
        }
        ProcessNextMatch(
          queue.orderingSpec, copies, found, sorted, k, currentInputsSet, addedSameInputMatches, newAdded, newMatches,
          matchAppearedBefore);
        currentInputsSet := newInputs;
        if matchAppearedBefore {
          addedSameInputMatches := newAdded;
          newMatches := newMatches - {sorted[k]};
        } else {
          addedSameInputMatches := newAdded + [sorted[k]];
        }
      }
      error := NoError;
    }

    // newAdded are the kept matches with the inputs of sorted[k]: those in added, or none if its inputs are others.
    method StartBatchIfNew(sorted: seq<Match>, k: nat, inputs: set<TokenId>, added: seq<Match>)
      returns (newInputs: set<TokenId>, newAdded: seq<Match>)
      requires k < |sorted| && StrictlyAscending(queue.orderingSpec, sorted) && AllDistinct(sorted)
      requires BatchIsCurrent(sorted, k, inputs, added, newMatches)
      ensures newInputs == Elements(sorted[k].inputs)
      ensures AddedHaveInputsOf(sorted[k], sorted[..k], newAdded, newMatches)
      ensures forall i :: 0 <= i < |newAdded| ==>
                && newAdded[i] in sorted
                && Precedes(queue.orderingSpec, newAdded[i], sorted[k]) && SameInputs(sorted[k], newAdded[i])
    {
      var m := sorted[k];
      newInputs, newAdded := inputs, added;
      SameInputSetIsExact(m, inputs);
      if !SameInputSet(m, inputs) {
        NewBatch(queue.orderingSpec, sorted, k, inputs, added, newMatches);
        newInputs, newAdded := set t | t in m.inputs, [];
        SameElements(newInputs, Elements(m.inputs));
      }
      AddedIsEarlier(queue.orderingSpec, sorted, k, newAdded, newMatches);
    }

    // Whether the match is a copy of one that was kept.
    method AppearedBefore(
      m: Match, added: seq<Match>, contents: Contents, mayAbort: bool, ghost pool: set<TokenId>, ghost space: MatchSpace,
      ghost found: set<Match>, ghost copies: set<(Match, Match)>)
      returns (error: Error, appeared: bool)
      requires deduplicates && IsReady(contents, pool) && space == Space(contents, pool)
      requires AllAllowed(space, found) && m in found && copies == Copies(queue.orderingSpec, space, found)
      requires forall i :: 0 <= i < |added| ==>
                 added[i] in found && Precedes(queue.orderingSpec, added[i], m) && SameInputs(m, added[i])
      ensures error == NoError || (error == Aborted && mayAbort)
      ensures error == NoError ==> (appeared <==> exists i :: 0 <= i < |added| && (m, added[i]) in copies)
      decreases deduplicates, 3
    {
      error, appeared := SameOutcomeAsSome(m, added, contents, mayAbort, pool, space);
      CopyIffSameOutcome(queue.orderingSpec, space, found, m, added);
    }

    method SameOutcomeAsSome(
      m: Match, added: seq<Match>, contents: Contents, mayAbort: bool, ghost pool: set<TokenId>, ghost space: MatchSpace)
      returns (error: Error, appeared: bool)
      requires deduplicates && IsReady(contents, pool) && space == Space(contents, pool) && space.Allows(m)
      requires forall i :: 0 <= i < |added| ==> space.Allows(added[i])
      ensures error == NoError || (error == Aborted && mayAbort)
      ensures error == NoError ==> (appeared <==> exists i :: 0 <= i < |added| && SameOutcome(space, m, added[i]))
      decreases deduplicates, 2
    {
      for i := 0 to |added|
        invariant forall j :: 0 <= j < i ==> !SameOutcome(space, m, added[j])
      {
        error, appeared := SameOutcomeAssumingSameInputs(m, added[i], contents, mayAbort, pool, space);
        if error != NoError || appeared {
          return;
        }
      }
      error, appeared := NoError, false;
    }

    static predicate SameInputSet(m: Match, referenceInputs: set<TokenId>) {
      |m.inputs| == |referenceInputs| && forall t | t in m.inputs :: t in referenceInputs
    }

    method SameOutcomeAssumingSameInputs(
      firstMatch: Match, secondMatch: Match, contents: Contents, mayAbort: bool, ghost pool: set<TokenId>,
      ghost space: MatchSpace)
      returns (error: Error, same: bool)
      requires deduplicates && IsReady(contents, pool) && space == Space(contents, pool)
      requires space.Allows(firstMatch) && space.Allows(secondMatch)
      ensures error == NoError || (error == Aborted && mayAbort)
      ensures error == NoError ==> (same <==> SameOutcome(space, firstMatch, secondMatch))
      decreases deduplicates, 1
    {
      var firstOutputs := MatchOutputAtomsVectors(firstMatch, contents, pool);
      var secondOutputs := MatchOutputAtomsVectors(secondMatch, contents, pool);
      error, same := IsIsomorphic(firstOutputs, secondOutputs, mayAbort);
    }

    // ----- inputs and outputs of a match

    method MatchInputAtomsVectors(m: Match, contents: Contents) returns (inputs: seq<AtomsVector>)
      requires forall i :: 0 <= i < |m.inputs| ==> m.inputs[i] in contents
      ensures |inputs| == |m.inputs| && forall i :: 0 <= i < |inputs| ==> inputs[i] == contents[m.inputs[i]]
    {
      inputs := [];
      for i := 0 to |m.inputs|
        invariant |inputs| == i && forall k :: 0 <= k < i ==> inputs[k] == contents[m.inputs[k]]
      {
        inputs := inputs + [contents[m.inputs[i]]];
      }
    }

    method MatchOutputAtomsVectors(m: Match, contents: Contents, ghost pool: set<TokenId>)
      returns (outputs: seq<AtomsVector>)
      requires IsReady(contents, pool) && Space(contents, pool).IsExplained(m)
      ensures outputs == Space(contents, pool).Outputs(m)
      ensures forall s :: Explains(s, rules[m.rule].inputs, contents, m.inputs) ==>
                AreInstantiated(s, rules[m.rule], outputs)
    {
      ghost var full :| Explains(full, rules[m.rule].inputs, contents, m.inputs);
      var inputTokens := MatchInputAtomsVectors(m, contents);
      forall i | 0 <= i < |inputTokens|
        ensures IsGround(inputTokens[i])
      {
        var t := m.inputs[i];
        assert IsGround(contents[t]);
      }
      var ok, renaming := InferRenaming(rules[m.rule].inputs, inputTokens);
      assert ok by {
        assert RenamesAll(full, rules[m.rule].inputs, inputTokens);
      }
      assert Explains(renaming, rules[m.rule].inputs, contents, m.inputs);
      ExplanationIsUnique(rules[m.rule].inputs, contents, m.inputs, renaming);
      outputs := RenameAll(renaming, rules[m.rule].outputs);
      forall s | Explains(s, rules[m.rule].inputs, contents, m.inputs)
        ensures AreInstantiated(s, rules[m.rule], outputs)
      {
        OutputsAreInstantiated(Space(contents, pool), m, s);
      }
    }

    // ----- the engine's own isomorphism test

    // Whether a single rule with the first hypergraph as its input matches the second one.
    static method IsIsomorphic(first: Hypergraph, second: Hypergraph, mayAbort: bool)
      returns (error: Error, isomorphic: bool)
      ensures error == NoError || (error == Aborted && mayAbort)
      ensures error == NoError ==> (isomorphic <==> EngineIsomorphic(first, second))
      decreases true, 0, 1
    {
      if |first| != |second| {
        return NoError, false;
      }
      if |first| == 0 {
        return NoError, true;
      }
      var instantiated := InstantiatePatternAtoms(second);
      AnchoredInputsAreConnected(first);
      error, isomorphic := MatchesAsRule(AppendAtom(first, CONNECTING_ATOM), instantiated, mayAbort);
      OnlyOneInstantiation(first, second, instantiated);
    }

    static method MatchesAsRule(inputs: Hypergraph, tokens: Hypergraph, mayAbort: bool)
      returns (error: Error, matches: bool)
      requires 0 < |inputs| == |tokens| && Connected(inputs)
      requires forall i :: 0 <= i < |tokens| ==> IsGround(tokens[i])
      ensures error == NoError || (error == Aborted && mayAbort)
      ensures error == NoError ==> (matches <==> RenamesOnto(inputs, tokens))
      decreases true, 0, 0
    {
      var contents: Contents := map i | 0 <= i < |tokens| :: tokens[i];
      var index := new Index.AtomsIndex();
      ghost var pool := IndexAll(index, contents, |tokens|);
      var matcher := new HypergraphMatcher([Rule(inputs, [], SelectAll)], index, null, [], false, STABLE_SORT);
      ghost var collected, found, kept;
      error, collected, found, kept := matcher.AddMatchesInvolvingTokens([0], contents, mayAbort, pool);
      matches := matcher.queue.buckets != [];
      if error == NoError {
        matcher.queue.NextIsFirst();
        MatchIsRenaming(matcher.Space(contents, pool), inputs, tokens, matcher.queue.allMatches);
      }
    }

    static method IndexAll(index: Index.AtomsIndex, contents: Contents, count: nat) returns (ghost pool: set<TokenId>)
      requires count > 0 && index.index == map[] && forall t :: t in contents <==> 0 <= t < count
      modifies index
      ensures index.Indexes(contents, pool) && forall t :: t in pool <==> 0 <= t < count
    {
      var allTokenIds := AllTokenIds(count);
      assert index.Indexes(contents, {});
      forall i | 0 <= i < |allTokenIds|
        ensures allTokenIds[i] in contents
      {
        var t := allTokenIds[i];
        assert t in allTokenIds && t in contents;
      }
      index.AddTokens(allTokenIds, contents, {});
      pool := {} + Elements(allTokenIds);
    }

    // The identifiers of the tokens, after as many zeros as the vector was created with.
    static method AllTokenIds(count: nat) returns (ids: seq<TokenId>)
      requires count > 0
      ensures forall t :: t in ids <==> 0 <= t < count
    {
      ids := seq(count, i => 0);
      assert ids[0] == 0;
      for i := 0 to count
        invariant forall t :: t in ids <==> 0 <= t < i || t == 0
      {
        ids := ids + [i];
      }
    }

    static method InstantiatePatternAtoms(second: Hypergraph) returns (instantiated: Hypergraph)
      requires second != []
      ensures IsInstantiated(second, instantiated)
      ensures |instantiated| == |second| && forall i :: 0 <= i < |second| ==> IsGround(instantiated[i])
    {
      var connected := AppendAtom(second, CONNECTING_ATOM);
      var largest := LargestAtom(connected);
      var ok, counter;
      ok, instantiated, counter := NamePatternAtoms(connected, largest, None);
      InstantiationIsGround(second, instantiated);
    }

    static method LargestAtom(h: Hypergraph) returns (largest: Atom)
      requires h != [] && forall i :: 0 <= i < |h| ==> h[i] != []
      ensures IsLargestAtom(h, largest)
    {
      largest := h[0][0];
      for i := 0 to |h|
        invariant HasAtom(h, largest)
        invariant forall k, y :: 0 <= k < i && y in h[k] ==> y <= largest
      {
        for j := 0 to |h[i]|
          invariant HasAtom(h, largest)
          invariant forall k, y :: 0 <= k < i && y in h[k] ==> y <= largest
          invariant forall y :: y in h[i][..j] ==> y <= largest
        {
          assert h[i][..j + 1] == h[i][..j] + [h[i][j]];
          assert h[i][j] in h[i];
          if largest < h[i][j] {
            largest := h[i][j];
          }
        }
        assert h[i][..|h[i]|] == h[i];
      }
    }
  }
}
