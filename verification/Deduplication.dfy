/** What removing identical matches from a batch of new matches means, and the order it works in. */
module Deduplication {
  import opened Types
  import opened Collections
  import opened Matching
  import opened MatchOrder
  import opened EngineIsomorphism

  ghost predicate SameInputs(a: Match, b: Match) {
    Elements(a.inputs) == Elements(b.inputs)
  }

  ghost predicate SameOutcome(space: MatchSpace, a: Match, b: Match)
    requires space.Allows(a) && space.Allows(b)
  {
    LooksTheSame(space, a, b)
  }

  // The engine considers the outputs isomorphic, as far as they can be told.
  ghost predicate LooksTheSame(space: MatchSpace, a: Match, b: Match) {
    space.IsExplained(a) && space.IsExplained(b) && EngineIsomorphic(space.Outputs(a), space.Outputs(b))
  }

  ghost predicate Precedes(spec: OrderingSpec, a: Match, b: Match) {
    Compare(NewMatchesOrderingSpec(spec), a, b) < 0
  }

  ghost predicate AllAllowed(space: MatchSpace, matches: set<Match>) {
    forall m :: m in matches ==> space.Allows(m)
  }

  // a has the inputs and the outcome of b, and comes after it.
  ghost predicate Repeats(spec: OrderingSpec, space: MatchSpace, a: Match, b: Match) {
    Precedes(spec, b, a) && SameInputs(a, b) && LooksTheSame(space, a, b)
  }

  // a is made redundant by b.
  ghost predicate IsCopyOf(spec: OrderingSpec, space: MatchSpace, a: Match, b: Match) {
    space.Allows(a) && space.Allows(b) && Repeats(spec, space, a, b)
  }

  ghost function Copies(spec: OrderingSpec, space: MatchSpace, found: set<Match>): (r: set<(Match, Match)>)
    ensures forall a, b :: (a, b) in r <==> a in found && b in found && IsCopyOf(spec, space, a, b)
  {
    set a, b | a in found && b in found && IsCopyOf(spec, space, a, b) :: (a, b)
  }

  // Exactly the copies of kept matches are gone.
  ghost predicate IsDeduplicated(copies: set<(Match, Match)>, found: set<Match>, kept: set<Match>) {
    && kept <= found
    && (forall m :: m in found && m !in kept ==> exists k :: k in kept && (m, k) in copies)
    && (forall m, k :: m in kept && k in kept ==> (m, k) !in copies)
  }

  // The order of new matches follows the user's among matches of the same inputs.
  lemma UserOrderIsFollowed(spec: OrderingSpec, a: Match, b: Match)
    requires Distinct(a.inputs) && Distinct(b.inputs) && SameInputs(a, b)
    ensures ComesFirst(spec, a, b) ==> Precedes(spec, a, b)
  {
    ComparedIff(spec, a, b);
    SameInputsIffSameSorted(a, b);
    SortedInputsDecideMultiset(a, b);
    NewMatchesFollowSpecification(spec, a, b);
  }

  // Whatever is dropped repeats a kept match that does not come after it in the user's order.
  ghost predicate DropsOnlyLater(spec: OrderingSpec, space: MatchSpace, found: set<Match>, kept: set<Match>) {
    forall m :: m in found && m !in kept ==> exists k ::
      IsRepeatedBy(space, m, k) && k in kept && !ComesFirst(spec, m, k)
  }

  // The matches use the same tokens, and what m creates would be matched by an input like what k creates.
  ghost predicate IsRepeatedBy(space: MatchSpace, m: Match, k: Match) {
    && (forall t :: t in m.inputs <==> t in k.inputs)
    && space.IsExplained(m) && space.IsExplained(k) && EngineIsomorphic(space.Outputs(m), space.Outputs(k))
  }

  lemma DroppedComeLater(spec: OrderingSpec, space: MatchSpace, found: set<Match>, kept: set<Match>)
    requires IsDeduplicated(Copies(spec, space, found), found, kept) && AllAllowed(space, found)
    ensures DropsOnlyLater(spec, space, found, kept)
  {
    hide EngineIsomorphic, ComesFirst, Precedes, Elements;
    forall m | m in found && m !in kept
      ensures exists k :: IsRepeatedBy(space, m, k) && k in kept && !ComesFirst(spec, m, k)
    {
      var k :| k in kept && (m, k) in Copies(spec, space, found);
      assert IsCopyOf(spec, space, m, k);
      assert IsRepeatedBy(space, m, k);
      UserOrderIsFollowed(spec, m, k);
      NotBothPrecede(spec, m, k);
    }
  }

  lemma NotBothPrecede(spec: OrderingSpec, a: Match, b: Match)
    ensures !(Precedes(spec, a, b) && Precedes(spec, b, a))
  {
    CompareAntisymmetric(NewMatchesOrderingSpec(spec), a, b);
  }

  // The match that the user's order puts before all others of the same inputs survives.
  lemma LeastMatchesAreKept(spec: OrderingSpec, space: MatchSpace, found: set<Match>, kept: set<Match>, m: Match)
    requires IsDeduplicated(Copies(spec, space, found), found, kept) && m in found && AllAllowed(space, found)
    ensures (forall x :: x in found && SameInputs(x, m) && x != m ==> ComesFirst(spec, m, x)) ==> m in kept
  {
    if m !in kept {
      var k :| k in kept && (m, k) in Copies(spec, space, found);
      assert IsCopyOf(spec, space, m, k) && SameInputs(k, m);
      CompareAntisymmetric(NewMatchesOrderingSpec(spec), m, k);
      UserOrderIsFollowed(spec, m, k);
    }
  }

  // ----- the order of new matches keeps matches of the same inputs together

  ghost predicate StrictlyAscending(spec: OrderingSpec, s: seq<Match>) {
    forall i, j :: 0 <= i < j < |s| ==> Precedes(spec, s[i], s[j])
  }

  lemma SameInputsIffSameSorted(a: Match, b: Match)
    requires Distinct(a.inputs) && Distinct(b.inputs)
    ensures SameInputs(a, b) <==> CompareBy(SortedInputTokenIndices, a, b) == 0
  {
    SortedInputsDecideMultiset(a, b);
    forall x: int
      ensures multiset(a.inputs)[x] == (if x in Elements(a.inputs) then 1 else 0)
      ensures multiset(b.inputs)[x] == (if x in Elements(b.inputs) then 1 else 0)
    {
      DistinctMultiplicity(a.inputs, x);
      DistinctMultiplicity(b.inputs, x);
    }
    if multiset(a.inputs) == multiset(b.inputs) {
      SameElements(Elements(a.inputs), Elements(b.inputs));
    }
    if SameInputs(a, b) {
      SameMultiset(multiset(a.inputs), multiset(b.inputs));
    }
  }

  lemma SameMultiset(s: multiset<int>, t: multiset<int>)
    requires forall x: int :: s[x] == t[x]
    ensures s == t
  {
    if s != t {
      var x := MultisetDifference(s, t);
    }
  }

  lemma MultisetDifference<T>(s: multiset<T>, t: multiset<T>) returns (x: T)
    requires s != t
    ensures s[x] != t[x]
  {
    assert exists y :: s[y] != t[y];
    x :| s[x] != t[x];
  }

  lemma SameInputsAreContiguous(spec: OrderingSpec, a: Match, b: Match, c: Match)
    requires Distinct(a.inputs) && Distinct(b.inputs) && Distinct(c.inputs)
    requires Precedes(spec, a, b) && Precedes(spec, b, c) && SameInputs(a, c)
    ensures SameInputs(b, c)
  {
    SameInputsIffSameSorted(a, c);
    SameInputsIffSameSorted(b, c);
    CompareByTransitive(SortedInputTokenIndices, a, b, c);
  }

  // The new matches as the ordered set lists them.
  method SortMatches(spec: OrderingSpec, matches: set<Match>) returns (sorted: seq<Match>)
    ensures StrictlyAscending(spec, sorted)
    ensures forall m :: m in sorted <==> m in matches
  {
    sorted := [];
    var remaining := matches;
    while remaining != {}
      invariant remaining <= matches && StrictlyAscending(spec, sorted)
      invariant forall m :: m in sorted <==> m in matches && m !in remaining
    {
      var m := Pick(remaining);
      sorted := InsertSorted(spec, sorted, m);
      remaining := remaining - {m};
    }
  }

  method InsertSorted(spec: OrderingSpec, sorted: seq<Match>, m: Match) returns (result: seq<Match>)
    requires StrictlyAscending(spec, sorted) && m !in sorted
    ensures StrictlyAscending(spec, result)
    ensures forall x :: x in result <==> x in sorted || x == m
  {
    var i := 0;
    while i < |sorted|
      invariant i <= |sorted| && forall j :: 0 <= j < i ==> Precedes(spec, sorted[j], m)
    {
      var less := Less(NewMatchesOrderingSpec(spec), sorted[i], m);
      if !less {
        break;
      }
      i := i + 1;
    }
    result := sorted[..i] + [m] + sorted[i..];
    assert sorted == sorted[..i] + sorted[i..];
    if i < |sorted| {
      NewMatchesOrderIsTotal(spec, sorted[i], m);
      CompareAntisymmetric(NewMatchesOrderingSpec(spec), sorted[i], m);
      forall j | i < j < |sorted|
        ensures Precedes(spec, m, sorted[j])
      {
        CompareTransitive(NewMatchesOrderingSpec(spec), m, sorted[i], sorted[j]);
      }
    }
  }

  // ----- deduplication, one match at a time

  ghost predicate AllDistinct(matches: seq<Match>) {
    forall i :: 0 <= i < |matches| ==> Distinct(matches[i].inputs)
  }

  // The matches kept so far that have the inputs of the latest batch.
  ghost predicate BatchIsCurrent(
    sorted: seq<Match>, k: nat, inputs: set<TokenId>, added: seq<Match>, remaining: set<Match>)
    requires k <= |sorted|
  {
    && (k == 0 ==> inputs == {} && added == [])
    && (k > 0 ==> inputs == Elements(sorted[k - 1].inputs))
    && forall m :: m in added <==> m in sorted[..k] && m in remaining && Elements(m.inputs) == inputs
  }

  // What IsDeduplicated says, about the first k matches.
  ghost predicate DeduplicatedUpTo(
    copies: set<(Match, Match)>, sorted: seq<Match>, k: nat, remaining: set<Match>)
    requires k <= |sorted|
  {
    && (forall m :: m in sorted[..k] && m !in remaining ==>
          exists e :: e in sorted[..k] && e in remaining && (m, e) in copies)
    && (forall m, e :: m in sorted[..k] && m in remaining && e in sorted[..k] && e in remaining ==> (m, e) !in copies)
  }

  // The matches kept so far that have the inputs of the next match.
  ghost predicate AddedHaveInputsOf(m: Match, earlier: seq<Match>, added: seq<Match>, remaining: set<Match>) {
    forall x :: x in added <==> x in earlier && x in remaining && SameInputs(x, m)
  }

  // A copy comes later and has the same inputs.
  ghost predicate CopiesFollow(spec: OrderingSpec, copies: set<(Match, Match)>) {
    forall a, b :: (a, b) in copies ==> Precedes(spec, b, a) && SameInputs(a, b)
  }

  lemma SameInputSetIsExact(m: Match, inputs: set<TokenId>)
    requires Distinct(m.inputs)
    ensures |m.inputs| == |inputs| && (forall t :: t in m.inputs ==> t in inputs) <==> Elements(m.inputs) == inputs
  {
    DistinctSize(m.inputs);
    if |m.inputs| == |inputs| && forall t :: t in m.inputs ==> t in inputs {
      IntSubset(Elements(m.inputs), inputs);
      SameSizeSubset(Elements(m.inputs), inputs);
    }
  }

  lemma NewBatch(
    spec: OrderingSpec, sorted: seq<Match>, k: nat, inputs: set<TokenId>, added: seq<Match>, remaining: set<Match>)
    requires k < |sorted| && StrictlyAscending(spec, sorted) && AllDistinct(sorted)
    requires BatchIsCurrent(sorted, k, inputs, added, remaining) && Elements(sorted[k].inputs) != inputs
    ensures AddedHaveInputsOf(sorted[k], sorted[..k], [], remaining)
  {
    forall x | x in sorted[..k]
      ensures !SameInputs(x, sorted[k])
    {
      var j :| 0 <= j < k && sorted[j] == x;
      if SameInputs(x, sorted[k]) && j < k - 1 {
        SameInputsAreContiguous(spec, x, sorted[k - 1], sorted[k]);
      }
    }
  }

  lemma NextMatchIsDeduplicated(
    spec: OrderingSpec, copies: set<(Match, Match)>, sorted: seq<Match>, k: nat, added: seq<Match>,
    remaining: set<Match>)
    requires k < |sorted| && StrictlyAscending(spec, sorted) && CopiesFollow(spec, copies)
    requires AddedHaveInputsOf(sorted[k], sorted[..k], added, remaining) && sorted[k] in remaining
    requires DeduplicatedUpTo(copies, sorted, k, remaining)
    ensures (exists i :: 0 <= i < |added| && (sorted[k], added[i]) in copies) ==>
              DeduplicatedUpTo(copies, sorted, k + 1, remaining - {sorted[k]})
    ensures !(exists i :: 0 <= i < |added| && (sorted[k], added[i]) in copies) ==>
              DeduplicatedUpTo(copies, sorted, k + 1, remaining)
  {
    var m := sorted[k];
    assert sorted[..k + 1] == sorted[..k] + [m];
    CompareAntisymmetric(NewMatchesOrderingSpec(spec), m, m);
    forall x | x in sorted[..k]
      ensures x != m && (x, m) !in copies
    {
      var j :| 0 <= j < k && sorted[j] == x;
      CompareAntisymmetric(NewMatchesOrderingSpec(spec), x, m);
    }
    if i :| 0 <= i < |added| && (m, added[i]) in copies {
    } else {
      forall e | e in sorted[..k] && e in remaining
        ensures (m, e) !in copies
      {
        if SameInputs(e, m) {
          assert e in added;
        }
      }
    }
  }

  lemma AllowedInOrder(space: MatchSpace, found: set<Match>, sorted: seq<Match>)
    requires AllAllowed(space, found) && forall m :: m in sorted ==> m in found
    ensures forall i :: 0 <= i < |sorted| ==> space.Allows(sorted[i])
    ensures AllDistinct(sorted)
  {
    forall i | 0 <= i < |sorted|
      ensures space.Allows(sorted[i]) && Distinct(sorted[i].inputs)
    {
      assert sorted[i] in sorted;
    }
  }

  lemma AddedIsEarlier(spec: OrderingSpec, sorted: seq<Match>, k: nat, added: seq<Match>, remaining: set<Match>)
    requires k < |sorted| && StrictlyAscending(spec, sorted)
    requires AddedHaveInputsOf(sorted[k], sorted[..k], added, remaining)
    ensures forall i :: 0 <= i < |added| ==>
              added[i] in sorted && Precedes(spec, added[i], sorted[k]) && SameInputs(sorted[k], added[i])
    ensures sorted[k] !in sorted[..k]
  {
    CompareAntisymmetric(NewMatchesOrderingSpec(spec), sorted[k], sorted[k]);
    forall i | 0 <= i < |added|
      ensures added[i] in sorted && Precedes(spec, added[i], sorted[k]) && SameInputs(sorted[k], added[i])
    {
      assert added[i] in added;
      var l :| 0 <= l < k && sorted[l] == added[i];
    }
  }

  lemma CopyIffSameOutcome(spec: OrderingSpec, space: MatchSpace, found: set<Match>, m: Match, added: seq<Match>)
    requires space.Allows(m) && m in found
    requires forall i :: 0 <= i < |added| ==>
               && added[i] in found && space.Allows(added[i])
               && Precedes(spec, added[i], m) && SameInputs(m, added[i])
    ensures (exists i :: 0 <= i < |added| && SameOutcome(space, m, added[i])) <==>
            (exists i :: 0 <= i < |added| && (m, added[i]) in Copies(spec, space, found))
  {
  }

  lemma CopiesDoFollow(spec: OrderingSpec, space: MatchSpace, found: set<Match>)
    ensures CopiesFollow(spec, Copies(spec, space, found))
  {
  }

  // What holds between two steps of the removal.
  ghost predicate RemovalState(
    copies: set<(Match, Match)>, found: set<Match>, sorted: seq<Match>, k: nat, inputs: set<TokenId>,
    added: seq<Match>, remaining: set<Match>)
    requires k <= |sorted|
  {
    && remaining <= found
    && (forall j :: k <= j < |sorted| ==> sorted[j] in remaining)
    && BatchIsCurrent(sorted, k, inputs, added, remaining)
    && DeduplicatedUpTo(copies, sorted, k, remaining)
  }

  // One step: the next match stays, or goes because it is a copy.
  lemma ProcessNextMatch(
    spec: OrderingSpec, copies: set<(Match, Match)>, found: set<Match>, sorted: seq<Match>, k: nat,
    inputs: set<TokenId>, added: seq<Match>, newAdded: seq<Match>, remaining: set<Match>, appeared: bool)
    requires k < |sorted| && StrictlyAscending(spec, sorted) && CopiesFollow(spec, copies)
    requires RemovalState(copies, found, sorted, k, inputs, added, remaining)
    requires AddedHaveInputsOf(sorted[k], sorted[..k], newAdded, remaining)
    requires appeared <==> exists i :: 0 <= i < |newAdded| && (sorted[k], newAdded[i]) in copies
    ensures var remaining' := if appeared then remaining - {sorted[k]} else remaining;
            var added' := if appeared then newAdded else newAdded + [sorted[k]];
            RemovalState(copies, found, sorted, k + 1, Elements(sorted[k].inputs), added', remaining')
  {
    AddedIsEarlier(spec, sorted, k, newAdded, remaining);
    NextMatchIsDeduplicated(spec, copies, sorted, k, newAdded, remaining);
    LaterIsAnother(spec, sorted, k);
    hide StrictlyAscending, DeduplicatedUpTo, CopiesFollow, BatchIsCurrent;
    NextBatchIsCurrent(sorted, k, newAdded, remaining, appeared);
  }

  lemma LaterIsAnother(spec: OrderingSpec, sorted: seq<Match>, k: nat)
    requires k < |sorted| && StrictlyAscending(spec, sorted)
    ensures forall j :: k < j < |sorted| ==> sorted[j] != sorted[k]
  {
    CompareAntisymmetric(NewMatchesOrderingSpec(spec), sorted[k], sorted[k]);
  }

  lemma NextBatchIsCurrent(
    sorted: seq<Match>, k: nat, newAdded: seq<Match>, remaining: set<Match>, appeared: bool)
    requires k < |sorted| && sorted[k] !in sorted[..k] && sorted[k] in remaining
    requires AddedHaveInputsOf(sorted[k], sorted[..k], newAdded, remaining)
    ensures BatchIsCurrent(
              sorted, k + 1, Elements(sorted[k].inputs), if appeared then newAdded else newAdded + [sorted[k]],
              if appeared then remaining - {sorted[k]} else remaining)
  {
    assert sorted[..k + 1] == sorted[..k] + [sorted[k]];
  }
}
