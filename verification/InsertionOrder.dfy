/**
  The order in which collected matches enter the queue. It is decided by the matches alone, so that
  it does not matter which threads found them, or when.
 */
module InsertionOrder {
  import opened Types
  import opened Collections
  import opened Matching
  import opened MatchOrder
  import opened MatchQueue
  import opened Deduplication

  ghost predicate AscendsByRule(s: seq<Match>) {
    forall i, j :: 0 <= i < j < |s| ==> s[i].rule <= s[j].rule
  }

  ghost predicate SortsByRule(sort: seq<Match> -> seq<Match>) {
    forall s :: multiset(sort(s)) == multiset(s) && AscendsByRule(sort(s))
  }

  // The sorting algorithm of the standard library, which is free to order the matches of one rule in any way.
  type RuleSort = sort: seq<Match> -> seq<Match> | SortsByRule(sort) witness (StableSortSorts(); StableSort)

  function InsertByRule(m: Match, s: seq<Match>): seq<Match> {
    if s == [] || m.rule <= s[0].rule then [m] + s else [s[0]] + InsertByRule(m, s[1..])
  }

  function StableSort(s: seq<Match>): seq<Match> {
    if s == [] then [] else InsertByRule(s[0], StableSort(s[1..]))
  }

  lemma {:induction false} InsertAscends(m: Match, s: seq<Match>)
    requires AscendsByRule(s)
    ensures AscendsByRule(InsertByRule(m, s)) && InsertByRule(m, s) != []
    ensures InsertByRule(m, s)[0] == if s == [] || m.rule <= s[0].rule then m else s[0]
  {
    if s != [] && !(m.rule <= s[0].rule) {
      InsertAscends(m, s[1..]);
    }
  }

  lemma {:induction false} InsertAdds(m: Match, s: seq<Match>)
    ensures multiset(InsertByRule(m, s)) == multiset(s) + multiset{m}
  {
    if s != [] && !(m.rule <= s[0].rule) {
      assert s == [s[0]] + s[1..];
      InsertAdds(m, s[1..]);
    }
  }

  lemma {:induction false} StableSortOf(s: seq<Match>)
    ensures multiset(StableSort(s)) == multiset(s) && AscendsByRule(StableSort(s))
  {
    if s != [] {
      assert s == [s[0]] + s[1..];
      StableSortOf(s[1..]);
      InsertAdds(s[0], StableSort(s[1..]));
      InsertAscends(s[0], StableSort(s[1..]));
    }
  }

  lemma StableSortSorts()
    ensures SortsByRule(StableSort)
  {
    forall s
      ensures multiset(StableSort(s)) == multiset(s) && AscendsByRule(StableSort(s))
    {
      StableSortOf(s);
    }
  }

  // Any will do where there is one rule only.
  const STABLE_SORT: RuleSort := (StableSortSorts(); StableSort)

  // The matches in the order of new matches, as the set that collects them has them.
  ghost predicate IsListed(spec: OrderingSpec, matches: set<Match>, sorted: seq<Match>) {
    StrictlyAscending(spec, sorted) && forall m :: m in sorted <==> m in matches
  }

  ghost predicate IsInsertionOrder(spec: OrderingSpec, sort: RuleSort, matches: set<Match>, order: seq<Match>) {
    exists sorted :: IsListed(spec, matches, sorted) && order == sort(sorted)
  }

  // All matches are in the order, once each and by rule.
  lemma InsertionOrderIsByRule(spec: OrderingSpec, sort: RuleSort, matches: set<Match>, order: seq<Match>)
    requires IsInsertionOrder(spec, sort, matches, order)
    ensures AscendsByRule(order)
    ensures forall m :: multiset(order)[m] == if m in matches then 1 else 0
    ensures forall m :: m in order <==> m in matches
  {
    var sorted :| IsListed(spec, matches, sorted) && order == sort(sorted);
    AscendingIsDistinct(spec, sorted);
    assert multiset(order) == multiset(sorted);
    forall m
      ensures m in order <==> m in sorted
    {
      assert m in order <==> m in multiset(order);
      assert m in sorted <==> m in multiset(sorted);
    }
  }

  lemma {:induction false} AscendingIsDistinct(spec: OrderingSpec, s: seq<Match>)
    requires StrictlyAscending(spec, s)
    ensures forall m :: multiset(s)[m] == if m in s then 1 else 0
  {
    if s != [] {
      var n := |s| - 1;
      AscendingIsDistinct(spec, s[..n]);
      assert s == s[..n] + [s[n]];
      NotBothPrecede(spec, s[n], s[n]);
      assert s[n] !in s[..n];
    }
  }

  lemma {:induction false} ListIsUnique(spec: OrderingSpec, matches: set<Match>, s: seq<Match>, t: seq<Match>)
    requires IsListed(spec, matches, s) && IsListed(spec, matches, t)
    ensures s == t
    decreases |s|
  {
    assert t != [] ==> t[0] in s;
    if s != [] {
      assert s[0] in t;
      var m, n := s[|s| - 1], t[|t| - 1];
      assert m in s && m in t && n in t && n in s;
      NotBothPrecede(spec, m, n);
      LastIsTheRest(spec, matches, s);
      LastIsTheRest(spec, matches, t);
      ListIsUnique(spec, matches - {m}, s[..|s| - 1], t[..|t| - 1]);
    }
  }

  lemma LastIsTheRest(spec: OrderingSpec, matches: set<Match>, s: seq<Match>)
    requires IsListed(spec, matches, s) && s != []
    ensures IsListed(spec, matches - {s[|s| - 1]}, s[..|s| - 1])
  {
    var n := |s| - 1;
    NotBothPrecede(spec, s[n], s[n]);
    assert s == s[..n] + [s[n]];
  }

  // A set of matches is inserted in one order only, whatever the sorting algorithm does.
  lemma InsertionOrderIsUnique(
    spec: OrderingSpec, sort: RuleSort, matches: set<Match>, s: seq<Match>, t: seq<Match>)
    requires IsInsertionOrder(spec, sort, matches, s) && IsInsertionOrder(spec, sort, matches, t)
    ensures s == t
  {
    var sorted :| IsListed(spec, matches, sorted) && s == sort(sorted);
    var sorted' :| IsListed(spec, matches, sorted') && t == sort(sorted');
    ListIsUnique(spec, matches, sorted, sorted');
  }

  // The matches were put into the queue in their order.
  ghost predicate WereInserted(
    spec: OrderingSpec, sort: RuleSort, matches: set<Match>, before: seq<Bucket>, after: seq<Bucket>)
  {
    exists order :: IsInsertionOrder(spec, sort, matches, order) && after == AllInserted(spec, before, order)
  }

  // Of two new matches that the order of the queue leaves alike, the one of the earlier rule is ahead.
  lemma EarlierRuleIsAhead(
    spec: OrderingSpec, sort: RuleSort, matches: set<Match>, before: seq<Bucket>, after: seq<Bucket>, a: Match, b: Match)
    requires BucketsAreValid(spec, before) && WereInserted(spec, sort, matches, before, after)
    requires a in matches && b in matches && !InBuckets(before, b)
    requires a.rule < b.rule && Compare(spec, a, b) == 0
    ensures IsAheadOf(after, a, b)
  {
    var order :| IsInsertionOrder(spec, sort, matches, order) && after == AllInserted(spec, before, order);
    InsertionOrderIsByRule(spec, sort, matches, order);
    var l := FirstPlace(order, b);
    var k :| 0 <= k < |order| && order[k] == a;
    FirstInsertedIsAhead(spec, before, order, k, l);
  }

  lemma FirstPlace(order: seq<Match>, m: Match) returns (l: nat)
    requires m in order
    ensures l < |order| && order[l] == m && m !in order[..l]
  {
    l := 0;
    while order[l] != m
      invariant l < |order| && m in order[l..] && m !in order[..l]
      decreases |order| - l
    {
      assert order[..l + 1] == order[..l] + [order[l]] && order[l..] == [order[l]] + order[l + 1..];
      l := l + 1;
    }
  }

  // What deduplication keeps is decided by what was found.
  lemma {:induction false} KeptIsUnique(
    spec: OrderingSpec, space: MatchSpace, found: set<Match>, kept: set<Match>, kept': set<Match>, m: Match)
    requires IsDeduplicated(Copies(spec, space, found), found, kept)
    requires IsDeduplicated(Copies(spec, space, found), found, kept')
    ensures m in kept ==> m in kept'
    decreases |set x | x in found && Precedes(spec, x, m)|
  {
    hide IsCopyOf, SameOutcome, Precedes;
    if m in kept && m !in kept' {
      var copies := Copies(spec, space, found);
      CopiesDoFollow(spec, space, found);
      var k :| k in kept' && (m, k) in copies;
      FewerPrecede(spec, found, m, k);
      KeptIsUnique(spec, space, found, kept', kept, k);
    }
  }

  lemma FewerPrecede(spec: OrderingSpec, found: set<Match>, m: Match, k: Match)
    requires k in found && Precedes(spec, k, m)
    ensures |set x | x in found && Precedes(spec, x, k)| < |set x | x in found && Precedes(spec, x, m)|
  {
    var fewer, more := set x | x in found && Precedes(spec, x, k), set x | x in found && Precedes(spec, x, m);
    CompareAntisymmetric(NewMatchesOrderingSpec(spec), k, k);
    forall x | x in fewer
      ensures x in more - {k}
    {
      CompareTransitive(NewMatchesOrderingSpec(spec), x, k, m);
    }
    SubsetSize(fewer, more - {k});
  }

  // What a search that collects its matches does to the queue.
  ghost predicate AreCollected(
    spec: OrderingSpec, sort: RuleSort, space: MatchSpace, deduplicates: bool, found: set<Match>,
    before: seq<Bucket>, after: seq<Bucket>)
  {
    exists kept ::
      && (if deduplicates then IsDeduplicated(Copies(spec, space, found), found, kept) else kept == found)
      && WereInserted(spec, sort, kept, before, after)
  }

  // However the search was divided among threads, it leaves the same buckets with the same contents in the same order.
  lemma CollectedBucketsAreUnique(
    spec: OrderingSpec, sort: RuleSort, space: MatchSpace, deduplicates: bool, found: set<Match>,
    before: seq<Bucket>, after: seq<Bucket>, after': seq<Bucket>)
    requires AreCollected(spec, sort, space, deduplicates, found, before, after)
    requires AreCollected(spec, sort, space, deduplicates, found, before, after')
    ensures after == after'
  {
    var kept :|
      && (if deduplicates then IsDeduplicated(Copies(spec, space, found), found, kept) else kept == found)
      && WereInserted(spec, sort, kept, before, after);
    var kept' :|
      && (if deduplicates then IsDeduplicated(Copies(spec, space, found), found, kept') else kept' == found)
      && WereInserted(spec, sort, kept', before, after');
    forall m
      ensures m in kept <==> m in kept'
    {
      if deduplicates {
        KeptIsUnique(spec, space, found, kept, kept', m);
        KeptIsUnique(spec, space, found, kept', kept, m);
      }
    }
    assert kept == kept';
    var order :| IsInsertionOrder(spec, sort, kept, order) && after == AllInserted(spec, before, order);
    var order' :| IsInsertionOrder(spec, sort, kept', order') && after' == AllInserted(spec, before, order');
    InsertionOrderIsUnique(spec, sort, kept, order, order');
  }
}
