/** The order in which pending matches are turned into events. */
module MatchOrder {
  import opened Types

  datatype OrderingFunction =
    SortedInputTokenIndices | ReverseSortedInputTokenIndices | InputTokenIndices | RuleIndex | Any

  datatype OrderingDirection = Normal | Reverse

  datatype Ordering = Ordering(function_: OrderingFunction, direction: OrderingDirection)

  type OrderingSpec = seq<Ordering>

  // ----- sorted copies of the inputs

  function Insert(x: int, s: seq<int>, descending: bool): seq<int> {
    if s == [] || (if descending then s[0] <= x else x <= s[0]) then [x] + s
    else [s[0]] + Insert(x, s[1..], descending)
  }

  function Sort(s: seq<int>, descending: bool): seq<int> {
    if s == [] then [] else Insert(s[0], Sort(s[1..], descending), descending)
  }

  // ----- comparison: negative, zero or positive

  function CompareInts(a: int, b: int): int {
    if a < b then -1 else if a > b then 1 else 0
  }

  // By the first mismatch, or by length if one vector is a prefix of the other.
  function CompareVectors(a: seq<int>, b: seq<int>): int {
    if a == [] || b == [] then CompareInts(|a|, |b|)
    else if a[0] != b[0] then CompareInts(a[0], b[0])
    else CompareVectors(a[1..], b[1..])
  }

  function CompareBy(f: OrderingFunction, a: Match, b: Match): int {
    match f
    case SortedInputTokenIndices => CompareVectors(Sort(a.inputs, false), Sort(b.inputs, false))
    case ReverseSortedInputTokenIndices => CompareVectors(Sort(a.inputs, true), Sort(b.inputs, true))
    case InputTokenIndices => CompareVectors(a.inputs, b.inputs)
    case RuleIndex => CompareInts(a.rule, b.rule)
    case Any => 0
  }

  // What the first function that tells the matches apart says, in its direction.
  function Compare(spec: OrderingSpec, a: Match, b: Match): int {
    if spec == [] then 0
    else
      var c := CompareBy(spec[0].function_, a, b);
      if c == 0 then Compare(spec[1..], a, b)
      else if spec[0].direction == Normal then c else -c
  }

  // The comparator that the queue's map is built with.
  method Less(spec: OrderingSpec, a: Match, b: Match) returns (less: bool)
    ensures less <==> Compare(spec, a, b) < 0
    ensures less <==> ComesFirst(spec, a, b)
  {
    ComparedIff(spec, a, b);
    for i := 0 to |spec|
      invariant Compare(spec, a, b) == Compare(spec[i..], a, b)
    {
      assert spec[i..][1..] == spec[i + 1..];
      var comparison := CompareBy(spec[i].function_, a, b);
      if comparison != 0 {
        if spec[i].direction == Reverse {
          comparison := -comparison;
        }
        return comparison < 0;
      }
    }
    less := false;
  }

  // Refines a user's specification so that every two matches are told apart, and the matches of
  // one set of inputs stay together.
  function NewMatchesOrderingSpec(spec: OrderingSpec): OrderingSpec {
    [Ordering(SortedInputTokenIndices, Normal)] + spec +
    [Ordering(InputTokenIndices, Normal), Ordering(RuleIndex, Normal)]
  }

  // ----- laws

  lemma {:induction false} CompareVectorsAntisymmetric(a: seq<int>, b: seq<int>)
    ensures CompareVectors(a, b) == -CompareVectors(b, a)
    ensures CompareVectors(a, b) == 0 <==> a == b
  {
    if a != [] && b != [] && a[0] == b[0] {
      CompareVectorsAntisymmetric(a[1..], b[1..]);
      assert a == [a[0]] + a[1..] && b == [b[0]] + b[1..];
    }
  }

  lemma {:induction false} CompareVectorsTransitive(a: seq<int>, b: seq<int>, c: seq<int>)
    requires CompareVectors(a, b) <= 0 && CompareVectors(b, c) <= 0
    ensures CompareVectors(a, c) <= 0
    ensures CompareVectors(a, b) < 0 || CompareVectors(b, c) < 0 ==> CompareVectors(a, c) < 0
  {
    if a != [] && b != [] && c != [] && a[0] == b[0] == c[0] {
      CompareVectorsTransitive(a[1..], b[1..], c[1..]);
    }
  }

  lemma CompareByAntisymmetric(f: OrderingFunction, a: Match, b: Match)
    ensures CompareBy(f, a, b) == -CompareBy(f, b, a)
  {
    CompareVectorsAntisymmetric(a.inputs, b.inputs);
    CompareVectorsAntisymmetric(Sort(a.inputs, false), Sort(b.inputs, false));
    CompareVectorsAntisymmetric(Sort(a.inputs, true), Sort(b.inputs, true));
  }

  lemma CompareByTransitive(f: OrderingFunction, a: Match, b: Match, c: Match)
    requires CompareBy(f, a, b) <= 0 && CompareBy(f, b, c) <= 0
    ensures CompareBy(f, a, c) <= 0
    ensures CompareBy(f, a, b) < 0 || CompareBy(f, b, c) < 0 ==> CompareBy(f, a, c) < 0
  {
    match f
    case SortedInputTokenIndices =>
      CompareVectorsTransitive(Sort(a.inputs, false), Sort(b.inputs, false), Sort(c.inputs, false));
    case ReverseSortedInputTokenIndices =>
      CompareVectorsTransitive(Sort(a.inputs, true), Sort(b.inputs, true), Sort(c.inputs, true));
    case InputTokenIndices => CompareVectorsTransitive(a.inputs, b.inputs, c.inputs);
    case RuleIndex =>
    case Any =>
  }

  lemma {:induction false} CompareAntisymmetric(spec: OrderingSpec, a: Match, b: Match)
    ensures Compare(spec, a, b) == -Compare(spec, b, a)
  {
    if spec != [] {
      CompareByAntisymmetric(spec[0].function_, a, b);
      CompareAntisymmetric(spec[1..], a, b);
    }
  }

  lemma {:induction false} CompareTransitive(spec: OrderingSpec, a: Match, b: Match, c: Match)
    requires Compare(spec, a, b) <= 0 && Compare(spec, b, c) <= 0
    ensures Compare(spec, a, c) <= 0
    ensures Compare(spec, a, b) < 0 || Compare(spec, b, c) < 0 ==> Compare(spec, a, c) < 0
  {
    if spec != [] {
      var f := spec[0].function_;
      CompareByAntisymmetric(f, a, b);
      CompareByAntisymmetric(f, b, c);
      CompareByAntisymmetric(f, a, c);
      if spec[0].direction == Normal {
        CompareByTransitive(f, a, b, c);
      } else {
        CompareByTransitive(f, c, b, a);
      }
      if CompareBy(f, a, b) == 0 && CompareBy(f, b, c) == 0 {
        CompareTransitive(spec[1..], a, b, c);
        CompareByTransitive(f, c, b, a);
        CompareByTransitive(f, a, b, c);
      }
    }
  }

  // For every specification the comparator is a strict weak order, as std::map and std::set demand.
  lemma ComparatorIsStrictWeakOrder(spec: OrderingSpec, a: Match, b: Match, c: Match)
    ensures !(Compare(spec, a, a) < 0)
    ensures Compare(spec, a, b) < 0 && Compare(spec, b, c) < 0 ==> Compare(spec, a, c) < 0
    ensures Compare(spec, a, b) < 0 ==> !(Compare(spec, b, a) < 0)
    ensures var equivalent := (x, y) => !(Compare(spec, x, y) < 0) && !(Compare(spec, y, x) < 0);
            equivalent(a, b) && equivalent(b, c) ==> equivalent(a, c)
  {
    CompareAntisymmetric(spec, a, a);
    CompareAntisymmetric(spec, a, b);
    CompareAntisymmetric(spec, b, c);
    CompareAntisymmetric(spec, a, c);
    if Compare(spec, a, b) <= 0 && Compare(spec, b, c) <= 0 {
      CompareTransitive(spec, a, b, c);
    }
    if Compare(spec, c, b) <= 0 && Compare(spec, b, a) <= 0 {
      CompareTransitive(spec, c, b, a);
    }
  }

  lemma {:induction false} CompareConcatenation(first: OrderingSpec, second: OrderingSpec, a: Match, b: Match)
    ensures Compare(first + second, a, b) ==
            if Compare(first, a, b) != 0 then Compare(first, a, b) else Compare(second, a, b)
  {
    if first == [] {
      assert first + second == second;
    } else {
      assert (first + second)[1..] == first[1..] + second;
      CompareConcatenation(first[1..], second, a, b);
    }
  }

  // The order of new matches is total: only a match itself is equivalent to it.
  lemma NewMatchesOrderIsTotal(spec: OrderingSpec, a: Match, b: Match)
    ensures Compare(NewMatchesOrderingSpec(spec), a, b) == 0 <==> a == b
  {
    var last := [Ordering(InputTokenIndices, Normal), Ordering(RuleIndex, Normal)];
    CompareConcatenation([Ordering(SortedInputTokenIndices, Normal)] + spec, last, a, b);
    CompareVectorsAntisymmetric(a.inputs, b.inputs);
    assert Compare(last, a, b) ==
           if CompareBy(InputTokenIndices, a, b) != 0 then CompareBy(InputTokenIndices, a, b)
           else Compare(last[1..], a, b);
    assert Compare(last[1..], a, b) == CompareInts(a.rule, b.rule);
    CompareAntisymmetric(NewMatchesOrderingSpec(spec), a, b);
    if a == b {
      CompareAntisymmetric(NewMatchesOrderingSpec(spec), a, a);
    }
  }

  // ----- sorting

  ghost predicate InOrder(s: seq<int>, descending: bool) {
    forall i, j :: 0 <= i < j < |s| ==> if descending then s[j] <= s[i] else s[i] <= s[j]
  }

  // The same tokens, in ascending or descending order.
  ghost predicate IsSortedCopy(s: seq<int>, sorted: seq<int>, descending: bool) {
    multiset(sorted) == multiset(s) && InOrder(sorted, descending)
  }

  lemma {:induction false} InsertAdds(x: int, s: seq<int>, descending: bool)
    ensures multiset(Insert(x, s, descending)) == multiset(s) + multiset{x}
  {
    if s != [] && !(if descending then s[0] <= x else x <= s[0]) {
      InsertAdds(x, s[1..], descending);
      assert s == [s[0]] + s[1..];
    }
  }

  lemma {:induction false} InsertKeepsOrder(x: int, s: seq<int>, descending: bool)
    requires InOrder(s, descending)
    ensures InOrder(Insert(x, s, descending), descending)
  {
    if s != [] && !(if descending then s[0] <= x else x <= s[0]) {
      assert forall i :: 0 <= i < |s[1..]| ==> s[1..][i] == s[i + 1];
      InsertKeepsOrder(x, s[1..], descending);
      InsertAdds(x, s[1..], descending);
      assert s == [s[0]] + s[1..];
      FirstStaysFirst(s[0], s[1..], x, Insert(x, s[1..], descending), descending);
    }
  }

  lemma FirstStaysFirst(first: int, s: seq<int>, x: int, rest: seq<int>, descending: bool)
    requires multiset(rest) == multiset(s) + multiset{x} && InOrder(rest, descending)
    requires InOrder([first] + s, descending) && if descending then x <= first else first <= x
    ensures InOrder([first] + rest, descending)
  {
    forall i | 0 <= i < |rest|
      ensures if descending then rest[i] <= first else first <= rest[i]
    {
      assert rest[i] in multiset(rest);
      if rest[i] != x {
        var j :| 0 <= j < |s| && s[j] == rest[i];
        assert ([first] + s)[0] == first && ([first] + s)[j + 1] == s[j];
      }
    }
  }

  lemma {:induction false} SortSorts(s: seq<int>, descending: bool)
    ensures IsSortedCopy(s, Sort(s, descending), descending)
  {
    if s != [] {
      SortSorts(s[1..], descending);
      InsertKeepsOrder(s[0], Sort(s[1..], descending), descending);
      InsertAdds(s[0], Sort(s[1..], descending), descending);
      assert s == [s[0]] + s[1..];
    }
  }

  lemma {:induction false} SortedIsCanonical(s: seq<int>, t: seq<int>, descending: bool)
    requires InOrder(s, descending) && InOrder(t, descending) && multiset(s) == multiset(t)
    ensures s == t
  {
    if s == [] || t == [] {
      assert |multiset(s)| == |multiset(t)|;
    } else {
      assert s == [s[0]] + s[1..] && t == [t[0]] + t[1..];
      SameFirst(s, t, descending);
      SameRest(s, t);
      SortedIsCanonical(s[1..], t[1..], descending);
    }
  }

  lemma SameRest(s: seq<int>, t: seq<int>)
    requires s != [] && t != [] && s[0] == t[0] && multiset(s) == multiset(t)
    ensures multiset(s[1..]) == multiset(t[1..])
  {
    assert s == [s[0]] + s[1..] && t == [t[0]] + t[1..];
    assert multiset(s[1..]) == multiset(s) - multiset{s[0]};
    assert multiset(t[1..]) == multiset(t) - multiset{t[0]};
  }

  lemma SameFirst(s: seq<int>, t: seq<int>, descending: bool)
    requires InOrder(s, descending) && InOrder(t, descending) && multiset(s) == multiset(t) && s != [] && t != []
    ensures s[0] == t[0]
  {
    assert s[0] in multiset(t) && t[0] in multiset(s);
  }

  // The first criterion of the order of new matches separates exactly the different input multisets.
  lemma SortedInputsDecideMultiset(a: Match, b: Match)
    ensures CompareBy(SortedInputTokenIndices, a, b) == 0 <==> multiset(a.inputs) == multiset(b.inputs)
  {
    SortSorts(a.inputs, false);
    SortSorts(b.inputs, false);
    CompareVectorsAntisymmetric(Sort(a.inputs, false), Sort(b.inputs, false));
    if multiset(a.inputs) == multiset(b.inputs) {
      SortedIsCanonical(Sort(a.inputs, false), Sort(b.inputs, false), false);
    }
  }

  // ----- what the comparisons mean

  // The vectors differ first at k, where a has the smaller entry or ends.
  ghost predicate IsSmallerAt(a: seq<int>, b: seq<int>, k: nat) {
    && k <= |a| && k < |b| && a[..k] == b[..k]
    && (k == |a| || a[k] < b[k])
  }

  ghost predicate IsSmaller(a: seq<int>, b: seq<int>) {
    exists k: nat :: IsSmallerAt(a, b, k)
  }

  lemma {:induction false} SmallerIffCompared(a: seq<int>, b: seq<int>)
    ensures CompareVectors(a, b) < 0 <==> IsSmaller(a, b)
  {
    if a != [] && b != [] && a[0] == b[0] {
      SmallerIffCompared(a[1..], b[1..]);
      if k: nat :| IsSmallerAt(a, b, k) {
        SmallerInRest(a, b, k);
      }
      if k: nat :| IsSmallerAt(a[1..], b[1..], k) {
        SmallerAtFront(a, b, k);
      }
    } else if b != [] && (a == [] || a[0] < b[0]) {
      assert IsSmallerAt(a, b, 0);
    } else if k: nat :| IsSmallerAt(a, b, k) {
      assert k > 0 ==> a[..k][0] == b[..k][0];
    }
  }

  lemma SmallerInRest(a: seq<int>, b: seq<int>, k: nat)
    requires a != [] && b != [] && a[0] == b[0] && IsSmallerAt(a, b, k)
    ensures IsSmaller(a[1..], b[1..])
  {
    assert a[1..][..k - 1] == a[..k][1..] && b[1..][..k - 1] == b[..k][1..];
    assert IsSmallerAt(a[1..], b[1..], k - 1);
  }

  lemma SmallerAtFront(a: seq<int>, b: seq<int>, k: nat)
    requires a != [] && b != [] && a[0] == b[0] && IsSmallerAt(a[1..], b[1..], k)
    ensures IsSmaller(a, b)
  {
    assert a[..k + 1] == [a[0]] + a[1..][..k] && b[..k + 1] == [b[0]] + b[1..][..k];
    assert IsSmallerAt(a, b, k + 1);
  }

  // What the ordering function asks for: a comes before b.
  ghost predicate ComesBefore(f: OrderingFunction, a: Match, b: Match) {
    match f
    case SortedInputTokenIndices => exists s, t ::
      IsSortedCopy(a.inputs, s, false) && IsSortedCopy(b.inputs, t, false) && IsSmaller(s, t)
    case ReverseSortedInputTokenIndices => exists s, t ::
      IsSortedCopy(a.inputs, s, true) && IsSortedCopy(b.inputs, t, true) && IsSmaller(s, t)
    case InputTokenIndices => IsSmaller(a.inputs, b.inputs)
    case RuleIndex => a.rule < b.rule
    case Any => false
  }

  lemma SortedCopiesAreSmaller(a: seq<int>, b: seq<int>, descending: bool)
    ensures CompareVectors(Sort(a, descending), Sort(b, descending)) < 0 <==> exists s, t ::
              IsSortedCopy(a, s, descending) && IsSortedCopy(b, t, descending) && IsSmaller(s, t)
  {
    SortSorts(a, descending);
    SortSorts(b, descending);
    SmallerIffCompared(Sort(a, descending), Sort(b, descending));
    forall s, t | IsSortedCopy(a, s, descending) && IsSortedCopy(b, t, descending)
      ensures s == Sort(a, descending) && t == Sort(b, descending)
    {
      SortedIsCanonical(s, Sort(a, descending), descending);
      SortedIsCanonical(t, Sort(b, descending), descending);
    }
  }

  lemma ComparedByIff(f: OrderingFunction, a: Match, b: Match)
    ensures CompareBy(f, a, b) < 0 <==> ComesBefore(f, a, b)
    ensures CompareBy(f, a, b) > 0 <==> ComesBefore(f, b, a)
  {
    CompareByAntisymmetric(f, a, b);
    match f
    case SortedInputTokenIndices =>
      SortedCopiesAreSmaller(a.inputs, b.inputs, false);
      SortedCopiesAreSmaller(b.inputs, a.inputs, false);
    case ReverseSortedInputTokenIndices =>
      SortedCopiesAreSmaller(a.inputs, b.inputs, true);
      SortedCopiesAreSmaller(b.inputs, a.inputs, true);
    case InputTokenIndices =>
      SmallerIffCompared(a.inputs, b.inputs);
      SmallerIffCompared(b.inputs, a.inputs);
    case RuleIndex =>
    case Any =>
  }

  // The k-th criterion is the first one that tells the matches apart, and puts a first in its direction.
  ghost predicate IsDecidedAt(spec: OrderingSpec, a: Match, b: Match, k: nat) {
    && k < |spec|
    && (forall j :: 0 <= j < k ==> !ComesBefore(spec[j].function_, a, b) && !ComesBefore(spec[j].function_, b, a))
    && (if spec[k].direction == Normal then ComesBefore(spec[k].function_, a, b) else ComesBefore(spec[k].function_, b, a))
  }

  ghost predicate ComesFirst(spec: OrderingSpec, a: Match, b: Match) {
    exists k: nat :: IsDecidedAt(spec, a, b, k)
  }

  lemma {:induction false} ComparedIff(spec: OrderingSpec, a: Match, b: Match)
    ensures Compare(spec, a, b) < 0 <==> ComesFirst(spec, a, b)
  {
    if spec != [] {
      ComparedByIff(spec[0].function_, a, b);
      ComparedIff(spec[1..], a, b);
      DecidedFirstOrLater(spec, a, b);
      hide ComesBefore, CompareBy, ComesFirst;
    }
  }

  lemma DecidedFirstOrLater(spec: OrderingSpec, a: Match, b: Match)
    requires spec != []
    ensures ComesFirst(spec, a, b) <==>
            if ComesBefore(spec[0].function_, a, b) || ComesBefore(spec[0].function_, b, a) then
              if spec[0].direction == Normal then ComesBefore(spec[0].function_, a, b)
              else ComesBefore(spec[0].function_, b, a)
            else ComesFirst(spec[1..], a, b)
  {
    hide ComesBefore;
    if k: nat :| IsDecidedAt(spec, a, b, k) {
      assert k > 0 ==> IsDecidedAt(spec[1..], a, b, k - 1);
    }
    if ComesBefore(spec[0].function_, a, b) || ComesBefore(spec[0].function_, b, a) {
      assert IsDecidedAt(spec, a, b, 0) <==>
             if spec[0].direction == Normal then ComesBefore(spec[0].function_, a, b)
             else ComesBefore(spec[0].function_, b, a);
    } else if k: nat :| IsDecidedAt(spec[1..], a, b, k) {
      assert spec == [spec[0]] + spec[1..];
      assert IsDecidedAt(spec, a, b, k + 1);
    }
  }

  // The default order is decided by the newest tokens first: the match whose newest token is older comes first.
  lemma NewestTokenDecides(a: Match, b: Match, newest: TokenId)
    requires newest in b.inputs && forall t :: t in a.inputs ==> t < newest
    ensures ComesBefore(ReverseSortedInputTokenIndices, a, b)
  {
    var s, t := Sort(a.inputs, true), Sort(b.inputs, true);
    SortSorts(a.inputs, true);
    SortSorts(b.inputs, true);
    assert newest in multiset(t);
    assert s != [] ==> s[0] in multiset(s) && s[0] in a.inputs;
    assert IsSmallerAt(s, t, 0);
  }

  // The other way around, the match whose oldest token is older comes first.
  lemma OldestTokenDecides(a: Match, b: Match, oldest: TokenId)
    requires oldest in a.inputs && b.inputs != [] && forall t :: t in b.inputs ==> oldest < t
    ensures ComesBefore(SortedInputTokenIndices, a, b)
  {
    var s, t := Sort(a.inputs, false), Sort(b.inputs, false);
    SortSorts(a.inputs, false);
    SortSorts(b.inputs, false);
    assert oldest in multiset(s);
    assert t != [] by {
      assert |multiset(t)| == |b.inputs|;
    }
    assert t[0] in multiset(t) && t[0] in b.inputs;
    assert IsSmallerAt(s, t, 0);
  }

  // ----- the order of new matches

  // Of the matches of one set of inputs, the one that the user's specification puts first is the smallest.
  lemma NewMatchesFollowSpecification(spec: OrderingSpec, a: Match, b: Match)
    requires multiset(a.inputs) == multiset(b.inputs)
    ensures Compare(spec, a, b) < 0 ==> Compare(NewMatchesOrderingSpec(spec), a, b) < 0
  {
    var first := [Ordering(SortedInputTokenIndices, Normal)];
    SortedInputsDecideMultiset(a, b);
    assert first[1..] == [] && Compare(first, a, b) == 0;
    CompareConcatenation(first, spec, a, b);
    CompareConcatenation(
      first + spec, [Ordering(InputTokenIndices, Normal), Ordering(RuleIndex, Normal)], a, b);
  }
}
