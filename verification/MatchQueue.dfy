/**
  The matches the engine knows about: an ordered map of buckets of equivalent matches, each bucket
  with a position index, next to an index by token and a flat set.
 */
module MatchQueue {
  import opened Types
  import opened Collections
  import opened MatchOrder

  // Matches equivalent to the key, listed in an order that only deletion disturbs.
  datatype Bucket = Bucket(key: Match, positions: map<Match, int>, order: seq<Match>)

  ghost predicate PositionsMatchOrder(positions: map<Match, int>, order: seq<Match>) {
    && (forall i :: 0 <= i < |order| ==> order[i] in positions && positions[order[i]] == i)
    && (forall m :: m in positions ==> 0 <= positions[m] < |order| && order[positions[m]] == m)
  }

  ghost predicate BucketIsValid(spec: OrderingSpec, b: Bucket) {
    && b.order != []
    && PositionsMatchOrder(b.positions, b.order)
    && forall m :: m in b.positions ==> Compare(spec, m, b.key) == 0
  }

  ghost predicate BucketsAreValid(spec: OrderingSpec, bs: seq<Bucket>) {
    && (forall i :: 0 <= i < |bs| ==> BucketIsValid(spec, bs[i]))
    && (forall i, j :: 0 <= i < j < |bs| ==> Compare(spec, bs[i].key, bs[j].key) < 0)
  }

  ghost predicate InBuckets(bs: seq<Bucket>, m: Match) {
    exists i :: 0 <= i < |bs| && m in bs[i].positions
  }

  // The bucket a match of the queue is in is the one whose key is equivalent to it.
  lemma BucketOfMatch(spec: OrderingSpec, bs: seq<Bucket>, m: Match, i: nat)
    requires BucketsAreValid(spec, bs) && i <= |bs|
    requires forall j :: 0 <= j < i ==> Compare(spec, bs[j].key, m) < 0
    requires i < |bs| ==> Compare(spec, bs[i].key, m) >= 0
    ensures InBuckets(bs, m) ==> i < |bs| && m in bs[i].positions
    ensures forall j :: 0 <= j < |bs| && j != i ==> m !in bs[j].positions
  {
    forall j | 0 <= j < |bs| && m in bs[j].positions
      ensures j == i
    {
      CompareAntisymmetric(spec, m, bs[j].key);
      if i < j {
        CompareAntisymmetric(spec, bs[i].key, m);
        CompareTransitive(spec, m, bs[i].key, bs[j].key);
      }
    }
  }

  ghost function Inserted(bs: seq<Bucket>, i: nat, b: Bucket): (r: seq<Bucket>)
    requires i <= |bs|
    ensures |r| == |bs| + 1
    ensures forall j :: 0 <= j < |r| ==> r[j] == if j < i then bs[j] else if j == i then b else bs[j - 1]
  {
    bs[..i] + [b] + bs[i..]
  }

  lemma InsertedBucketsAreValid(spec: OrderingSpec, bs: seq<Bucket>, m: Match, i: nat)
    requires BucketsAreValid(spec, bs) && i <= |bs|
    requires forall j :: 0 <= j < i ==> Compare(spec, bs[j].key, m) < 0
    requires i < |bs| ==> Compare(spec, bs[i].key, m) > 0
    ensures var bs' := Inserted(bs, i, Bucket(m, map[m := 0], [m]));
            BucketsAreValid(spec, bs') && forall x :: InBuckets(bs', x) <==> InBuckets(bs, x) || x == m
  {
    var b := Bucket(m, map[m := 0], [m]);
    var bs' := Inserted(bs, i, b);
    CompareAntisymmetric(spec, m, m);
    assert BucketIsValid(spec, b);
    forall j, k | 0 <= j < k < |bs'|
      ensures Compare(spec, bs'[j].key, bs'[k].key) < 0
    {
      InsertedKeysAscend(spec, bs, m, i, j, k);
    }
    InsertedMembers(bs, i, b, m);
  }

  lemma InsertedMembers(bs: seq<Bucket>, i: nat, b: Bucket, m: Match)
    requires i <= |bs| && b.positions == map[m := 0]
    ensures forall x :: InBuckets(Inserted(bs, i, b), x) <==> InBuckets(bs, x) || x == m
  {
    var bs' := Inserted(bs, i, b);
    forall x
      ensures InBuckets(bs', x) <==> InBuckets(bs, x) || x == m
    {
      if InBuckets(bs, x) {
        var j :| 0 <= j < |bs| && x in bs[j].positions;
        assert x in bs'[if j < i then j else j + 1].positions;
      }
      if x == m {
        assert x in bs'[i].positions;
      }
    }
  }

  lemma InsertedKeysAscend(spec: OrderingSpec, bs: seq<Bucket>, m: Match, i: nat, j: nat, k: nat)
    requires forall x, y :: 0 <= x < y < |bs| ==> Compare(spec, bs[x].key, bs[y].key) < 0
    requires i <= |bs| && j < k <= |bs|
    requires forall x :: 0 <= x < i ==> Compare(spec, bs[x].key, m) < 0
    requires i < |bs| ==> Compare(spec, bs[i].key, m) > 0
    ensures var bs' := Inserted(bs, i, Bucket(m, map[m := 0], [m]));
            Compare(spec, bs'[j].key, bs'[k].key) < 0
  {
    hide Compare;
    if j == i {
      CompareAntisymmetric(spec, bs[i].key, m);
      if k > i + 1 {
        CompareTransitive(spec, m, bs[i].key, bs[k - 1].key);
      }
    }
  }

  lemma ReplacedBucketsAreValid(spec: OrderingSpec, bs: seq<Bucket>, i: nat, b: Bucket)
    requires BucketsAreValid(spec, bs) && i < |bs| && BucketIsValid(spec, b) && b.key == bs[i].key
    ensures BucketsAreValid(spec, bs[i := b])
  {
  }

  lemma RemovedBucketsAreValid(spec: OrderingSpec, bs: seq<Bucket>, i: nat)
    requires BucketsAreValid(spec, bs) && i < |bs|
    ensures var bs' := bs[..i] + bs[i + 1..];
            && BucketsAreValid(spec, bs')
            && forall x :: InBuckets(bs', x) <==> exists j :: 0 <= j < |bs| && j != i && x in bs[j].positions
  {
    var bs' := bs[..i] + bs[i + 1..];
    assert forall j :: 0 <= j < |bs'| ==> bs'[j] == bs[if j < i then j else j + 1];
    forall x, j | 0 <= j < |bs| && j != i && x in bs[j].positions
      ensures InBuckets(bs', x)
    {
      assert x in bs'[if j < i then j else j - 1].positions;
    }
  }

  // The buckets after one more match: at the end of the bucket it is equivalent to, or in a new one.
  ghost function WithMatch(spec: OrderingSpec, bs: seq<Bucket>, m: Match): seq<Bucket> {
    if InBuckets(bs, m) then bs else Placed(spec, bs, m)
  }

  ghost function Placed(spec: OrderingSpec, bs: seq<Bucket>, m: Match): seq<Bucket> {
    if bs == [] || Compare(spec, m, bs[0].key) < 0 then [Bucket(m, map[m := 0], [m])] + bs
    else if Compare(spec, bs[0].key, m) < 0 then [bs[0]] + Placed(spec, bs[1..], m)
    else [Longer(bs[0], m)] + bs[1..]
  }

  function Longer(b: Bucket, m: Match): Bucket {
    Bucket(b.key, b.positions[m := |b.order|], b.order + [m])
  }

  lemma {:induction false} PlacedAt(spec: OrderingSpec, bs: seq<Bucket>, m: Match, i: nat)
    requires i <= |bs| && forall j :: 0 <= j < i ==> Compare(spec, bs[j].key, m) < 0
    requires i < |bs| ==> Compare(spec, bs[i].key, m) >= 0
    ensures Placed(spec, bs, m) ==
            if i < |bs| && Compare(spec, m, bs[i].key) == 0 then bs[i := Longer(bs[i], m)]
            else bs[..i] + [Bucket(m, map[m := 0], [m])] + bs[i..]
  {
    hide Compare, Longer;
    if bs != [] {
      CompareAntisymmetric(spec, m, bs[0].key);
    }
    if i > 0 {
      var rest := bs[1..];
      assert forall j :: 0 <= j < |rest| ==> rest[j] == bs[j + 1];
      PlacedAt(spec, rest, m, i - 1);
      PlacedBeyondFirst(bs, m, i);
    }
  }

  lemma PlacedBeyondFirst(bs: seq<Bucket>, m: Match, i: nat)
    requires 0 < i <= |bs|
    ensures [bs[0]] + (bs[1..][..i - 1] + [Bucket(m, map[m := 0], [m])] + bs[1..][i - 1..]) ==
            bs[..i] + [Bucket(m, map[m := 0], [m])] + bs[i..]
    ensures i < |bs| ==> [bs[0]] + bs[1..][i - 1 := Longer(bs[i], m)] == bs[i := Longer(bs[i], m)]
  {
    assert [bs[0]] + bs[1..][..i - 1] == bs[..i] && bs[1..][i - 1..] == bs[i..];
  }

  // Whatever else there is, a new match ends up last in the list of its bucket, after the ones that were there, and its
  // position says so. All matches of the bucket are equivalent to it.
  lemma NewMatchIsLast(spec: OrderingSpec, bs: seq<Bucket>, m: Match)
    requires BucketsAreValid(spec, bs) && !InBuckets(bs, m)
    ensures exists i :: IsPutLast(spec, bs, WithMatch(spec, bs, m), m, i)
    ensures forall j :: 0 <= j < |bs| ==> IsKeptIn(bs[j], WithMatch(spec, bs, m))
  {
    var i := PlaceOf(spec, bs, m);
    PlacedAt(spec, bs, m, i);
    CompareAntisymmetric(spec, m, m);
    hide BucketsAreValid, Placed, InBuckets, Compare, IsPutLast, IsKeptIn;
    var bs' := WithMatch(spec, bs, m);
    if i < |bs| && Compare(spec, m, bs[i].key) == 0 {
      PutLast(spec, bs, bs', m, i);
    } else {
      PutAlone(spec, bs, bs', m, i);
    }
    assert IsPutLast(spec, bs, bs', m, i);
  }

  lemma PutLast(spec: OrderingSpec, bs: seq<Bucket>, bs': seq<Bucket>, m: Match, i: nat)
    requires i < |bs| && Compare(spec, m, bs[i].key) == 0 && bs' == bs[i := Longer(bs[i], m)]
    ensures IsPutLast(spec, bs, bs', m, i) && forall j :: 0 <= j < |bs| ==> IsKeptIn(bs[j], bs')
  {
    hide Compare;
    forall j | 0 <= j < |bs|
      ensures IsKeptIn(bs[j], bs')
    {
      assert bs'[j].key == bs[j].key && bs[j].order <= bs'[j].order;
    }
  }

  lemma PutAlone(spec: OrderingSpec, bs: seq<Bucket>, bs': seq<Bucket>, m: Match, i: nat)
    requires i <= |bs| && Compare(spec, m, m) == 0 && bs' == bs[..i] + [Bucket(m, map[m := 0], [m])] + bs[i..]
    ensures IsPutLast(spec, bs, bs', m, i) && forall j :: 0 <= j < |bs| ==> IsKeptIn(bs[j], bs')
  {
    hide Compare;
    forall j | 0 <= j < |bs|
      ensures IsKeptIn(bs[j], bs')
    {
      assert bs'[if j < i then j else j + 1] == bs[j];
    }
  }

  ghost predicate IsPutLast(spec: OrderingSpec, bs: seq<Bucket>, bs': seq<Bucket>, m: Match, i: int) {
    && 0 <= i < |bs'| && IsLastIn(spec, bs'[i], m)
    && (|bs'| == |bs| ==> bs'[i].key == bs[i].key && bs'[i].order[..|bs'[i].order| - 1] == bs[i].order)
    && (|bs'| != |bs| ==> bs'[i].order == [m])
  }

  // The bucket is still there, with the same matches in the same order, and perhaps more.
  ghost predicate IsKeptIn(b: Bucket, bs: seq<Bucket>) {
    exists k :: 0 <= k < |bs| && bs[k].key == b.key && b.order <= bs[k].order
  }

  ghost predicate IsLastIn(spec: OrderingSpec, b: Bucket, m: Match) {
    && b.order != [] && b.order[|b.order| - 1] == m
    && m in b.positions && b.positions[m] == |b.order| - 1 && Compare(spec, m, b.key) == 0
  }

  lemma {:induction false} PlaceOf(spec: OrderingSpec, bs: seq<Bucket>, m: Match) returns (i: nat)
    ensures i <= |bs| && forall j :: 0 <= j < i ==> Compare(spec, bs[j].key, m) < 0
    ensures i < |bs| ==> Compare(spec, bs[i].key, m) >= 0
  {
    i := 0;
    if bs != [] && Compare(spec, bs[0].key, m) < 0 {
      var rest := PlaceOf(spec, bs[1..], m);
      assert forall j :: 0 < j < |bs| ==> bs[j] == bs[1..][j - 1];
      i := rest + 1;
    }
  }

  // Bucket i lost the match, whose place the last one took, or it is gone if that was its only one. All others stay.
  ghost predicate IsWithout(bs: seq<Bucket>, bs': seq<Bucket>, m: Match, i: int) {
    && 0 <= i < |bs|
    && if |bs[i].order| <= 1 then bs[i].order == [m] && bs' == bs[..i] + bs[i + 1..]
       else
         && |bs'| == |bs| && bs' == bs[i := bs'[i]] && bs'[i].key == bs[i].key
         && HasSwappedOut(bs[i].order, bs'[i].order, m)
  }

  ghost predicate HasSwappedOut(order: seq<Match>, order': seq<Match>, m: Match) {
    && |order'| == |order| - 1
    && forall k :: 0 <= k < |order'| ==> order'[k] == if order[k] == m then order[|order| - 1] else order[k]
  }

  // The buckets after inserting several matches one by one.
  ghost function AllInserted(spec: OrderingSpec, bs: seq<Bucket>, matches: seq<Match>): seq<Bucket> {
    if matches == [] then bs
    else WithMatch(spec, AllInserted(spec, bs, matches[..|matches| - 1]), matches[|matches| - 1])
  }

  lemma InsertedNext(spec: OrderingSpec, bs: seq<Bucket>, matches: seq<Match>, k: nat)
    requires k < |matches|
    ensures matches[..k + 1] == matches[..k] + [matches[k]]
    ensures AllInserted(spec, bs, matches[..k + 1]) == WithMatch(spec, AllInserted(spec, bs, matches[..k]), matches[k])
    ensures AllInserted(spec, bs, matches[..0]) == bs
  {
    assert matches[..k + 1][..k] == matches[..k];
  }

  // Both are in one bucket, a before b.
  ghost predicate IsAheadOf(bs: seq<Bucket>, a: Match, b: Match) {
    exists i, p, q :: 0 <= i < |bs| && IsAheadAt(bs[i].order, a, b, p, q)
  }

  ghost predicate IsAheadAt(order: seq<Match>, a: Match, b: Match, p: int, q: int) {
    0 <= p < q < |order| && order[p] == a && order[q] == b
  }

  // Of two new matches that the order leaves alike, the one that was inserted first is ahead.
  lemma {:induction false} FirstInsertedIsAhead(
    spec: OrderingSpec, bs: seq<Bucket>, matches: seq<Match>, k: nat, l: nat)
    requires BucketsAreValid(spec, bs) && k < l < |matches| && Compare(spec, matches[k], matches[l]) == 0
    requires matches[l] !in matches[..l] && !InBuckets(bs, matches[l])
    ensures IsAheadOf(AllInserted(spec, bs, matches), matches[k], matches[l])
    decreases |matches|
  {
    hide Compare, BucketsAreValid, InBuckets, WithMatch, IsAheadOf;
    var n := |matches| - 1;
    AllInsertedAreValid(spec, bs, matches[..n]);
    var before := AllInserted(spec, bs, matches[..n]);
    if l < n {
      assert matches[..n][..l] == matches[..l];
      FirstInsertedIsAhead(spec, bs, matches[..n], k, l);
      StaysAhead(spec, before, matches[n], matches[k], matches[l]);
    } else {
      assert matches[k] in matches[..n];
      AlikeIsPutBehind(spec, before, matches[k], matches[n]);
    }
  }

  lemma {:induction false} AllInsertedAreValid(spec: OrderingSpec, bs: seq<Bucket>, matches: seq<Match>)
    requires BucketsAreValid(spec, bs)
    ensures BucketsAreValid(spec, AllInserted(spec, bs, matches))
    ensures forall m :: InBuckets(AllInserted(spec, bs, matches), m) <==> InBuckets(bs, m) || m in matches
  {
    if matches != [] {
      var n := |matches| - 1;
      AllInsertedAreValid(spec, bs, matches[..n]);
      WithMatchIsValid(spec, AllInserted(spec, bs, matches[..n]), matches[n]);
      hide BucketsAreValid, InBuckets, WithMatch;
      assert matches == matches[..n] + [matches[n]];
    }
  }

  lemma WithMatchIsValid(spec: OrderingSpec, bs: seq<Bucket>, m: Match)
    requires BucketsAreValid(spec, bs)
    ensures BucketsAreValid(spec, WithMatch(spec, bs, m))
    ensures forall x :: InBuckets(WithMatch(spec, bs, m), x) <==> InBuckets(bs, x) || x == m
  {
    if !InBuckets(bs, m) {
      var i := PlaceOf(spec, bs, m);
      PlacedAt(spec, bs, m, i);
      BucketOfMatch(spec, bs, m, i);
      hide Placed;
      if i < |bs| && Compare(spec, m, bs[i].key) == 0 {
        LongerBucketsAreValid(spec, bs, m, i);
      } else {
        if i < |bs| {
          CompareAntisymmetric(spec, m, bs[i].key);
        }
        InsertedBucketsAreValid(spec, bs, m, i);
      }
    }
  }

  lemma LongerBucketsAreValid(spec: OrderingSpec, bs: seq<Bucket>, m: Match, i: nat)
    requires BucketsAreValid(spec, bs) && i < |bs| && m !in bs[i].positions && Compare(spec, m, bs[i].key) == 0
    ensures BucketsAreValid(spec, bs[i := Longer(bs[i], m)])
    ensures forall x :: InBuckets(bs[i := Longer(bs[i], m)], x) <==> InBuckets(bs, x) || x == m
  {
    hide Compare;
    var bs' := bs[i := Longer(bs[i], m)];
    assert BucketIsValid(spec, bs[i]);
    ReplacedBucketsAreValid(spec, bs, i, bs'[i]);
    forall x
      ensures InBuckets(bs', x) <==> InBuckets(bs, x) || x == m
    {
      if InBuckets(bs, x) {
        var j :| 0 <= j < |bs| && x in bs[j].positions;
        assert x in bs'[j].positions;
      }
      assert m in bs'[i].positions;
    }
  }

  lemma StaysAhead(spec: OrderingSpec, bs: seq<Bucket>, m: Match, a: Match, b: Match)
    requires BucketsAreValid(spec, bs) && IsAheadOf(bs, a, b)
    ensures IsAheadOf(WithMatch(spec, bs, m), a, b)
  {
    if !InBuckets(bs, m) {
      NewMatchIsLast(spec, bs, m);
      hide BucketsAreValid, WithMatch, InBuckets;
      var bs' := WithMatch(spec, bs, m);
      var i, p, q :| 0 <= i < |bs| && IsAheadAt(bs[i].order, a, b, p, q);
      assert IsKeptIn(bs[i], bs');
      var k :| 0 <= k < |bs'| && bs'[k].key == bs[i].key && bs[i].order <= bs'[k].order;
      assert IsAheadAt(bs'[k].order, a, b, p, q);
    }
  }

  lemma AlikeIsPutBehind(spec: OrderingSpec, bs: seq<Bucket>, a: Match, b: Match)
    requires BucketsAreValid(spec, bs) && InBuckets(bs, a) && !InBuckets(bs, b) && Compare(spec, a, b) == 0
    ensures IsAheadOf(WithMatch(spec, bs, b), a, b)
  {
    var i :| 0 <= i < |bs| && a in bs[i].positions;
    assert BucketIsValid(spec, bs[i]);
    var p := bs[i].positions[a];
    AlikeBucket(spec, bs, a, b, i);
    PlacedAt(spec, bs, b, i);
    assert IsAheadAt(WithMatch(spec, bs, b)[i].order, a, b, p, |bs[i].order|);
  }

  lemma AlikeBucket(spec: OrderingSpec, bs: seq<Bucket>, a: Match, b: Match, i: nat)
    requires BucketsAreValid(spec, bs) && i < |bs| && Compare(spec, a, bs[i].key) == 0 && Compare(spec, a, b) == 0
    ensures Compare(spec, b, bs[i].key) == 0 && Compare(spec, bs[i].key, b) == 0
    ensures forall j :: 0 <= j < i ==> Compare(spec, bs[j].key, b) < 0
  {
    CompareAntisymmetric(spec, a, b);
    CompareAntisymmetric(spec, b, bs[i].key);
    CompareTransitive(spec, b, a, bs[i].key);
    CompareAntisymmetric(spec, a, bs[i].key);
    CompareTransitive(spec, bs[i].key, a, b);
    forall j | 0 <= j < i
      ensures Compare(spec, bs[j].key, b) < 0
    {
      CompareTransitive(spec, bs[j].key, bs[i].key, b);
    }
  }

  class MatchQueue {
    const orderingSpec: OrderingSpec
    var buckets: seq<Bucket>
    var tokensToMatches: map<TokenId, set<Match>>
    var allMatches: set<Match>
    var nextMatch: Option<Match>

    constructor (orderingSpec: OrderingSpec)
      ensures Valid() && NextIsCurrent() && allMatches == {} && this.orderingSpec == orderingSpec
    {
      this.orderingSpec := orderingSpec;
      buckets, tokensToMatches, allMatches, nextMatch := [], map[], {}, None;
    }

    ghost function MatchesOf(token: TokenId): set<Match>
      reads this`tokensToMatches
    {
      if token in tokensToMatches then tokensToMatches[token] else {}
    }

    ghost predicate TokensAreIndexed()
      reads this`tokensToMatches, this`allMatches
    {
      forall t, m :: m in MatchesOf(t) <==> m in allMatches && t in m.inputs
    }

    // All parts represent one set of matches.
    ghost predicate Valid()
      reads this
    {
      && BucketsAreValid(orderingSpec, buckets)
      && (forall m :: m in allMatches <==> InBuckets(buckets, m))
      && TokensAreIndexed()
    }

    // nextMatch was chosen from the present first bucket.
    ghost predicate NextIsCurrent()
      reads this
    {
      buckets != [] ==> nextMatch.Some? && nextMatch.value in buckets[0].positions
    }

    // No pending match precedes m.
    ghost predicate IsFirst(m: Match)
      reads this
    {
      m in allMatches && forall x :: x in allMatches ==> !(Compare(orderingSpec, x, m) < 0)
    }

    lemma NextIsFirst()
      requires Valid() && NextIsCurrent()
      ensures buckets == [] <==> allMatches == {}
      ensures buckets != [] ==> nextMatch.Some? && IsFirst(nextMatch.value)
    {
      if buckets != [] {
        var next := nextMatch.value;
        assert InBuckets(buckets, next);
        forall x | x in allMatches
          ensures Compare(orderingSpec, x, next) >= 0
        {
          var i :| 0 <= i < |buckets| && x in buckets[i].positions;
          CompareAntisymmetric(orderingSpec, x, buckets[i].key);
          CompareAntisymmetric(orderingSpec, next, buckets[0].key);
          CompareAntisymmetric(orderingSpec, x, next);
          if i > 0 {
            CompareTransitive(orderingSpec, next, buckets[0].key, buckets[i].key);
          } else {
            CompareTransitive(orderingSpec, next, buckets[0].key, x);
          }
          CompareTransitive(orderingSpec, next, buckets[i].key, x);
        }
      } else if allMatches != {} {
        var m := Member(allMatches);
        assert false;
      }
    }

    // The place of m among the buckets.
    method FindBucket(m: Match) returns (i: nat)
      ensures i <= |buckets|
      ensures forall j :: 0 <= j < i ==> Compare(orderingSpec, buckets[j].key, m) < 0
      ensures i < |buckets| ==> Compare(orderingSpec, buckets[i].key, m) >= 0
    {
      i := 0;
      while i < |buckets|
        invariant i <= |buckets|
        invariant forall j :: 0 <= j < i ==> Compare(orderingSpec, buckets[j].key, m) < 0
      {
        var less := Less(orderingSpec, buckets[i].key, m);
        if !less {
          return;
        }
        i := i + 1;
      }
    }

    method InsertMatch(m: Match)
      requires Valid()
      modifies this`buckets, this`tokensToMatches, this`allMatches
      ensures Valid() && allMatches == old(allMatches) + {m}
      ensures buckets == WithMatch(orderingSpec, old(buckets), m)
    {
      if m in allMatches {
        assert allMatches == allMatches + {m};
        return;
      }
      allMatches := allMatches + {m};
      AddToBuckets(m);
      hide BucketsAreValid, WithMatch, InBuckets;
      IndexTokens(m);
    }

    // The match goes to the end of the bucket of its equals, or to a new one.
    method AddToBuckets(m: Match)
      requires BucketsAreValid(orderingSpec, buckets) && !InBuckets(buckets, m)
      modifies this`buckets
      ensures BucketsAreValid(orderingSpec, buckets)
      ensures buckets == WithMatch(orderingSpec, old(buckets), m)
      ensures forall x :: InBuckets(buckets, x) <==> old(InBuckets(buckets, x)) || x == m
    {
      var i := FindBucket(m);
      BucketOfMatch(orderingSpec, buckets, m, i);
      PlacedAt(orderingSpec, buckets, m, i);
      var greater := true;
      if i < |buckets| {
        CompareAntisymmetric(orderingSpec, m, buckets[i].key);
        greater := Less(orderingSpec, m, buckets[i].key);
      }
      if greater {
        InsertedBucketsAreValid(orderingSpec, buckets, m, i);
        buckets := buckets[..i] + [Bucket(m, map[m := 0], [m])] + buckets[i..];
      } else {
        AppendToBucket(i, m);
      }
    }

    method AppendToBucket(i: nat, m: Match)
      requires BucketsAreValid(orderingSpec, buckets) && i < |buckets|
      requires Compare(orderingSpec, m, buckets[i].key) == 0 && m !in buckets[i].positions
      modifies this`buckets
      ensures BucketsAreValid(orderingSpec, buckets)
      ensures buckets == old(buckets)[i := Longer(old(buckets)[i], m)]
      ensures forall x :: InBuckets(buckets, x) <==> old(InBuckets(buckets, x)) || x == m
    {
      var bucket := buckets[i];
      assert BucketIsValid(orderingSpec, bucket);
      bucket := bucket.(order := bucket.order + [m]);
      bucket := bucket.(positions := bucket.positions[m := |bucket.order| - 1]);
      ReplacedBucketsAreValid(orderingSpec, buckets, i, bucket);
      buckets := buckets[i := bucket];
      assert forall j :: 0 <= j < |buckets| && j != i ==> buckets[j] == old(buckets)[j];
      forall x
        ensures InBuckets(buckets, x) <==> old(InBuckets(buckets, x)) || x == m
      {
        if old(InBuckets(buckets, x)) {
          var j :| 0 <= j < |buckets| && x in old(buckets)[j].positions;
          assert x in buckets[j].positions;
        }
        assert x == m ==> x in buckets[i].positions;
      }
    }

    method IndexTokens(m: Match)
      requires forall t, x :: x in MatchesOf(t) <==> x in allMatches && t in x.inputs && x != m
      requires m in allMatches
      modifies this`tokensToMatches
      ensures TokensAreIndexed()
    {
      var tokens := m.inputs;
      for k := 0 to |tokens|
        invariant forall t, x :: x in MatchesOf(t) <==>
                    x in allMatches && t in x.inputs && (x == m ==> t in tokens[..k])
      {
        assert tokens[..k + 1] == tokens[..k] + [tokens[k]];
        assert forall t :: t in tokens[..k + 1] <==> t in tokens[..k] || t == tokens[k];
        var token := tokens[k];
        label Before:
        tokensToMatches := tokensToMatches[token := (if token in tokensToMatches then tokensToMatches[token] else {}) + {m}];
        assert forall t, x :: x in MatchesOf(t) <==> x in old@Before(MatchesOf(t)) || (x == m && t == token);
      }
      assert tokens[..|tokens|] == tokens;
    }

    // nextMatch is left as it is: the caller has to choose again.
    method DeleteMatch(m: Match)
      requires Valid() && m in allMatches
      modifies this`buckets, this`tokensToMatches, this`allMatches
      ensures Valid() && allMatches == old(allMatches) - {m}
      ensures exists i :: IsWithout(old(buckets), buckets, m, i)
    {
      allMatches := allMatches - {m};
      UnindexTokens(m);
      var i := FindBucket(m);
      BucketOfMatch(orderingSpec, buckets, m, i);
      DeleteFromBucket(i, m);
    }

    method UnindexTokens(m: Match)
      requires m !in allMatches
      requires forall t, x :: x in MatchesOf(t) <==> (x in allMatches || x == m) && t in x.inputs
      modifies this`tokensToMatches
      ensures TokensAreIndexed()
    {
      var tokens := m.inputs;
      for k := 0 to |tokens|
        invariant forall t, x :: x in MatchesOf(t) <==>
                    (x in allMatches || (x == m && t !in tokens[..k])) && t in x.inputs
      {
        assert tokens[..k + 1] == tokens[..k] + [tokens[k]];
        assert forall t :: t in tokens[..k + 1] <==> t in tokens[..k] || t == tokens[k];
        var token := tokens[k];
        label Before:
        var remaining := (if token in tokensToMatches then tokensToMatches[token] else {}) - {m};
        tokensToMatches := if remaining == {} then tokensToMatches - {token} else tokensToMatches[token := remaining];
        assert forall t, x :: x in MatchesOf(t) <==> x in old@Before(MatchesOf(t)) && !(x == m && t == token);
      }
      assert tokens[..|tokens|] == tokens;
    }

    method DeleteFromBucket(i: nat, m: Match)
      requires BucketsAreValid(orderingSpec, buckets) && i < |buckets| && m in buckets[i].positions
      requires forall j :: 0 <= j < |buckets| && j != i ==> m !in buckets[j].positions
      modifies this`buckets
      ensures BucketsAreValid(orderingSpec, buckets)
      ensures IsWithout(old(buckets), buckets, m, i)
      ensures forall x :: InBuckets(buckets, x) <==> old(InBuckets(buckets, x)) && x != m
    {
      var bucket := buckets[i];
      assert BucketIsValid(orderingSpec, bucket);
      var positions, order := SwapRemove(bucket.positions, bucket.order, m);
      if order == [] {
        RemovedBucketsAreValid(orderingSpec, buckets, i);
        buckets := buckets[..i] + buckets[i + 1..];
        assert forall x :: x !in positions;
      } else {
        var b := Bucket(bucket.key, positions, order);
        ReplacedBucketsAreValid(orderingSpec, buckets, i, b);
        buckets := buckets[i := b];
        forall x
          ensures InBuckets(buckets, x) <==> old(InBuckets(buckets, x)) && x != m
        {
          if InBuckets(buckets, x) {
            var j :| 0 <= j < |buckets| && x in buckets[j].positions;
            assert x in old(buckets)[j].positions;
          }
          if old(InBuckets(buckets, x)) && x != m {
            var j :| 0 <= j < |buckets| && x in old(buckets)[j].positions;
            assert x in buckets[j].positions;
          }
        }
      }
    }

    // Deletes in constant time by moving the last match into the gap.
    static method SwapRemove(positions: map<Match, int>, order: seq<Match>, m: Match)
      returns (positions': map<Match, int>, order': seq<Match>)
      requires PositionsMatchOrder(positions, order) && m in positions
      ensures PositionsMatchOrder(positions', order')
      ensures forall x :: x in positions' <==> x in positions && x != m
      ensures HasSwappedOut(order, order', m)
    {
      var index, last := positions[m], |order| - 1;
      order' := order[index := order[last]][last := order[index]];
      positions' := positions[order'[index] := index];
      positions' := positions' - {order'[last]};
      order' := order'[..last];
    }

    static ghost predicate Involves(m: Match, tokenIds: seq<TokenId>) {
      exists t :: t in tokenIds && t in m.inputs
    }

    method RemoveMatchesInvolvingTokens(tokenIds: seq<TokenId>)
      requires Valid()
      modifies this
      ensures Valid() && NextIsCurrent()
      ensures forall m :: m in allMatches <==> m in old(allMatches) && forall t :: t in tokenIds ==> t !in m.inputs
    {
      var matchesToDelete := MatchesInvolving(tokenIds);
      DeleteMatches(matchesToDelete);
      ChooseNextMatch();
    }

    // Looking a token up leaves an empty entry behind if it had none.
    method MatchesInvolving(tokenIds: seq<TokenId>) returns (matches: set<Match>)
      requires Valid()
      modifies this`tokensToMatches
      ensures Valid()
      ensures forall m :: m in matches <==> m in allMatches && Involves(m, tokenIds)
    {
      hide BucketsAreValid, InBuckets;
      matches := {};
      for k := 0 to |tokenIds|
        invariant TokensAreIndexed()
        invariant forall m :: m in matches <==> m in allMatches && Involves(m, tokenIds[..k])
      {
        var token := tokenIds[k];
        assert tokenIds[..k + 1] == tokenIds[..k] + [token];
        assert forall t :: t in tokenIds[..k + 1] <==> t in tokenIds[..k] || t == token;
        if token !in tokensToMatches {
          label Before:
          tokensToMatches := tokensToMatches[token := {}];
          assert forall t :: MatchesOf(t) == old@Before(MatchesOf(t));
        }
        matches := matches + tokensToMatches[token];
        assert forall m :: m in MatchesOf(token) <==> m in allMatches && token in m.inputs;
      }
      assert tokenIds[..|tokenIds|] == tokenIds;
    }

    method DeleteMatches(matches: set<Match>)
      requires Valid() && matches <= allMatches
      modifies this`buckets, this`tokensToMatches, this`allMatches
      ensures Valid() && allMatches == old(allMatches) - matches
    {
      var remaining := matches;
      while remaining != {}
        invariant Valid() && remaining <= matches <= old(allMatches)
        invariant allMatches == old(allMatches) - (matches - remaining)
      {
        var m := Pick(remaining);
        DeleteMatch(m);
        remaining := remaining - {m};
      }
    }

    predicate MatchAny() {
      orderingSpec != [] && orderingSpec[|orderingSpec| - 1].function_ == Any
    }

    // Any match of the first bucket will do; its first one if the order is said to be arbitrary.
    method ChooseNextMatch()
      requires Valid()
      modifies this`nextMatch
      ensures NextIsCurrent()
      ensures buckets == [] ==> nextMatch == old(nextMatch)
      ensures buckets != [] && orderingSpec != [] && orderingSpec[|orderingSpec| - 1].function_ == Any ==>
                buckets[0].order != [] && nextMatch == Some(buckets[0].order[0])
    {
      if buckets == [] {
        return;
      }
      assert BucketIsValid(orderingSpec, buckets[0]);
      var candidates := buckets[0].order;
      if MatchAny() {
        nextMatch := Some(candidates[0]);
      } else {
        var random :| 0 <= random < |candidates|;
        nextMatch := Some(candidates[random]);
      }
    }
  }
}
