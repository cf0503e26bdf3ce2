/**
  Several workers collecting matches at the same time: each takes the rules in its stride and adds what
  it finds one match at a time, whenever it gets hold of the lock.
 */
module Workers {
  import opened Types
  import opened Collections
  import opened Matching
  import opened MatchOrder
  import opened MatchQueue
  import opened InsertionOrder

  // How much each worker has added so far, and what was added by all of them.
  datatype State = State(added: seq<nat>, collected: set<Match>)

  // It is worker w of n that finds the match: it belongs to every n-th rule, starting with rule w.
  ghost predicate IsWorkOf(m: Match, space: MatchSpace, tokens: seq<TokenId>, w: int, n: int) {
    n > 0 && space.Allows(m) && Touches(m.inputs, tokens) && m.rule % n == w
  }

  // What each worker finds, in some order.
  ghost predicate IsDivided(work: seq<seq<Match>>, space: MatchSpace, tokens: seq<TokenId>) {
    && work != []
    && forall w, m :: 0 <= w < |work| ==> (m in work[w] <==> IsWorkOf(m, space, tokens, w, |work|))
  }

  // Each worker's search adds exactly its work, so that searches from an empty store divide it.
  lemma {:induction false} SearchesDivideTheWork(space: MatchSpace, tokens: seq<TokenId>, found: seq<set<Match>>, n: nat)
    returns (work: seq<seq<Match>>)
    requires n <= |found|
    requires forall w, m :: 0 <= w < |found| && m in found[w] ==> IsWorkOf(m, space, tokens, w, |found|)
    requires forall w, m :: 0 <= w < |found| && IsWorkOf(m, space, tokens, w, |found|) ==> m in found[w]
    ensures |work| == n
    ensures forall w, m :: 0 <= w < n ==> (m in work[w] <==> IsWorkOf(m, space, tokens, w, |found|))
    ensures 0 < n == |found| ==> IsDivided(work, space, tokens)
  {
    work := [];
    if n > 0 {
      work := SearchesDivideTheWork(space, tokens, found, n - 1);
      var list := Listed(found[n - 1]);
      work := work + [list];
    }
  }

  lemma {:induction false} Listed(found: set<Match>) returns (list: seq<Match>)
    ensures forall m :: m in list <==> m in found
  {
    list := [];
    if found != {} {
      var m := Member(found);
      list := Listed(found - {m});
      list := list + [m];
    }
  }

  ghost predicate IsStarted(work: seq<seq<Match>>, before: set<Match>, s: State) {
    |s.added| == |work| && (forall w :: 0 <= w < |work| ==> s.added[w] == 0) && s.collected == before
  }

  ghost predicate IsStep(work: seq<seq<Match>>, s: State, w: int, s': State) {
    && 0 <= w < |work| == |s.added| && s.added[w] < |work[w]|
    && s' == State(s.added[w := s.added[w] + 1], s.collected + {work[w][s.added[w]]})
  }

  // The schedule says whose turn it is.
  ghost predicate IsRun(work: seq<seq<Match>>, before: set<Match>, states: seq<State>, schedule: seq<int>) {
    && |states| == |schedule| + 1 && IsStarted(work, before, states[0])
    && forall k :: 0 <= k < |schedule| ==> IsStep(work, states[k], schedule[k], states[k + 1])
  }

  ghost predicate IsFinished(work: seq<seq<Match>>, s: State) {
    |s.added| == |work| && forall w :: 0 <= w < |work| ==> s.added[w] == |work[w]|
  }

  // What was collected is what the workers added.
  ghost predicate CollectedIsAdded(work: seq<seq<Match>>, before: set<Match>, s: State) {
    && |s.added| == |work| && (forall w :: 0 <= w < |work| ==> s.added[w] <= |work[w]|)
    && forall m :: m in s.collected <==> m in before || IsAdded(work, s, m)
  }

  ghost predicate IsAdded(work: seq<seq<Match>>, s: State, m: Match)
    requires |s.added| == |work| && forall w :: 0 <= w < |work| ==> s.added[w] <= |work[w]|
  {
    exists w :: 0 <= w < |work| && m in work[w][..s.added[w]]
  }

  lemma StepKeepsCollected(work: seq<seq<Match>>, before: set<Match>, s: State, w: int, s': State)
    requires CollectedIsAdded(work, before, s) && IsStep(work, s, w, s')
    ensures CollectedIsAdded(work, before, s')
  {
    var n := s.added[w];
    assert work[w][..n + 1] == work[w][..n] + [work[w][n]];
    forall m
      ensures IsAdded(work, s', m) <==> IsAdded(work, s, m) || m == work[w][n]
    {
      if IsAdded(work, s, m) {
        var v :| 0 <= v < |work| && m in work[v][..s.added[v]];
        assert m in work[v][..s'.added[v]];
      }
      assert m == work[w][n] ==> m in work[w][..s'.added[w]];
    }
  }

  lemma {:induction false} RunKeepsCollected(
    work: seq<seq<Match>>, before: set<Match>, states: seq<State>, schedule: seq<int>, k: nat)
    requires IsRun(work, before, states, schedule) && k <= |schedule|
    ensures CollectedIsAdded(work, before, states[k])
  {
    if k > 0 {
      RunKeepsCollected(work, before, states, schedule, k - 1);
      StepKeepsCollected(work, before, states[k - 1], schedule[k - 1], states[k]);
    }
  }

  // Whatever the number of workers and their schedule, in the end the same matches were collected.
  lemma EveryScheduleCollectsAll(
    space: MatchSpace, tokens: seq<TokenId>, before: set<Match>, work: seq<seq<Match>>, states: seq<State>,
    schedule: seq<int>)
    requires IsDivided(work, space, tokens) && IsRun(work, before, states, schedule)
    requires IsFinished(work, states[|schedule|])
    ensures forall m :: m in states[|schedule|].collected <==>
              m in before || (space.Allows(m) && Touches(m.inputs, tokens))
  {
    var last := states[|schedule|];
    RunKeepsCollected(work, before, states, schedule, |schedule|);
    forall m
      ensures IsAdded(work, last, m) <==> space.Allows(m) && Touches(m.inputs, tokens)
    {
      assert forall w :: 0 <= w < |work| ==> work[w][..last.added[w]] == work[w];
      if space.Allows(m) && Touches(m.inputs, tokens) {
        var w := m.rule % |work|;
        assert IsWorkOf(m, space, tokens, w, |work|);
        assert m in work[w][..last.added[w]];
      }
    }
  }

  // Any number of workers with any schedule leaves the queue with the buckets that a search leaves which
  // found the same matches in any other way, be it with other workers or one after another.
  lemma EveryScheduleLeavesTheSameBuckets(
    spec: OrderingSpec, sort: RuleSort, space: MatchSpace, deduplicates: bool, tokens: seq<TokenId>,
    before: set<Match>, work: seq<seq<Match>>, states: seq<State>, schedule: seq<int>, found: set<Match>,
    buckets: seq<Bucket>, after: seq<Bucket>, after': seq<Bucket>)
    requires IsDivided(work, space, tokens) && IsRun(work, before, states, schedule)
    requires IsFinished(work, states[|schedule|])
    requires AreCollected(spec, sort, space, deduplicates, states[|schedule|].collected, buckets, after)
    requires forall m :: m in found <==> m in before || (space.Allows(m) && Touches(m.inputs, tokens))
    requires AreCollected(spec, sort, space, deduplicates, found, buckets, after')
    ensures after == after'
  {
    EveryScheduleCollectsAll(space, tokens, before, work, states, schedule);
    assert found == states[|schedule|].collected;
    CollectedBucketsAreUnique(spec, sort, space, deduplicates, found, buckets, after, after');
  }
}
