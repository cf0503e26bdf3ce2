/** Separation by the past causal cones of two expressions, which mention no records, and why it is the engine's. */
module ExpressionsSeparation {
  import opened Types
  import opened CausalHistory
  import opened DestroyerChoices

  datatype Vertex = EventVertex(event: EventId) | ExpressionVertex(token: TokenId)

  // Events point to the expressions they create, expressions to the events that consume them.
  ghost predicate Edge(h: History, u: Vertex, v: Vertex) {
    match (u, v)
    case (EventVertex(e), ExpressionVertex(t)) => IsToken(h, t) && h.creators[t] == e
    case (ExpressionVertex(t), EventVertex(e)) => 0 <= e < |h.events| && Consumes(h, e, t)
    case _ => false
  }

  ghost predicate IsPath(h: History, p: seq<Vertex>, u: Vertex, v: Vertex) {
    && p != [] && p[0] == u && p[|p| - 1] == v
    && forall i :: 0 <= i < |p| - 1 ==> Edge(h, p[i], p[i + 1])
  }

  // u lies in the past causal cone of v.
  ghost predicate InCone(h: History, u: Vertex, v: Vertex) {
    exists p :: IsPath(h, p, u, v)
  }

  ghost predicate InBothCones(h: History, a: TokenId, b: TokenId, u: Vertex) {
    InCone(h, u, ExpressionVertex(a)) && InCone(h, u, ExpressionVertex(b))
  }

  // A vertex of the intersection that no edge of the intersection leaves.
  ghost predicate OnBoundary(h: History, a: TokenId, b: TokenId, u: Vertex) {
    InBothCones(h, a, b, u) && forall v :: InBothCones(h, a, b, v) ==> !Edge(h, u, v)
  }

  ghost function ConeSeparation(h: History, a: TokenId, b: TokenId): SeparationType {
    if a == b then Identical
    else if OnBoundary(h, a, b, ExpressionVertex(a)) || OnBoundary(h, a, b, ExpressionVertex(b)) then Timelike
    else if exists t :: OnBoundary(h, a, b, ExpressionVertex(t)) then Branchlike
    else Spacelike
  }

  // ----- cones and pasts

  ghost predicate InPast(h: History, u: Vertex, a: TokenId)
    requires WellFormed(h) && IsToken(h, a)
  {
    PastIsEventSet(h, h.creators[a]);
    match u
    case EventVertex(e) => e in TokenPast(h, a)
    case ExpressionVertex(t) => t == a || Destroys(h, TokenPast(h, a), t)
  }

  lemma {:induction false} PathsLeadToPast(h: History, p: seq<Vertex>, u: Vertex, a: TokenId)
    requires WellFormed(h) && IsToken(h, a) && IsPath(h, p, u, ExpressionVertex(a))
    ensures InPast(h, u, a)
    decreases |p|
  {
    PastIsClosed(h, h.creators[a]);
    if |p| > 1 {
      assert Edge(h, p[0], p[1]);
      var rest := p[1..];
      forall i | 0 <= i < |rest| - 1
        ensures Edge(h, rest[i], rest[i + 1])
      {
        assert Edge(h, p[i + 1], p[i + 2]);
      }
      PathsLeadToPast(h, rest, p[1], a);
    }
  }

  lemma JoinCones(h: History, u: Vertex, v: Vertex, w: Vertex)
    requires InCone(h, u, v) && Edge(h, v, w)
    ensures InCone(h, u, w)
  {
    var p :| IsPath(h, p, u, v);
    assert IsPath(h, p + [w], u, w);
  }

  lemma {:induction false} PastIsInCone(h: History, e: EventId, f: EventId)
    requires WellFormed(h) && 0 <= e < |h.events| && f in Past(h, e)
    ensures InCone(h, EventVertex(f), EventVertex(e))
    decreases e
  {
    if f == e {
      assert IsPath(h, [EventVertex(e)], EventVertex(e), EventVertex(e));
    } else {
      var t := PastMember(h, e, f);
      PastIsInCone(h, h.creators[t], f);
      JoinCones(h, EventVertex(f), EventVertex(h.creators[t]), ExpressionVertex(t));
      JoinCones(h, EventVertex(f), ExpressionVertex(t), EventVertex(e));
    }
  }

  lemma ExpressionReachesConsumers(h: History, t: TokenId, f: EventId, v: Vertex)
    requires 0 <= f < |h.events| && Consumes(h, f, t) && InCone(h, EventVertex(f), v)
    ensures InCone(h, ExpressionVertex(t), v)
  {
    var p :| IsPath(h, p, EventVertex(f), v);
    var q := [ExpressionVertex(t)] + p;
    forall i | 0 <= i < |q| - 1
      ensures Edge(h, q[i], q[i + 1])
    {
      if i > 0 {
        assert Edge(h, p[i - 1], p[i]);
      }
    }
    assert IsPath(h, q, ExpressionVertex(t), v);
  }

  lemma ConeIsPast(h: History, u: Vertex, a: TokenId)
    requires WellFormed(h) && IsToken(h, a)
    ensures InCone(h, u, ExpressionVertex(a)) <==> InPast(h, u, a)
  {
    if InCone(h, u, ExpressionVertex(a)) {
      var p :| IsPath(h, p, u, ExpressionVertex(a));
      PathsLeadToPast(h, p, u, a);
    }
    if InPast(h, u, a) {
      PastIsEventSet(h, h.creators[a]);
      var creator := EventVertex(h.creators[a]);
      match u {
        case EventVertex(e) =>
          PastIsInCone(h, h.creators[a], e);
          JoinCones(h, u, creator, ExpressionVertex(a));
        case ExpressionVertex(t) =>
          if t == a {
            assert IsPath(h, [u], u, ExpressionVertex(a));
          } else {
            var f :| f in TokenPast(h, a) && Consumes(h, f, t);
            PastIsInCone(h, h.creators[a], f);
            ExpressionReachesConsumers(h, t, f, creator);
            JoinCones(h, u, creator, ExpressionVertex(a));
          }
      }
    }
  }

  // ----- the boundary, in terms of records

  // Only a common consumer can keep an expression of the intersection off the boundary.
  lemma BoundaryExpressions(h: History, a: TokenId, b: TokenId, t: TokenId)
    requires WellFormed(h) && IsToken(h, a) && IsToken(h, b)
    ensures OnBoundary(h, a, b, ExpressionVertex(t)) <==>
            && InPast(h, ExpressionVertex(t), a) && InPast(h, ExpressionVertex(t), b)
            && forall f :: f in TokenPast(h, a) * TokenPast(h, b) ==> 0 <= f < |h.events| && !Consumes(h, f, t)
  {
    PastIsEventSet(h, h.creators[a]);
    PastIsEventSet(h, h.creators[b]);
    forall v
      ensures InBothCones(h, a, b, v) <==> InPast(h, v, a) && InPast(h, v, b)
    {
      ConeIsPast(h, v, a);
      ConeIsPast(h, v, b);
    }
    if OnBoundary(h, a, b, ExpressionVertex(t)) {
      forall f | f in TokenPast(h, a) * TokenPast(h, b)
        ensures 0 <= f < |h.events| && !Consumes(h, f, t)
      {
        assert InBothCones(h, a, b, EventVertex(f));
      }
    }
  }

  // The two records of a and b are all it takes to evaluate the cone definition.
  lemma ConesAgreeWithRecords(h: History, a: TokenId, b: TokenId, first: Choices, second: Choices)
    requires WellFormed(h) && IsToken(h, a) && IsToken(h, b)
    requires Records(h, h.creators[a], first) && Records(h, h.creators[b], second)
    ensures ConeSeparation(h, a, b) == Separation(first, second, a, b)
  {
    PastDoesNotConsume(h, a);
    PastDoesNotConsume(h, b);
    forall t
      ensures OnBoundary(h, a, b, ExpressionVertex(t)) <==>
              && (t == a || t in first) && (t == b || t in second)
              && !(t in first && t in second && first[t] == second[t])
    {
      BoundaryExpressions(h, a, b, t);
      ConsumedInPast(h, a, t, first);
      ConsumedInPast(h, b, t, second);
    }
    if a != b && b !in first && a !in second {
      if t :| OnBoundary(h, a, b, ExpressionVertex(t)) {
        assert t in first && t in second && first[t] != second[t];
      }
      if t :| t in first && t in second && first[t] != second[t] {
        assert OnBoundary(h, a, b, ExpressionVertex(t));
      }
    }
  }

  lemma ConsumedInPast(h: History, a: TokenId, t: TokenId, m: Choices)
    requires WellFormed(h) && IsToken(h, a) && Records(h, h.creators[a], m)
    ensures InPast(h, ExpressionVertex(t), a) <==> t == a || t in m
    ensures EventSet(h, TokenPast(h, a))
    ensures forall f :: f in TokenPast(h, a) && Consumes(h, f, t) ==> t in m && m[t] == f
    ensures t in m ==> m[t] in TokenPast(h, a) && Consumes(h, m[t], t)
  {
    PastIsEventSet(h, h.creators[a]);
  }

  // No token is consumed twice on the way to t.
  ghost predicate HasConsistentPast(h: History, t: TokenId)
    requires WellFormed(h) && IsToken(h, t)
  {
    PastIsEventSet(h, h.creators[t]);
    ConflictFree(h, TokenPast(h, t))
  }

  // While no conflict is noticed, the engine's verdict about two tokens that are possible on their own is that
  // of the cone definition, whatever else happened in the evolution.
  lemma SeparationsAgreePairwise(h: History, a: TokenId, b: TokenId)
    requires WellFormed(h) && IsToken(h, a) && IsToken(h, b) && Recorded(h, |h.events|).Some?
    requires HasConsistentPast(h, a) && HasConsistentPast(h, b)
    ensures TrackedSeparation(h, true, a, b) == ConeSeparation(h, a, b)
    ensures a != b ==> (TrackedSeparation(h, true, a, b) == Spacelike <==> Compatible(h, a, b))
  {
    var choices := Recorded(h, |h.events|).value;
    var first, second := choices[h.creators[a]], choices[h.creators[b]];
    RecordedNamesConsumers(h, |h.events|);
    RecordsIffConflictFree(h, h.creators[a], first);
    RecordsIffConflictFree(h, h.creators[b], second);
    ConesAgreeWithRecords(h, a, b, first, second);
    if a != b {
      SpacelikeIffCompatible(h, a, b, first, second);
    }
  }

  // Tokens are timelike if one was consumed on the way to the other, ...
  lemma TimelikeIff(h: History, a: TokenId, b: TokenId)
    requires WellFormed(h) && IsToken(h, a) && IsToken(h, b) && Recorded(h, |h.events|).Some?
    ensures EventSet(h, TokenPast(h, a)) && EventSet(h, TokenPast(h, b))
    ensures TrackedSeparation(h, true, a, b) == Identical <==> a == b
    ensures TrackedSeparation(h, true, a, b) == Timelike <==>
            a != b && (Destroys(h, TokenPast(h, a), b) || Destroys(h, TokenPast(h, b), a))
  {
    PastIsEventSet(h, h.creators[a]);
    PastIsEventSet(h, h.creators[b]);
    RecordedNamesConsumers(h, |h.events|);
  }

  // ... and branchlike if on the ways to them different events consumed a token of the past, and they are not that.
  lemma BranchlikeIff(h: History, a: TokenId, b: TokenId)
    requires WellFormed(h) && IsToken(h, a) && IsToken(h, b) && Recorded(h, |h.events|).Some?
    requires HasConsistentPast(h, a) && HasConsistentPast(h, b)
    ensures TrackedSeparation(h, true, a, b) == Branchlike <==>
            && a != b && TrackedSeparation(h, true, a, b) != Timelike
            && exists e, f, t :: AreRivals(h, a, b, e, f, t)
  {
    var choices := Recorded(h, |h.events|).value;
    var first, second := choices[h.creators[a]], choices[h.creators[b]];
    RecordedNamesConsumers(h, |h.events|);
    RecordsIffConflictFree(h, h.creators[a], first);
    RecordsIffConflictFree(h, h.creators[b], second);
    if t :| t in first && t in second && first[t] != second[t] {
      assert AreRivals(h, a, b, first[t], second[t], t);
    }
    if e, f, t :| AreRivals(h, a, b, e, f, t) {
      assert first[t] == e && second[t] == f;
    }
  }

  // On the way to a the token t was consumed by e, on the way to b by another event.
  ghost predicate AreRivals(h: History, a: TokenId, b: TokenId, e: EventId, f: EventId, t: TokenId)
    requires WellFormed(h) && IsToken(h, a) && IsToken(h, b)
  {
    PastIsEventSet(h, h.creators[a]);
    PastIsEventSet(h, h.creators[b]);
    e in TokenPast(h, a) && f in TokenPast(h, b) && e != f && Consumes(h, e, t) && Consumes(h, f, t)
  }

  // In a spacelike evolution this is so for all tokens, and distinct ones are spacelike exactly if one history
  // has both of them.
  lemma SeparationsAgree(h: History, a: TokenId, b: TokenId)
    requires WellFormed(h) && SpacelikeHistory(h) && IsToken(h, a) && IsToken(h, b)
    ensures TrackedSeparation(h, true, a, b) == ConeSeparation(h, a, b)
    ensures a != b ==> (TrackedSeparation(h, true, a, b) == Spacelike <==> exists s :: HistoryWithBoth(h, s, a, b))
  {
    SpacelikeIsRecorded(h, |h.events|);
    PastIsConflictFree(h, h.creators[a]);
    PastIsConflictFree(h, h.creators[b]);
    SeparationsAgreePairwise(h, a, b);
    CompatibleIffHistoryExists(h, a, b);
  }

  // In an arbitrary evolution the cones do not tell whether the two tokens themselves are possible.
  // That is all they miss.
  lemma CompatibleIffConesAndPasts(h: History, a: TokenId, b: TokenId)
    requires WellFormed(h) && IsToken(h, a) && IsToken(h, b) && a != b
    ensures Compatible(h, a, b) <==>
            ConeSeparation(h, a, b) == Spacelike && HasConsistentPast(h, a) && HasConsistentPast(h, b)
  {
    PastIsEventSet(h, h.creators[a]);
    PastIsEventSet(h, h.creators[b]);
    if HasConsistentPast(h, a) && HasConsistentPast(h, b) {
      var first := RecordExists(h, h.creators[a]);
      var second := RecordExists(h, h.creators[b]);
      ConesAgreeWithRecords(h, a, b, first, second);
      SpacelikeIffCompatible(h, a, b, first, second);
    }
  }

  // While no token is consumed twice, any two live tokens are spacelike, so that a rule that asks
  // for spacelike inputs applies exactly where the same rule without that condition does.
  lemma LiveTokensAreSpacelike(h: History, a: TokenId, b: TokenId)
    requires WellFormed(h) && SingleHistory(h) && Live(h, a) && Live(h, b) && a != b
    ensures TrackedSeparation(h, true, a, b) == Spacelike
  {
    SingleHistoryIsSpacelike(h);
    LiveTokensAreCompatible(h, a, b);
    CompatibleIffHistoryExists(h, a, b);
    SeparationsAgree(h, a, b);
  }
}
