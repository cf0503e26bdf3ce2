/**
  The causal structure of a multihistory, independently of how the engine tracks it: which events
  an event depends on, which sets of events form one consistent history, and which tokens can be
  present together.
 */
module CausalHistory {
  import opened Types
  import opened Collections

  // Events in creation order, and for every token the event that created it.
  datatype History = History(events: seq<Event>, creators: seq<EventId>)

  ghost predicate IsToken(h: History, t: TokenId) {
    0 <= t < |h.creators|
  }

  ghost predicate Consumes(h: History, e: EventId, t: TokenId)
    requires 0 <= e < |h.events|
  {
    t in h.events[e].inputs
  }

  // Every token is created by some event before it is consumed, and an event lists exactly the
  // tokens it created.
  ghost predicate WellFormed(h: History) {
    && (forall t :: IsToken(h, t) ==> 0 <= h.creators[t] < |h.events|)
    && (forall e, t :: 0 <= e < |h.events| && Consumes(h, e, t) ==> IsToken(h, t) && h.creators[t] < e)
    && (forall e, t :: 0 <= e < |h.events| ==>
          (t in h.events[e].outputs <==> IsToken(h, t) && h.creators[t] == e))
  }

  // The events that have to happen for event e to happen, e included.
  ghost function Past(h: History, e: EventId): set<EventId>
    requires WellFormed(h) && 0 <= e < |h.events|
    decreases e
  {
    {e} + set i, f | 0 <= i < |h.events[e].inputs| && f in InputPast(h, e, i) :: f
  }

  ghost function InputPast(h: History, e: EventId, i: nat): set<EventId>
    requires WellFormed(h) && 0 <= e < |h.events| && i < |h.events[e].inputs|
    decreases e, 0
  {
    assert Consumes(h, e, h.events[e].inputs[i]);
    Past(h, h.creators[h.events[e].inputs[i]])
  }

  // The events that have to happen for token t to exist.
  ghost function TokenPast(h: History, t: TokenId): set<EventId>
    requires WellFormed(h) && IsToken(h, t)
  {
    Past(h, h.creators[t])
  }

  ghost predicate EventSet(h: History, s: set<EventId>) {
    forall e :: e in s ==> 0 <= e < |h.events|
  }

  ghost predicate CausallyClosed(h: History, s: set<EventId>)
    requires WellFormed(h)
  {
    && EventSet(h, s)
    && forall e, t :: e in s && Consumes(h, e, t) ==> h.creators[t] in s
  }

  // No token is consumed by two events of the set.
  ghost predicate ConflictFree(h: History, s: set<EventId>)
    requires EventSet(h, s)
  {
    forall e, f, t :: e in s && f in s && Consumes(h, e, t) && Consumes(h, f, t) ==> e == f
  }

  ghost predicate Destroys(h: History, s: set<EventId>, t: TokenId)
    requires EventSet(h, s)
  {
    exists e :: e in s && Consumes(h, e, t)
  }

  // A set of events that can all happen in one single-way evolution, after which a and b are both there.
  ghost predicate HistoryWithBoth(h: History, s: set<EventId>, a: TokenId, b: TokenId)
    requires WellFormed(h) && IsToken(h, a) && IsToken(h, b)
  {
    && CausallyClosed(h, s)
    && ConflictFree(h, s)
    && h.creators[a] in s && h.creators[b] in s
    && !Destroys(h, s, a) && !Destroys(h, s, b)
  }

  // The same, about the smallest candidate for such a set.
  ghost predicate Compatible(h: History, a: TokenId, b: TokenId)
    requires WellFormed(h) && IsToken(h, a) && IsToken(h, b)
  {
    PastIsEventSet(h, h.creators[a]);
    PastIsEventSet(h, h.creators[b]);
    var s := TokenPast(h, a) + TokenPast(h, b);
    ConflictFree(h, s) && !Destroys(h, s, a) && !Destroys(h, s, b)
  }

  // Every event consumed distinct tokens that can be present together.
  ghost predicate SpacelikeEvent(h: History, e: EventId)
    requires WellFormed(h) && 0 <= e < |h.events|
  {
    forall i, j :: 0 <= i < j < |h.events[e].inputs| ==>
      var a, b := h.events[e].inputs[i], h.events[e].inputs[j];
      assert Consumes(h, e, a) && Consumes(h, e, b);
      a != b && Compatible(h, a, b)
  }

  ghost predicate SpacelikeHistory(h: History)
    requires WellFormed(h)
  {
    forall e :: 0 <= e < |h.events| ==> SpacelikeEvent(h, e)
  }

  // ----- the past of an event

  lemma {:induction false} PastIsEventSet(h: History, e: EventId)
    requires WellFormed(h) && 0 <= e < |h.events|
    ensures EventSet(h, Past(h, e))
    ensures forall f :: f in Past(h, e) ==> f <= e
    decreases e
  {
    forall f | f in Past(h, e) && f != e
      ensures 0 <= f < e
    {
      var t := PastMember(h, e, f);
      PastIsEventSet(h, h.creators[t]);
    }
  }

  lemma PastContainsInputPast(h: History, e: EventId, t: TokenId)
    requires WellFormed(h) && 0 <= e < |h.events| && Consumes(h, e, t)
    ensures TokenPast(h, t) <= Past(h, e)
  {
    var i :| 0 <= i < |h.events[e].inputs| && h.events[e].inputs[i] == t;
    assert InputPast(h, e, i) == TokenPast(h, t);
  }

  lemma PastMember(h: History, e: EventId, f: EventId) returns (t: TokenId)
    requires WellFormed(h) && 0 <= e < |h.events|
    requires f in Past(h, e) && f != e
    ensures Consumes(h, e, t) && f in TokenPast(h, t)
  {
    var i :| 0 <= i < |h.events[e].inputs| && f in InputPast(h, e, i);
    t := h.events[e].inputs[i];
  }

  // The past of an event is the least causally closed set that contains it.
  lemma {:induction false} PastIsClosed(h: History, e: EventId)
    requires WellFormed(h) && 0 <= e < |h.events|
    ensures CausallyClosed(h, Past(h, e)) && e in Past(h, e)
    decreases e
  {
    PastIsEventSet(h, e);
    forall f, t | f in Past(h, e) && Consumes(h, f, t)
      ensures h.creators[t] in Past(h, e)
    {
      if f == e {
        PastContainsInputPast(h, e, t);
      } else {
        var u := PastMember(h, e, f);
        PastIsClosed(h, h.creators[u]);
        PastContainsInputPast(h, e, u);
      }
    }
  }

  lemma {:induction false} PastIsLeast(h: History, s: set<EventId>, e: EventId)
    requires WellFormed(h) && CausallyClosed(h, s) && e in s
    ensures Past(h, e) <= s
    decreases e
  {
    forall f | f in Past(h, e)
      ensures f in s
    {
      if f != e {
        var t := PastMember(h, e, f);
        PastIsLeast(h, s, h.creators[t]);
      }
    }
  }

  // Two tokens can be present together iff their joint past is a history that leaves both in place.
  lemma CompatibleIffHistoryExists(h: History, a: TokenId, b: TokenId)
    requires WellFormed(h) && IsToken(h, a) && IsToken(h, b)
    ensures Compatible(h, a, b) <==> exists s :: HistoryWithBoth(h, s, a, b)
  {
    PastIsClosed(h, h.creators[a]);
    PastIsClosed(h, h.creators[b]);
    var least := TokenPast(h, a) + TokenPast(h, b);
    if Compatible(h, a, b) {
      assert HistoryWithBoth(h, least, a, b);
    }
    if s :| HistoryWithBoth(h, s, a, b) {
      PastIsLeast(h, s, h.creators[a]);
      PastIsLeast(h, s, h.creators[b]);
      assert least <= s;
    }
  }

  lemma CompatibleIsSymmetric(h: History, a: TokenId, b: TokenId)
    requires WellFormed(h) && IsToken(h, a) && IsToken(h, b)
    requires Compatible(h, a, b)
    ensures Compatible(h, b, a)
  {
    PastIsEventSet(h, h.creators[a]);
    PastIsEventSet(h, h.creators[b]);
    assert TokenPast(h, a) + TokenPast(h, b) == TokenPast(h, b) + TokenPast(h, a);
  }

  // A token is not consumed by anything it depends on.
  lemma PastDoesNotConsume(h: History, t: TokenId)
    requires WellFormed(h) && IsToken(h, t)
    ensures EventSet(h, TokenPast(h, t)) && !Destroys(h, TokenPast(h, t), t)
  {
    PastIsEventSet(h, h.creators[t]);
  }

  // ----- histories whose events all consumed compatible tokens

  // The past of an event of such an evolution never consumes a token twice.
  lemma {:induction false} PastIsConflictFree(h: History, e: EventId)
    requires WellFormed(h) && 0 <= e < |h.events|
    requires forall f :: 0 <= f <= e ==> SpacelikeEvent(h, f)
    ensures EventSet(h, Past(h, e)) && ConflictFree(h, Past(h, e))
    decreases e
  {
    PastIsEventSet(h, e);
    forall f, g, t | f in Past(h, e) && g in Past(h, e) && Consumes(h, f, t) && Consumes(h, g, t)
      ensures f == g
    {
      if f != e && g != e {
        var a := PastMember(h, e, f);
        var b := PastMember(h, e, g);
        JointPastIsConflictFree(h, e, a, b);
      } else if f != e {
        ConsumedOnlyByLast(h, e, f, t);
      } else if g != e {
        ConsumedOnlyByLast(h, e, g, t);
      }
    }
  }

  lemma {:induction false} JointPastIsConflictFree(h: History, e: EventId, a: TokenId, b: TokenId)
    requires WellFormed(h) && 0 <= e < |h.events|
    requires forall f :: 0 <= f <= e ==> SpacelikeEvent(h, f)
    requires Consumes(h, e, a) && Consumes(h, e, b)
    ensures EventSet(h, TokenPast(h, a) + TokenPast(h, b))
    ensures ConflictFree(h, TokenPast(h, a) + TokenPast(h, b))
    decreases e, 0
  {
    PastIsEventSet(h, h.creators[a]);
    PastIsEventSet(h, h.creators[b]);
    if a == b {
      PastIsConflictFree(h, h.creators[a]);
      assert TokenPast(h, a) + TokenPast(h, b) == TokenPast(h, a);
    } else {
      InputsAreCompatible(h, e, a, b);
    }
  }

  lemma InputsAreCompatible(h: History, e: EventId, a: TokenId, b: TokenId)
    requires WellFormed(h) && 0 <= e < |h.events| && SpacelikeEvent(h, e)
    requires Consumes(h, e, a) && Consumes(h, e, b) && a != b
    ensures Compatible(h, a, b)
  {
    var i :| 0 <= i < |h.events[e].inputs| && h.events[e].inputs[i] == a;
    var j :| 0 <= j < |h.events[e].inputs| && h.events[e].inputs[j] == b;
    if j < i {
      CompatibleIsSymmetric(h, b, a);
    }
  }

  lemma ConsumedOnlyByLast(h: History, e: EventId, f: EventId, t: TokenId)
    requires WellFormed(h) && 0 <= e < |h.events| && SpacelikeEvent(h, e)
    requires f in Past(h, e) && f != e && Consumes(h, e, t)
    ensures 0 <= f < |h.events| && !Consumes(h, f, t)
  {
    PastIsEventSet(h, e);
    var a := PastMember(h, e, f);
    if a == t {
      PastDoesNotConsume(h, t);
    } else {
      InputsAreCompatible(h, e, a, t);
      PastIsEventSet(h, h.creators[a]);
      PastIsEventSet(h, h.creators[t]);
      assert f in TokenPast(h, a) + TokenPast(h, t);
    }
  }

  // ----- adding events changes nothing about the past

  ghost predicate Extends(h: History, h': History) {
    h.events <= h'.events && h.creators <= h'.creators
  }

  lemma {:induction false} PastIsStable(h: History, h': History, e: EventId)
    requires WellFormed(h) && WellFormed(h') && Extends(h, h') && 0 <= e < |h.events|
    ensures Past(h', e) == Past(h, e)
    decreases e
  {
    forall i | 0 <= i < |h.events[e].inputs|
      ensures InputPast(h', e, i) == InputPast(h, e, i)
    {
      assert Consumes(h, e, h.events[e].inputs[i]);
      PastIsStable(h, h', h.creators[h.events[e].inputs[i]]);
    }
  }

  lemma CompatibleIsStable(h: History, h': History, a: TokenId, b: TokenId)
    requires WellFormed(h) && WellFormed(h') && Extends(h, h') && IsToken(h, a) && IsToken(h, b)
    ensures Compatible(h', a, b) <==> Compatible(h, a, b)
  {
    PastIsStable(h, h', h.creators[a]);
    PastIsStable(h, h', h.creators[b]);
    PastIsEventSet(h, h.creators[a]);
    PastIsEventSet(h, h.creators[b]);
    var s := TokenPast(h, a) + TokenPast(h, b);
    assert forall e, t :: e in s ==> (Consumes(h', e, t) <==> Consumes(h, e, t));
  }

  // ----- evolutions with a single history

  // No token was consumed twice, by different events or by one event.
  ghost predicate SingleHistory(h: History) {
    && (forall e, f, t :: 0 <= e < |h.events| && 0 <= f < |h.events| && Consumes(h, e, t) && Consumes(h, f, t) ==>
          e == f)
    && (forall e :: 0 <= e < |h.events| ==> Distinct(h.events[e].inputs))
  }

  ghost predicate Live(h: History, t: TokenId) {
    IsToken(h, t) && forall e :: 0 <= e < |h.events| ==> !Consumes(h, e, t)
  }

  // Live tokens of a single history can always be present together: all of its events are one history.
  lemma LiveTokensAreCompatible(h: History, a: TokenId, b: TokenId)
    requires WellFormed(h) && SingleHistory(h) && Live(h, a) && Live(h, b)
    ensures Compatible(h, a, b)
  {
    var all := Below(|h.events|);
    assert HistoryWithBoth(h, all, a, b);
    CompatibleIffHistoryExists(h, a, b);
  }

  lemma SingleHistoryIsSpacelike(h: History)
    requires WellFormed(h) && SingleHistory(h)
    ensures SpacelikeHistory(h)
  {
    forall e | 0 <= e < |h.events|
      ensures SpacelikeEvent(h, e)
    {
      forall i, j | 0 <= i < j < |h.events[e].inputs|
        ensures var a, b := h.events[e].inputs[i], h.events[e].inputs[j];
                assert Consumes(h, e, a) && Consumes(h, e, b);
                a != b && Compatible(h, a, b)
      {
        var a, b := h.events[e].inputs[i], h.events[e].inputs[j];
        assert Consumes(h, e, a) && Consumes(h, e, b);
        assert HistoryWithBoth(h, Below(e), a, b);
        CompatibleIffHistoryExists(h, a, b);
      }
    }
  }
}
