/**
  An evolution without its incomplete generations: fewer events and tokens, with new numbers.

  It is an evolution itself, with the causal structure of what is kept, and it stays the same while the
  whole one goes on.
 */
module TruncatedEvolution {
  import opened Types
  import opened CausalHistory
  import opened Matching
  import opened TokenEventGraph
  import opened Evolution
  import opened CompleteGenerations
  import opened Runs

  // ----- positions that are kept

  // The positions of generations up to c, in order.
  ghost function Kept(generations: seq<int>, c: int): seq<int> {
    if generations == [] then []
    else
      var last := |generations| - 1;
      Kept(generations[..last], c) + if generations[last] <= c then [last] else []
  }

  // How many positions before i are kept: the new number of position i.
  ghost function NewNumber(generations: seq<int>, c: int, i: nat): nat
    requires i <= |generations|
  {
    |Kept(generations[..i], c)|
  }

  lemma {:induction false} KeptOfPrefix(generations: seq<int>, c: int, i: nat)
    requires i <= |generations|
    ensures NewNumber(generations, c, i) <= |Kept(generations, c)|
    ensures Kept(generations, c)[..NewNumber(generations, c, i)] == Kept(generations[..i], c)
    ensures i < |generations| && generations[i] <= c ==>
              && NewNumber(generations, c, i) < |Kept(generations, c)|
              && Kept(generations, c)[NewNumber(generations, c, i)] == i
  {
    if i == |generations| {
      assert generations[..i] == generations;
    } else {
      var last := |generations| - 1;
      var rest := generations[..last];
      assert rest[..i] == generations[..i];
      KeptOfPrefix(rest, c, i);
      if i == last {
        assert rest[..i] == rest;
      }
    }
  }

  lemma {:induction false} KeptAt(generations: seq<int>, c: int, k: nat)
    requires k < |Kept(generations, c)|
    ensures var i := Kept(generations, c)[k];
            0 <= i < |generations| && generations[i] <= c && NewNumber(generations, c, i) == k
  {
    var last := |generations| - 1;
    var rest := generations[..last];
    if k < |Kept(rest, c)| {
      KeptAt(rest, c, k);
      assert rest[..Kept(rest, c)[k]] == generations[..Kept(rest, c)[k]];
    }
  }

  // Numbers are given in order, and no two positions that are kept get the same one.
  lemma NumbersAscend(generations: seq<int>, c: int, i: nat, j: nat)
    requires i <= j <= |generations|
    ensures NewNumber(generations, c, i) <= NewNumber(generations, c, j)
    ensures i < j && generations[i] <= c ==> NewNumber(generations, c, i) < NewNumber(generations, c, j)
  {
    assert generations[..j][..i] == generations[..i];
    KeptOfPrefix(generations[..j], c, i);
  }

  // What follows beyond generation c changes nothing.
  lemma {:induction false} KeptOfExtended(generations: seq<int>, more: seq<int>, c: int)
    requires generations <= more && forall i :: |generations| <= i < |more| ==> more[i] > c
    ensures Kept(more, c) == Kept(generations, c)
  {
    if |generations| == |more| {
      assert generations == more;
    } else {
      KeptOfExtended(generations, more[..|more| - 1], c);
    }
  }

  // If nothing lies beyond generation c, everything is kept where it is.
  lemma {:induction false} AllAreKept(generations: seq<int>, c: int)
    requires forall i :: 0 <= i < |generations| ==> generations[i] <= c
    ensures |Kept(generations, c)| == |generations|
    ensures forall i :: 0 <= i < |generations| ==> Kept(generations, c)[i] == i && NewNumber(generations, c, i) == i
  {
    if generations != [] {
      var last := |generations| - 1;
      AllAreKept(generations[..last], c);
      forall i | 0 <= i < |generations|
        ensures NewNumber(generations, c, i) == i
      {
        if i < last {
          assert generations[..last][..i] == generations[..i];
          assert NewNumber(generations[..last], c, i) == i;
        }
      }
    }
  }

  // ----- the truncated evolution

  ghost function EventGenerations(h: History): seq<int> {
    seq(|h.events|, e requires 0 <= e < |h.events| => h.events[e].generation)
  }

  ghost function TokenGenerations(h: History): seq<int>
    requires WellFormed(h)
  {
    seq(|h.creators|, t requires 0 <= t < |h.creators| => TokenGeneration(h, t))
  }

  ghost function KeptEvents(h: History, c: int): (r: seq<EventId>)
    ensures forall k :: 0 <= k < |r| ==> 0 <= r[k] < |h.events| && h.events[r[k]].generation <= c
  {
    forall k | 0 <= k < |Kept(EventGenerations(h), c)|
      ensures var e := Kept(EventGenerations(h), c)[k]; 0 <= e < |h.events| && h.events[e].generation <= c
    {
      KeptAt(EventGenerations(h), c, k);
    }
    Kept(EventGenerations(h), c)
  }

  ghost function KeptTokens(h: History, c: int): (r: seq<TokenId>)
    requires WellFormed(h)
    ensures forall k :: 0 <= k < |r| ==> TokenIsKept(h, c, r[k])
  {
    forall k | 0 <= k < |Kept(TokenGenerations(h), c)|
      ensures TokenIsKept(h, c, Kept(TokenGenerations(h), c)[k])
    {
      KeptAt(TokenGenerations(h), c, k);
    }
    Kept(TokenGenerations(h), c)
  }

  ghost predicate TokenIsKept(h: History, c: int, t: TokenId)
    requires WellFormed(h)
  {
    IsToken(h, t) && TokenGeneration(h, t) <= c
  }

  ghost predicate EventIsKept(h: History, c: int, e: EventId) {
    0 <= e < |h.events| && h.events[e].generation <= c
  }

  ghost function NewEventId(h: History, c: int, e: EventId): EventId
    requires 0 <= e < |h.events|
  {
    NewNumber(EventGenerations(h), c, e)
  }

  // Tokens that are not kept would not be renumbered.
  ghost function NewTokenId(h: History, c: int, t: TokenId): TokenId
    requires WellFormed(h)
  {
    if TokenIsKept(h, c, t) then NewNumber(TokenGenerations(h), c, t) else t
  }

  ghost function Renumbered(h: History, c: int, tokens: seq<TokenId>): (r: seq<TokenId>)
    requires WellFormed(h)
    ensures |r| == |tokens| && forall i :: 0 <= i < |r| ==> r[i] == NewTokenId(h, c, tokens[i])
  {
    seq(|tokens|, i requires 0 <= i < |tokens| => NewTokenId(h, c, tokens[i]))
  }

  ghost function RenumberedEvent(h: History, c: int, event: Event): Event
    requires WellFormed(h)
  {
    Event(event.rule, Renumbered(h, c, event.inputs), Renumbered(h, c, event.outputs), event.generation)
  }

  ghost function Truncated(h: History, c: int): (r: History)
    requires WellFormed(h)
    ensures |r.events| == |KeptEvents(h, c)| && |r.creators| == |KeptTokens(h, c)|
  {
    var events, tokens := KeptEvents(h, c), KeptTokens(h, c);
    History(
      seq(|events|, k requires 0 <= k < |events| => RenumberedEvent(h, c, h.events[events[k]])),
      seq(|tokens|, k requires 0 <= k < |tokens| => NewEventId(h, c, h.creators[tokens[k]])))
  }

  ghost function TruncatedContents(h: History, c: int, contents: Contents): Contents
    requires WellFormed(h) && forall t :: IsToken(h, t) ==> t in contents
  {
    map k | 0 <= k < |KeptTokens(h, c)| :: contents[KeptTokens(h, c)[k]]
  }

  // ----- old and new numbers

  lemma NewEvent(h: History, c: int, e: EventId)
    requires WellFormed(h) && EventIsKept(h, c, e)
    ensures var e' := NewEventId(h, c, e);
            && 0 <= e' < |KeptEvents(h, c)| && KeptEvents(h, c)[e'] == e
            && Truncated(h, c).events[e'] == RenumberedEvent(h, c, h.events[e])
  {
    KeptOfPrefix(EventGenerations(h), c, e);
  }

  lemma OldEvent(h: History, c: int, e': EventId)
    requires WellFormed(h) && 0 <= e' < |KeptEvents(h, c)|
    ensures EventIsKept(h, c, KeptEvents(h, c)[e']) && NewEventId(h, c, KeptEvents(h, c)[e']) == e'
  {
    KeptAt(EventGenerations(h), c, e');
  }

  lemma NewToken(h: History, c: int, t: TokenId)
    requires WellFormed(h) && TokenIsKept(h, c, t)
    ensures var t', h' := NewTokenId(h, c, t), Truncated(h, c);
            IsToken(h', t') && KeptTokens(h, c)[t'] == t && h'.creators[t'] == NewEventId(h, c, h.creators[t])
  {
    KeptOfPrefix(TokenGenerations(h), c, t);
  }

  lemma OldToken(h: History, c: int, t': TokenId)
    requires WellFormed(h) && IsToken(Truncated(h, c), t')
    ensures TokenIsKept(h, c, KeptTokens(h, c)[t']) && NewTokenId(h, c, KeptTokens(h, c)[t']) == t'
  {
    KeptAt(TokenGenerations(h), c, t');
  }

  // A kept event consumes and creates kept tokens only.
  lemma TruncationIsClosed(h: History, c: int, e: EventId, t: TokenId)
    requires WellFormed(h) && Layered(h) && EventIsKept(h, c, e)
    requires t in h.events[e].inputs || t in h.events[e].outputs
    ensures TokenIsKept(h, c, t) && EventIsKept(h, c, h.creators[t])
  {
    var inputs := h.events[e].inputs;
    if t in inputs {
      assert AreTokens(h, inputs);
      GenerationsAreNatural(h, |h.events|);
      NextGenerationIsNextLayer(h, inputs);
      var i :| 0 <= i < |inputs| && inputs[i] == t;
      assert TokenGeneration(h, inputs[i]) < h.events[e].generation;
    }
  }

  // The tokens that are kept are those that some kept event created.
  lemma KeptIffCreatedByKept(h: History, c: int, t: TokenId)
    requires WellFormed(h)
    ensures TokenIsKept(h, c, t) <==> exists e :: EventIsKept(h, c, e) && t in h.events[e].outputs
  {
    if TokenIsKept(h, c, t) {
      assert EventIsKept(h, c, h.creators[t]) && t in h.events[h.creators[t]].outputs;
    }
  }

  // Renumbering keeps the order of what is kept, and gives no number twice.
  lemma RenumberingIsMonotone(h: History, c: int, t: TokenId, u: TokenId)
    requires WellFormed(h) && TokenIsKept(h, c, t) && TokenIsKept(h, c, u)
    ensures NewTokenId(h, c, t) < NewTokenId(h, c, u) <==> t < u
    ensures NewTokenId(h, c, t) == NewTokenId(h, c, u) <==> t == u
  {
    if t < u {
      NumbersAscend(TokenGenerations(h), c, t, u);
    } else if u < t {
      NumbersAscend(TokenGenerations(h), c, u, t);
    }
  }

  lemma EventRenumberingIsMonotone(h: History, c: int, e: EventId, f: EventId)
    requires EventIsKept(h, c, e) && EventIsKept(h, c, f)
    ensures NewEventId(h, c, e) < NewEventId(h, c, f) <==> e < f
    ensures NewEventId(h, c, e) == NewEventId(h, c, f) <==> e == f
  {
    if e < f {
      NumbersAscend(EventGenerations(h), c, e, f);
    } else if f < e {
      NumbersAscend(EventGenerations(h), c, f, e);
    }
  }

  // The new events consume and create what the old ones did.
  lemma SameInputs(h: History, c: int, e: EventId, t: TokenId)
    requires WellFormed(h) && Layered(h) && EventIsKept(h, c, e) && TokenIsKept(h, c, t)
    ensures var e', t', h' := NewEventId(h, c, e), NewTokenId(h, c, t), Truncated(h, c);
            && 0 <= e' < |h'.events|
            && (t' in h'.events[e'].inputs <==> t in h.events[e].inputs)
            && (t' in h'.events[e'].outputs <==> t in h.events[e].outputs)
  {
    NewEvent(h, c, e);
    SameMembers(h, c, e, h.events[e].inputs, t);
    SameMembers(h, c, e, h.events[e].outputs, t);
  }

  lemma SameMembers(h: History, c: int, e: EventId, tokens: seq<TokenId>, t: TokenId)
    requires WellFormed(h) && Layered(h) && EventIsKept(h, c, e) && TokenIsKept(h, c, t)
    requires tokens == h.events[e].inputs || tokens == h.events[e].outputs
    ensures NewTokenId(h, c, t) in Renumbered(h, c, tokens) <==> t in tokens
  {
    var r := Renumbered(h, c, tokens);
    if t in tokens {
      var i :| 0 <= i < |tokens| && tokens[i] == t;
      assert r[i] == NewTokenId(h, c, t);
    }
    if NewTokenId(h, c, t) in r {
      var i :| 0 <= i < |r| && r[i] == NewTokenId(h, c, t);
      TruncationIsClosed(h, c, e, tokens[i]);
      RenumberingIsMonotone(h, c, t, tokens[i]);
    }
  }

  // Everything a new event refers to is the new number of a token that the old event refers to.
  lemma OldReference(h: History, c: int, e': EventId, t': TokenId) returns (t: TokenId)
    requires WellFormed(h) && Layered(h) && 0 <= e' < |KeptEvents(h, c)|
    requires t' in Truncated(h, c).events[e'].inputs || t' in Truncated(h, c).events[e'].outputs
    ensures TokenIsKept(h, c, t) && NewTokenId(h, c, t) == t' && IsToken(Truncated(h, c), t')
  {
    var e := KeptEvents(h, c)[e'];
    var event := h.events[e];
    if t' in Truncated(h, c).events[e'].inputs {
      var i :| 0 <= i < |event.inputs| && Renumbered(h, c, event.inputs)[i] == t';
      t := event.inputs[i];
    } else {
      var i :| 0 <= i < |event.outputs| && Renumbered(h, c, event.outputs)[i] == t';
      t := event.outputs[i];
    }
    TruncationIsClosed(h, c, e, t);
    NewToken(h, c, t);
  }

  // ----- it is an evolution

  lemma TruncatedIsWellFormed(h: History, c: int)
    requires WellFormed(h) && Layered(h)
    ensures WellFormed(Truncated(h, c))
  {
    var h' := Truncated(h, c);
    forall t' | IsToken(h', t')
      ensures 0 <= h'.creators[t'] < |h'.events|
    {
      OldToken(h, c, t');
      NewEvent(h, c, h.creators[KeptTokens(h, c)[t']]);
    }
    forall e', t' | 0 <= e' < |h'.events| && Consumes(h', e', t')
      ensures IsToken(h', t') && h'.creators[t'] < e'
    {
      var t := OldReference(h, c, e', t');
      ReferencesAreRight(h, c, e', t);
    }
    forall e', t' | 0 <= e' < |h'.events|
      ensures t' in h'.events[e'].outputs <==> IsToken(h', t') && h'.creators[t'] == e'
    {
      if t' in h'.events[e'].outputs {
        var t := OldReference(h, c, e', t');
        ReferencesAreRight(h, c, e', t);
      }
      if IsToken(h', t') {
        OldToken(h, c, t');
        ReferencesAreRight(h, c, e', KeptTokens(h, c)[t']);
      }
    }
  }

  lemma ReferencesAreRight(h: History, c: int, e': EventId, t: TokenId)
    requires WellFormed(h) && Layered(h) && 0 <= e' < |KeptEvents(h, c)| && TokenIsKept(h, c, t)
    ensures var h', t' := Truncated(h, c), NewTokenId(h, c, t);
            && IsToken(h', t')
            && (t' in h'.events[e'].inputs ==> h'.creators[t'] < e')
            && (t' in h'.events[e'].outputs <==> h'.creators[t'] == e')
  {
    OldEvent(h, c, e');
    var e := KeptEvents(h, c)[e'];
    NewToken(h, c, t);
    SameInputs(h, c, e, t);
    assert t in h.events[e].inputs ==> Consumes(h, e, t);
    EventRenumberingIsMonotone(h, c, h.creators[t], e);
  }

  lemma SameGeneration(h: History, c: int, t: TokenId)
    requires WellFormed(h) && WellFormed(Truncated(h, c)) && TokenIsKept(h, c, t)
    ensures var h', t' := Truncated(h, c), NewTokenId(h, c, t);
            IsToken(h', t') && TokenGeneration(h', t') == TokenGeneration(h, t)
  {
    NewToken(h, c, t);
    NewEvent(h, c, h.creators[t]);
  }

  lemma {:induction false} SameNextGeneration(h: History, c: int, tokens: seq<TokenId>)
    requires WellFormed(h) && WellFormed(Truncated(h, c))
    requires forall i :: 0 <= i < |tokens| ==> TokenIsKept(h, c, tokens[i])
    ensures AreTokens(h, tokens) && AreTokens(Truncated(h, c), Renumbered(h, c, tokens))
    ensures NextGeneration(Truncated(h, c), Renumbered(h, c, tokens)) == NextGeneration(h, tokens)
  {
    hide WellFormed, Truncated, NewTokenId;
    forall i | 0 <= i < |tokens|
      ensures IsToken(Truncated(h, c), Renumbered(h, c, tokens)[i])
    {
      SameGeneration(h, c, tokens[i]);
    }
    if tokens != [] {
      var last := |tokens| - 1;
      SameNextGeneration(h, c, tokens[..last]);
      SameGeneration(h, c, tokens[last]);
      assert Renumbered(h, c, tokens)[..last] == Renumbered(h, c, tokens[..last]);
    }
  }

  lemma TruncatedIsLayered(h: History, c: int)
    requires WellFormed(h) && Layered(h)
    ensures WellFormed(Truncated(h, c)) && Layered(Truncated(h, c))
  {
    TruncatedIsWellFormed(h, c);
    var h' := Truncated(h, c);
    forall e' | 0 <= e' < |h'.events|
      ensures AreTokens(h', h'.events[e'].inputs)
      ensures h'.events[e'].generation == NextGeneration(h', h'.events[e'].inputs)
    {
      var e := KeptEvents(h, c)[e'];
      forall i | 0 <= i < |h.events[e].inputs|
        ensures TokenIsKept(h, c, h.events[e].inputs[i])
      {
        TruncationIsClosed(h, c, e, h.events[e].inputs[i]);
      }
      SameNextGeneration(h, c, h.events[e].inputs);
    }
  }

  // If every generation is complete, truncation changes nothing. In particular, doing it twice does not.
  lemma TruncationOfWhole(h: History, c: int)
    requires WellFormed(h) && forall e :: 0 <= e < |h.events| ==> h.events[e].generation <= c
    ensures Truncated(h, c) == h
  {
    var h' := Truncated(h, c);
    AllAreKept(EventGenerations(h), c);
    AllAreKept(TokenGenerations(h), c);
    forall e | 0 <= e < |h.events|
      ensures h'.events[e] == h.events[e]
    {
      assert Renumbered(h, c, h.events[e].inputs) == h.events[e].inputs;
      assert Renumbered(h, c, h.events[e].outputs) == h.events[e].outputs;
    }
    assert h'.events == h.events && h'.creators == h.creators;
  }

  lemma TruncationIsIdempotent(h: History, c: int)
    requires WellFormed(h) && Layered(h)
    ensures WellFormed(Truncated(h, c)) && Truncated(Truncated(h, c), c) == Truncated(h, c)
  {
    TruncatedIsWellFormed(h, c);
    TruncationOfWhole(Truncated(h, c), c);
  }

  // ----- it has the causal structure of what is kept

  // The new number of an event is in the past of another new number exactly if the events were so related.
  lemma {:induction false} SamePast(h: History, c: int, e: EventId, f: EventId)
    requires WellFormed(h) && Layered(h) && WellFormed(Truncated(h, c)) && EventIsKept(h, c, e) && EventIsKept(h, c, f)
    ensures 0 <= NewEventId(h, c, e) < |Truncated(h, c).events|
    ensures NewEventId(h, c, f) in Past(Truncated(h, c), NewEventId(h, c, e)) <==> f in Past(h, e)
    decreases e
  {
    var h', e', f' := Truncated(h, c), NewEventId(h, c, e), NewEventId(h, c, f);
    NewEvent(h, c, e);
    EventRenumberingIsMonotone(h, c, e, f);
    if f in Past(h, e) && f != e {
      var t := PastMember(h, e, f);
      KeptReference(h, c, e, t);
      SamePast(h, c, h.creators[t], f);
      PastContainsInputPast(h', e', NewTokenId(h, c, t));
    }
    if f' in Past(h', e') && f' != e' {
      var t' := PastMember(h', e', f');
      var t := OldReference(h, c, e', t');
      KeptReference(h, c, e, t);
      SamePast(h, c, h.creators[t], f);
      PastContainsInputPast(h, e, t);
    }
  }

  lemma KeptReference(h: History, c: int, e: EventId, t: TokenId)
    requires WellFormed(h) && Layered(h) && WellFormed(Truncated(h, c)) && EventIsKept(h, c, e)
    requires TokenIsKept(h, c, t) || Consumes(h, e, t)
    ensures var h', e', t' := Truncated(h, c), NewEventId(h, c, e), NewTokenId(h, c, t);
            && TokenIsKept(h, c, t) && EventIsKept(h, c, h.creators[t])
            && 0 <= e' < |h'.events| && IsToken(h', t') && h'.creators[t'] == NewEventId(h, c, h.creators[t])
            && (Consumes(h', e', t') <==> Consumes(h, e, t)) && (Consumes(h, e, t) ==> h.creators[t] < e)
  {
    if Consumes(h, e, t) {
      TruncationIsClosed(h, c, e, t);
    }
    NewToken(h, c, t);
    SameInputs(h, c, e, t);
  }

  // The past of a kept event is kept.
  lemma {:induction false} PastIsKept(h: History, c: int, e: EventId, f: EventId)
    requires WellFormed(h) && Layered(h) && EventIsKept(h, c, e) && f in Past(h, e)
    ensures EventIsKept(h, c, f)
    decreases e
  {
    if f != e {
      var t := PastMember(h, e, f);
      TruncationIsClosed(h, c, e, t);
      PastIsKept(h, c, h.creators[t], f);
    }
  }

  // Which tokens can be present together does not depend on what is deleted.
  lemma TruncationKeepsCompatible(h: History, c: int, a: TokenId, b: TokenId)
    requires WellFormed(h) && Layered(h) && TokenIsKept(h, c, a) && TokenIsKept(h, c, b)
    ensures var h', a', b' := Truncated(h, c), NewTokenId(h, c, a), NewTokenId(h, c, b);
            && WellFormed(h') && IsToken(h', a') && IsToken(h', b')
            && (Compatible(h', a', b') <==> Compatible(h, a, b))
  {
    TruncatedIsWellFormed(h, c);
    NewToken(h, c, a);
    NewToken(h, c, b);
    CompatibleIffUncontested(h, a, b);
    CompatibleIffUncontested(Truncated(h, c), NewTokenId(h, c, a), NewTokenId(h, c, b));
    if NothingIsContested(h, a, b) {
      UncontestedAfterTruncation(h, c, a, b);
    }
    if NothingIsContested(Truncated(h, c), NewTokenId(h, c, a), NewTokenId(h, c, b)) {
      UncontestedBeforeTruncation(h, c, a, b);
    }
  }

  ghost predicate InPastOfEither(h: History, a: TokenId, b: TokenId, e: EventId)
    requires WellFormed(h) && IsToken(h, a) && IsToken(h, b)
  {
    e in TokenPast(h, a) || e in TokenPast(h, b)
  }

  // The events that have to happen for both tokens consume neither, and nothing twice.
  ghost predicate NothingIsContested(h: History, a: TokenId, b: TokenId)
    requires WellFormed(h) && IsToken(h, a) && IsToken(h, b)
  {
    forall e, f, t :: BothConsume(h, a, b, e, f, t) ==> e == f && t != a && t != b
  }

  ghost predicate BothConsume(h: History, a: TokenId, b: TokenId, e: EventId, f: EventId, t: TokenId)
    requires WellFormed(h) && IsToken(h, a) && IsToken(h, b)
  {
    && 0 <= e < |h.events| && InPastOfEither(h, a, b, e) && Consumes(h, e, t)
    && 0 <= f < |h.events| && InPastOfEither(h, a, b, f) && Consumes(h, f, t)
  }

  lemma CompatibleIffUncontested(h: History, a: TokenId, b: TokenId)
    requires WellFormed(h) && IsToken(h, a) && IsToken(h, b)
    ensures Compatible(h, a, b) <==> NothingIsContested(h, a, b)
  {
    PastIsEventSet(h, h.creators[a]);
    PastIsEventSet(h, h.creators[b]);
    hide WellFormed, Past;
    var s := TokenPast(h, a) + TokenPast(h, b);
    if NothingIsContested(h, a, b) {
      forall e, f, t | e in s && f in s && Consumes(h, e, t) && Consumes(h, f, t)
        ensures e == f && t != a && t != b
      {
        assert BothConsume(h, a, b, e, f, t);
      }
    }
  }

  lemma SamePastOfEither(h: History, c: int, a: TokenId, b: TokenId, e: EventId)
    requires WellFormed(h) && Layered(h) && TokenIsKept(h, c, a) && TokenIsKept(h, c, b) && EventIsKept(h, c, e)
    requires WellFormed(Truncated(h, c))
    ensures var h', a', b' := Truncated(h, c), NewTokenId(h, c, a), NewTokenId(h, c, b);
            && IsToken(h', a') && IsToken(h', b')
            && (InPastOfEither(h', a', b', NewEventId(h, c, e)) <==> InPastOfEither(h, a, b, e))
  {
    NewToken(h, c, a);
    NewToken(h, c, b);
    SamePast(h, c, h.creators[a], e);
    SamePast(h, c, h.creators[b], e);
  }

  lemma UncontestedAfterTruncation(h: History, c: int, a: TokenId, b: TokenId)
    requires WellFormed(h) && Layered(h) && TokenIsKept(h, c, a) && TokenIsKept(h, c, b)
    requires WellFormed(Truncated(h, c)) && NothingIsContested(h, a, b)
    requires IsToken(Truncated(h, c), NewTokenId(h, c, a)) && IsToken(Truncated(h, c), NewTokenId(h, c, b))
    ensures NothingIsContested(Truncated(h, c), NewTokenId(h, c, a), NewTokenId(h, c, b))
  {
    var h', a', b' := Truncated(h, c), NewTokenId(h, c, a), NewTokenId(h, c, b);
    hide WellFormed, Layered, Past, InPastOfEither, NewTokenId, KeptEvents;
    forall e', f', t' | BothConsume(h', a', b', e', f', t')
      ensures e' == f' && t' != a' && t' != b'
    {
      var t := OldConsumer(h, c, a, b, e', t');
      var u := OldConsumer(h, c, a, b, f', t');
      RenumberingIsMonotone(h, c, t, u);
      RenumberingIsMonotone(h, c, t, a);
      RenumberingIsMonotone(h, c, t, b);
      OldEvent(h, c, e');
      OldEvent(h, c, f');
      assert BothConsume(h, a, b, KeptEvents(h, c)[e'], KeptEvents(h, c)[f'], t);
    }
  }

  // The old event and token behind a consumption in the past of either token.
  lemma OldConsumer(h: History, c: int, a: TokenId, b: TokenId, e': EventId, t': TokenId) returns (t: TokenId)
    requires WellFormed(h) && Layered(h) && TokenIsKept(h, c, a) && TokenIsKept(h, c, b)
    requires WellFormed(Truncated(h, c)) && 0 <= e' < |KeptEvents(h, c)| && Consumes(Truncated(h, c), e', t')
    requires IsToken(Truncated(h, c), NewTokenId(h, c, a)) && IsToken(Truncated(h, c), NewTokenId(h, c, b))
    requires InPastOfEither(Truncated(h, c), NewTokenId(h, c, a), NewTokenId(h, c, b), e')
    ensures TokenIsKept(h, c, t) && NewTokenId(h, c, t) == t'
    ensures InPastOfEither(h, a, b, KeptEvents(h, c)[e']) && Consumes(h, KeptEvents(h, c)[e'], t)
  {
    OldEvent(h, c, e');
    t := OldReference(h, c, e', t');
    KeptReference(h, c, KeptEvents(h, c)[e'], t);
    SamePastOfEither(h, c, a, b, KeptEvents(h, c)[e']);
  }

  lemma UncontestedBeforeTruncation(h: History, c: int, a: TokenId, b: TokenId)
    requires WellFormed(h) && Layered(h) && TokenIsKept(h, c, a) && TokenIsKept(h, c, b)
    requires WellFormed(Truncated(h, c))
    requires IsToken(Truncated(h, c), NewTokenId(h, c, a)) && IsToken(Truncated(h, c), NewTokenId(h, c, b))
    requires NothingIsContested(Truncated(h, c), NewTokenId(h, c, a), NewTokenId(h, c, b))
    ensures NothingIsContested(h, a, b)
  {
    var h', a', b' := Truncated(h, c), NewTokenId(h, c, a), NewTokenId(h, c, b);
    hide WellFormed, Layered, Past, InPastOfEither, NewTokenId, KeptEvents;
    forall e, f, t | BothConsume(h, a, b, e, f, t)
      ensures e == f && t != a && t != b
    {
      NewConsumer(h, c, a, b, e, t);
      NewConsumer(h, c, a, b, f, t);
      EventRenumberingIsMonotone(h, c, e, f);
      assert BothConsume(h', a', b', NewEventId(h, c, e), NewEventId(h, c, f), NewTokenId(h, c, t));
    }
  }

  lemma NewConsumer(h: History, c: int, a: TokenId, b: TokenId, e: EventId, t: TokenId)
    requires WellFormed(h) && Layered(h) && TokenIsKept(h, c, a) && TokenIsKept(h, c, b)
    requires WellFormed(Truncated(h, c)) && 0 <= e < |h.events|
    requires InPastOfEither(h, a, b, e) && Consumes(h, e, t)
    ensures EventIsKept(h, c, e) && TokenIsKept(h, c, t)
    ensures var h', a', b', e' := Truncated(h, c), NewTokenId(h, c, a), NewTokenId(h, c, b), NewEventId(h, c, e);
            && IsToken(h', a') && IsToken(h', b') && 0 <= e' < |h'.events|
            && InPastOfEither(h', a', b', e') && Consumes(h', e', NewTokenId(h, c, t))
  {
    if e in TokenPast(h, a) {
      PastIsKept(h, c, h.creators[a], e);
    } else {
      PastIsKept(h, c, h.creators[b], e);
    }
    KeptReference(h, c, e, t);
    SamePastOfEither(h, c, a, b, e);
  }

  // The truncated evolution has all the properties of an evolution that never went beyond generation c.
  ghost function TruncatedState(s: Snapshot, c: int): Snapshot
    requires TokensAreRight(s)
  {
    s.(history := Truncated(s.history, c), contents := TruncatedContents(s.history, c, s.contents), maxGeneration := c,
       indexed := {}, unindexed := {}, queue := {}, leftover := {})
  }

  lemma TruncatedIsEvolution(s: Snapshot, c: int)
    requires TokensAreRight(s) && NoEventTwice(s)
    ensures TokensAreRight(TruncatedState(s, c)) && NoEventTwice(TruncatedState(s, c))
    ensures forall t :: TokenIsKept(s.history, c, t) ==>
              && NewTokenId(s.history, c, t) in TruncatedState(s, c).contents
              && TruncatedState(s, c).contents[NewTokenId(s.history, c, t)] == s.contents[t]
  {
    var h, s' := s.history, TruncatedState(s, c);
    TruncatedIsLayered(h, c);
    ContentsAreKept(s, c);
    TruncatedIsNatural(h, c);
    hide WellFormed, Layered, Truncated, TokenIsKept, TruncatedContents;
    forall e', f' | 0 <= e' < f' < |s'.history.events|
      ensures !(s'.history.events[e'].rule == s'.history.events[f'].rule &&
                s'.history.events[e'].inputs == s'.history.events[f'].inputs)
    {
      DifferentEvents(s, c, e', f');
    }
  }

  lemma TruncatedIsNatural(h: History, c: int)
    requires WellFormed(h) && Layered(h)
    ensures forall e :: 0 <= e < |Truncated(h, c).events| ==> 0 <= Truncated(h, c).events[e].generation <= c
  {
    GenerationsAreNatural(h, |h.events|);
  }

  lemma ContentsAreKept(s: Snapshot, c: int)
    requires TokensAreRight(s)
    ensures var s' := TruncatedState(s, c);
            && (forall t :: t in s'.contents <==> IsToken(s'.history, t)) && GroundContents(s'.contents)
    ensures forall t :: TokenIsKept(s.history, c, t) ==>
              && NewTokenId(s.history, c, t) in TruncatedState(s, c).contents
              && TruncatedState(s, c).contents[NewTokenId(s.history, c, t)] == s.contents[t]
  {
    var h, s' := s.history, TruncatedState(s, c);
    hide Layered;
    forall t | TokenIsKept(h, c, t)
      ensures NewTokenId(h, c, t) in s'.contents && s'.contents[NewTokenId(h, c, t)] == s.contents[t]
    {
      NewToken(h, c, t);
    }
  }

  lemma DifferentEvents(s: Snapshot, c: int, e': EventId, f': EventId)
    requires TokensAreRight(s) && NoEventTwice(s) && 0 <= e' < f' < |KeptEvents(s.history, c)|
    ensures var events := Truncated(s.history, c).events;
            !(events[e'].rule == events[f'].rule && events[e'].inputs == events[f'].inputs)
  {
    var h := s.history;
    var e, f := KeptEvents(h, c)[e'], KeptEvents(h, c)[f'];
    OldEvent(h, c, e');
    OldEvent(h, c, f');
    EventRenumberingIsMonotone(h, c, e, f);
    var inputs, inputs' := h.events[e].inputs, h.events[f].inputs;
    if Renumbered(h, c, inputs) == Renumbered(h, c, inputs') {
      forall i | 0 <= i < |inputs|
        ensures inputs[i] == inputs'[i]
      {
        assert Renumbered(h, c, inputs)[i] == Renumbered(h, c, inputs')[i];
        TruncationIsClosed(h, c, e, inputs[i]);
        TruncationIsClosed(h, c, f, inputs'[i]);
        RenumberingIsMonotone(h, c, inputs[i], inputs'[i]);
      }
      assert inputs == inputs';
    }
  }

  // ----- it does not change while the evolution goes on

  // Later events beyond generation c change nothing about what is kept and how it is numbered.
  lemma TruncationIsStable(h: History, h': History, c: int)
    requires WellFormed(h) && WellFormed(h') && Layered(h) && Extends(h, h')
    requires forall e :: |h.events| <= e < |h'.events| ==> h'.events[e].generation > c
    ensures Truncated(h', c) == Truncated(h, c) && KeptTokens(h', c) == KeptTokens(h, c)
  {
    SameAreKept(h, h', c);
    hide WellFormed, Layered, Extends, KeptTokens, KeptEvents;
    var r, r' := Truncated(h, c), Truncated(h', c);
    forall k | 0 <= k < |r.events|
      ensures r'.events[k] == r.events[k]
    {
      SameEvent(h, h', c, KeptEvents(h, c)[k]);
    }
    forall k | 0 <= k < |r.creators|
      ensures r'.creators[k] == r.creators[k]
    {
      SameEventNumber(h, h', c, h.creators[KeptTokens(h, c)[k]]);
    }
    assert r'.events == r.events && r'.creators == r.creators;
  }

  lemma LateTokensAreNotKept(h: History, h': History, c: int, t: TokenId)
    requires WellFormed(h) && WellFormed(h') && Extends(h, h')
    requires forall e :: |h.events| <= e < |h'.events| ==> h'.events[e].generation > c
    ensures TokenIsKept(h', c, t) <==> TokenIsKept(h, c, t)
  {
    if IsToken(h', t) {
      var e := h'.creators[t];
      assert t in h'.events[e].outputs;
      assert e < |h.events| ==> h'.events[e] == h.events[e];
    }
  }

  lemma SameAreKept(h: History, h': History, c: int)
    requires WellFormed(h) && WellFormed(h') && Extends(h, h')
    requires forall e :: |h.events| <= e < |h'.events| ==> h'.events[e].generation > c
    ensures KeptEvents(h', c) == KeptEvents(h, c) && KeptTokens(h', c) == KeptTokens(h, c)
    ensures forall e :: EventIsKept(h, c, e) ==> h'.events[e] == h.events[e]
    ensures forall t :: TokenIsKept(h, c, t) ==> h'.creators[t] == h.creators[t]
  {
    TokenGenerationsGrow(h, h');
    forall t | |h.creators| <= t < |h'.creators|
      ensures TokenGenerations(h')[t] > c
    {
      LateTokensAreNotKept(h, h', c, t);
    }
    KeptOfExtended(EventGenerations(h), EventGenerations(h'), c);
    KeptOfExtended(TokenGenerations(h), TokenGenerations(h'), c);
  }

  lemma SameEvent(h: History, h': History, c: int, e: EventId)
    requires WellFormed(h) && WellFormed(h') && Layered(h) && Extends(h, h') && EventIsKept(h, c, e)
    ensures RenumberedEvent(h', c, h'.events[e]) == RenumberedEvent(h, c, h.events[e])
  {
    SameTokenNumbers(h, h', c, e, h.events[e].inputs);
    SameTokenNumbers(h, h', c, e, h.events[e].outputs);
  }

  lemma SameTokenNumbers(h: History, h': History, c: int, e: EventId, tokens: seq<TokenId>)
    requires WellFormed(h) && WellFormed(h') && Layered(h) && Extends(h, h') && EventIsKept(h, c, e)
    requires tokens == h.events[e].inputs || tokens == h.events[e].outputs
    ensures Renumbered(h', c, tokens) == Renumbered(h, c, tokens)
  {
    hide WellFormed, Layered, NewTokenId, EventIsKept;
    forall i | 0 <= i < |tokens|
      ensures NewTokenId(h', c, tokens[i]) == NewTokenId(h, c, tokens[i])
    {
      TruncationIsClosed(h, c, e, tokens[i]);
      SameTokenNumber(h, h', c, tokens[i]);
    }
  }

  lemma SameTokenNumber(h: History, h': History, c: int, t: TokenId)
    requires WellFormed(h) && WellFormed(h') && Extends(h, h') && TokenIsKept(h, c, t)
    ensures NewTokenId(h', c, t) == NewTokenId(h, c, t)
  {
    TokenGenerationsGrow(h, h');
    hide WellFormed;
    assert TokenGenerations(h')[..t] == TokenGenerations(h)[..t];
  }

  lemma TokenGenerationsGrow(h: History, h': History)
    requires WellFormed(h) && WellFormed(h') && Extends(h, h')
    ensures TokenGenerations(h) <= TokenGenerations(h')
  {
    forall t | 0 <= t < |h.creators|
      ensures TokenGenerations(h')[t] == TokenGenerations(h)[t]
    {
    }
  }

  lemma SameEventNumber(h: History, h': History, c: int, e: EventId)
    requires Extends(h, h') && 0 <= e < |h.events|
    ensures NewEventId(h', c, e) == NewEventId(h, c, e)
  {
    assert EventGenerations(h')[..e] == EventGenerations(h)[..e];
  }

  // Once generation c is complete, the truncated evolution is the same after any continuation.
  lemma TruncationSurvivesRuns(s: Snapshot, s': Snapshot, c: int)
    requires Invariant(s) && Invariant(s') && Evolves(s, s') && FrozenUpTo(s, c)
    ensures Truncated(s'.history, c) == Truncated(s.history, c)
    ensures TruncatedContents(s'.history, c, s'.contents) == TruncatedContents(s.history, c, s.contents)
  {
    assert StaysFrozen(s, s', c);
    hide IndexIsRight, LimitIsKept, NoEventTwice, QueueIsSound, FrozenUpTo, WellFormed, Layered, Truncated;
    TruncationIsStable(s.history, s'.history, c);
    SameContents(s.history, s'.history, c, s.contents, s'.contents);
  }

  lemma SameContents(h: History, h': History, c: int, contents: Contents, contents': Contents)
    requires WellFormed(h) && WellFormed(h') && KeptTokens(h', c) == KeptTokens(h, c)
    requires forall t :: IsToken(h, t) ==> t in contents
    requires forall t :: IsToken(h', t) ==> t in contents'
    requires forall t :: t in contents ==> t in contents' && contents'[t] == contents[t]
    ensures TruncatedContents(h', c, contents') == TruncatedContents(h, c, contents)
  {
    hide WellFormed;
    var r, r' := TruncatedContents(h, c, contents), TruncatedContents(h', c, contents');
    forall k | k in r
      ensures k in r' && r'[k] == r[k]
    {
      var t := KeptTokens(h, c)[k];
      assert t in contents;
    }
  }
}
