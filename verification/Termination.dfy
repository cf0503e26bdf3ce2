/**
  Why an evolution with finitely many generations and finitely many destroyers per token ends: a
  weighted count of the events that its tokens could still take part in goes down with every event.
 */
module Termination {
  import opened Types
  import opened Collections
  import opened CausalHistory
  import opened TokenEventGraph
  import opened Evolution

  ghost function Power(w: nat, n: nat): nat {
    if n == 0 then 1 else w * Power(w, n - 1)
  }

  ghost function LayerWeight(g: int, generation: int, w: nat): nat {
    if generation <= g then Power(w, g - generation) else 0
  }

  // What token t still has to give.
  ghost function Weight(h: History, g: int, d: int, w: nat, t: TokenId): int
    requires WellFormed(h) && IsToken(h, t)
  {
    (d - DestroyerCount(h.events, t)) * LayerWeight(g, TokenGeneration(h, t), w)
  }

  ghost function Weights(h: History, g: int, d: int, w: nat): seq<int>
    requires WellFormed(h)
  {
    seq(|h.creators|, t requires 0 <= t < |h.creators| => Weight(h, g, d, w, t))
  }

  ghost function Potential(h: History, g: int, d: int, w: nat): int
    requires WellFormed(h)
  {
    Sum(Weights(h, g, d, w))
  }

  ghost predicate CountsUpTo(h: History, d: int) {
    forall t :: IsToken(h, t) ==> DestroyerCount(h.events, t) <= d
  }

  // ----- sums

  lemma {:induction false} SumIsMonotone(a: seq<int>, b: seq<int>, k: int, loss: int)
    requires |a| == |b| && (forall i :: 0 <= i < |a| ==> a[i] <= b[i])
    requires 0 <= k < |a| ==> a[k] <= b[k] - loss
    ensures Sum(a) <= Sum(b) - if 0 <= k < |a| then loss else 0
  {
    if a != [] {
      SumIsMonotone(a[..|a| - 1], b[..|b| - 1], k, loss);
    }
  }

  lemma {:induction false} SumOfMore(a: seq<int>, n: nat, each: int)
    requires n <= |a| && forall i :: n <= i < |a| ==> a[i] == each
    ensures Sum(a) == Sum(a[..n]) + (|a| - n) * each
    decreases |a| - n
  {
    if n == |a| {
      assert a[..n] == a;
    } else {
      SumOfMore(a, n + 1, each);
      assert a[..n + 1][..n] == a[..n];
      assert (|a| - n) * each == (|a| - (n + 1)) * each + each by {
        OneLess(|a| - n, each);
      }
    }
  }

  lemma OneLess(left: int, p: int)
    ensures (left - 1) * p == left * p - p
  {
  }

  // ----- powers

  lemma {:induction false} PowerIsPositive(w: nat, n: nat)
    requires w >= 1
    ensures Power(w, n) >= 1
  {
    if n > 0 {
      PowerIsPositive(w, n - 1);
      ProductIsPositive(w, Power(w, n - 1));
    }
  }

  lemma ProductIsPositive(a: int, b: int)
    requires a >= 1 && b >= 1
    ensures a * b >= 1
  {
  }

  lemma ProductIsNatural(a: int, b: int)
    requires a >= 0 && b >= 0
    ensures a * b >= 0
  {
  }

  // A whole layer of new tokens weighs less than one use of a token of the layer before.
  lemma LayerIsCheaper(w: nat, rest: nat, count: int, d: int, most: int)
    requires d >= 1 && 0 <= count <= most && w > d * most
    ensures count * (d * Power(w, rest)) < Power(w, rest + 1)
  {
    ProductIsNatural(d, most);
    PowerIsPositive(w, rest);
    LossExceedsGain(Power(w, rest), w, count, d, most);
  }

  lemma LossExceedsGain(p: int, w: int, count: int, d: int, most: int)
    requires p >= 1 && d >= 1 && 0 <= count <= most && w > d * most
    ensures w * p > count * (d * p)
  {
    assert count * (d * p) == (count * d) * p;
    assert count * d <= most * d;
    assert (most * d) * p < w * p;
    assert (count * d) * p <= (most * d) * p;
  }

  // ----- events

  lemma PotentialIsNatural(h: History, g: int, d: int, w: nat)
    requires WellFormed(h) && CountsUpTo(h, d)
    ensures Potential(h, g, d, w) >= 0
  {
    forall t | 0 <= t < |h.creators|
      ensures Weights(h, g, d, w)[t] >= 0
    {
      assert IsToken(h, t);
      ProductIsNatural(d - DestroyerCount(h.events, t), LayerWeight(g, TokenGeneration(h, t), w));
    }
    SumIsNatural(Weights(h, g, d, w));
  }

  // What an event does to the tokens that were there before, and what the new ones are like.
  ghost predicate TokensAge(h: History, h': History, inputs: seq<TokenId>, g': int)
    requires WellFormed(h) && WellFormed(h')
  {
    && (forall t :: IsToken(h, t) ==>
          && IsToken(h', t)
          && TokenGeneration(h', t) == TokenGeneration(h, t)
          && DestroyerCount(h'.events, t) == DestroyerCount(h.events, t) + if t in inputs then 1 else 0)
    && (forall t :: IsToken(h', t) && !IsToken(h, t) ==>
          TokenGeneration(h', t) == g' && DestroyerCount(h'.events, t) == 0)
  }

  lemma TokenLoses(h: History, h': History, inputs: seq<TokenId>, g: int, g': int, d: int, w: nat, t: TokenId)
    requires WellFormed(h) && WellFormed(h') && TokensAge(h, h', inputs, g') && IsToken(h, t)
    ensures IsToken(h', t)
    ensures Weight(h', g, d, w, t) ==
            Weight(h, g, d, w, t) - if t in inputs then LayerWeight(g, TokenGeneration(h, t), w) else 0
  {
    OneLess(d - DestroyerCount(h.events, t), LayerWeight(g, TokenGeneration(h, t), w));
  }

  // What the old tokens lose in an event: at least the power of the latest input.
  lemma OldTokensLose(
    h: History, h': History, inputs: seq<TokenId>, g: int, g': int, d: int, w: nat, latest: TokenId)
    requires WellFormed(h) && WellFormed(h') && TokensAge(h, h', inputs, g')
    requires |h.creators| <= |h'.creators| && latest in inputs && IsToken(h, latest)
    ensures Sum(Weights(h', g, d, w)[..|h.creators|]) <=
            Potential(h, g, d, w) - LayerWeight(g, TokenGeneration(h, latest), w)
  {
    var before, after := Weights(h, g, d, w), Weights(h', g, d, w)[..|h.creators|];
    forall t | 0 <= t < |h.creators|
      ensures after[t] == before[t] - if t in inputs then LayerWeight(g, TokenGeneration(h, t), w) else 0
    {
      TokenLoses(h, h', inputs, g, g', d, w, t);
    }
    SumIsMonotone(after, before, latest, LayerWeight(g, TokenGeneration(h, latest), w));
  }

  // What the new tokens bring: the weight of their layer, each d times.
  lemma NewTokensBring(h: History, h': History, inputs: seq<TokenId>, g: int, g': int, d: int, w: nat)
    requires WellFormed(h) && WellFormed(h') && TokensAge(h, h', inputs, g')
    requires |h.creators| <= |h'.creators|
    ensures Potential(h', g, d, w) ==
            Sum(Weights(h', g, d, w)[..|h.creators|]) + (|h'.creators| - |h.creators|) * (d * LayerWeight(g, g', w))
  {
    var weights := Weights(h', g, d, w);
    forall t | |h.creators| <= t < |h'.creators|
      ensures weights[t] == d * LayerWeight(g, g', w)
    {
      assert IsToken(h', t) && !IsToken(h, t);
    }
    SumOfMore(weights, |h.creators|, d * LayerWeight(g, g', w));
  }

  // With a large enough base every step costs at least one.
  lemma StepLowersPotential(
    h: History, h': History, inputs: seq<TokenId>, g: int, g': int, latest: TokenId, d: int, w: nat, most: nat)
    requires WellFormed(h) && WellFormed(h') && TokensAge(h, h', inputs, g')
    requires |h.creators| <= |h'.creators| <= |h.creators| + most
    requires latest in inputs && IsToken(h, latest) && TokenGeneration(h, latest) == g' - 1 && g' <= g
    requires d >= 1 && w > d * most
    ensures Potential(h', g, d, w) < Potential(h, g, d, w)
  {
    OldTokensLose(h, h', inputs, g, g', d, w, latest);
    NewTokensBring(h, h', inputs, g, g', d, w);
    LayerIsCheaper(w, g - g', |h'.creators| - |h.creators|, d, most);
  }

  lemma EventLowersPotential(s: Snapshot, s': Snapshot, m: Match, n: nat, d: int, w: nat, most: nat)
    requires CanHappen(s, m) && AreTokens(s.history, m.inputs) && IsEvent(s, s', m, n)
    requires d >= 1 && n <= most && w > d * most
    ensures WellFormed(s'.history)
    ensures Potential(s'.history, s.maxGeneration, d, w) < Potential(s.history, s.maxGeneration, d, w)
  {
    EventHistory(s, s', m, n);
    PendingInputs(s, m);
    var latest := LatestInput(s, m.inputs);
    EventAges(s, s', m);
    StepLowersPotential(
      s.history, s'.history, m.inputs, s.maxGeneration, NextGeneration(s.history, m.inputs), latest, d, w, most);
  }

  lemma LatestInput(s: Snapshot, inputs: seq<TokenId>) returns (latest: TokenId)
    requires TokensAreRight(s) && AreTokens(s.history, inputs) && inputs != []
    ensures latest in inputs && IsToken(s.history, latest)
    ensures TokenGeneration(s.history, latest) == NextGeneration(s.history, inputs) - 1
  {
    NextGenerationIsNextLayer(s.history, inputs);
    var i :| 0 <= i < |inputs| && NextGeneration(s.history, inputs) == TokenGeneration(s.history, inputs[i]) + 1;
    latest := inputs[i];
  }

  lemma EventAges(s: Snapshot, s': Snapshot, m: Match)
    requires TokensAreRight(s) && WellFormed(s'.history) && AreTokens(s.history, m.inputs) && IsCountedEvent(s, s', m)
    ensures TokensAge(s.history, s'.history, m.inputs, NextGeneration(s.history, m.inputs))
  {
    forall t | IsToken(s'.history, t) && !IsToken(s.history, t)
      ensures IsNewToken(s, s', t)
    {
    }
  }
}
