/**
  Patterns for sequences, as far as the numbers of elements they can match are concerned, and the exact
  least and greatest of these numbers.
 */
module Patterns {
  import opened Types

  datatype Bound = Finite(n: nat) | Infinity

  datatype Range = Range(min: Bound, max: Bound)

  // The constructs a pattern is made of. Names, conditions and the like are wrappers that leave lengths alone.
  datatype Pattern =
    | Single | SomeOrMore(min: nat) | Wrapper(inner: Pattern)
    | Alternatives(choices: seq<Pattern>) | Sequence(parts: seq<Pattern>)
    | Repeated(inner: Pattern) | RepeatedNull(inner: Pattern)
    | RepeatedUpTo(inner: Pattern, limit: Bound) | RepeatedNullUpTo(inner: Pattern, limit: Bound)
    | RepeatedBetween(inner: Pattern, least: nat, limit: Bound)
    | Optional(inner: Pattern)
    // Whether such a pattern can be left out depends on the function around it.
    | OptionalWithoutDefault(inner: Pattern, canBeLeftOut: bool)
    | Malformed

  // ----- arithmetic with infinity

  predicate AtMost(a: Bound, b: Bound) {
    b.Infinity? || (a.Finite? && a.n <= b.n)
  }

  function Least(a: Bound, b: Bound): Bound {
    if AtMost(a, b) then a else b
  }

  function Greatest(a: Bound, b: Bound): Bound {
    if AtMost(a, b) then b else a
  }

  function Sum(a: Bound, b: Bound): Bound {
    if a.Finite? && b.Finite? then Finite(a.n + b.n) else Infinity
  }

  function ZeroPreferenceProduct(a: Bound, b: Bound): Bound {
    if a == Finite(0) || b == Finite(0) then Finite(0)
    else if a.Finite? && b.Finite? then Finite(Times(a.n, b.n))
    else Infinity
  }

  function Times(a: nat, b: nat): nat {
    if a == 0 then 0 else Times(a - 1, b) + b
  }

  ghost predicate IsIn(n: nat, r: Range) {
    AtMost(r.min, Finite(n)) && AtMost(Finite(n), r.max)
  }

  lemma {:induction false} TimesIsMonotone(a: nat, a': nat, b: nat, b': nat)
    requires a <= a' && b <= b'
    ensures Times(a, b) <= Times(a', b')
    decreases a'
  {
    if a > 0 {
      TimesIsMonotone(a - 1, a' - 1, b, b');
    }
  }

  lemma {:induction false} TimesOne(b: nat)
    ensures Times(1, b) == b && Times(b, 0) == 0
  {
    if b > 0 {
      TimesOne(b - 1);
    }
    assert Times(1, b) == Times(0, b) + b;
  }

  // ----- the lengths a pattern can match, if its conditions hold

  ghost predicate CanMatch(p: Pattern, n: nat)
    decreases p, 1, 0
  {
    match p
    case Single => n == 1
    case SomeOrMore(min) => n >= min
    case Wrapper(inner) => CanMatch(inner, n)
    case Alternatives(choices) => exists i :: 0 <= i < |choices| && CanMatch(choices[i], n)
    case Sequence(parts) => PartsCanMatch(p, |parts|, n)
    case Repeated(inner) => exists k: nat :: k >= 1 && CanRepeat(p, inner, k, n)
    case RepeatedNull(inner) => exists k: nat :: CanRepeat(p, inner, k, n)
    case RepeatedUpTo(inner, limit) => exists k: nat :: k >= 1 && AtMost(Finite(k), limit) && CanRepeat(p, inner, k, n)
    case RepeatedNullUpTo(inner, limit) => exists k: nat :: AtMost(Finite(k), limit) && CanRepeat(p, inner, k, n)
    case RepeatedBetween(inner, least, limit) =>
      exists k: nat :: k >= least && AtMost(Finite(k), limit) && CanRepeat(p, inner, k, n)
    case Optional(inner) => n == 0 || CanMatch(inner, n)
    case OptionalWithoutDefault(inner, canBeLeftOut) => (canBeLeftOut && n == 0) || CanMatch(inner, n)
    case Malformed => false
  }

  // k pieces that match the pattern have n elements together.
  ghost predicate CanRepeat(whole: Pattern, inner: Pattern, k: nat, n: nat)
    requires inner < whole
    decreases whole, 0, k
  {
    if k == 0 then n == 0
    else exists m: nat :: m <= n && CanMatch(inner, m) && CanRepeat(whole, inner, k - 1, n - m)
  }

  ghost predicate PartsCanMatch(p: Pattern, i: nat, n: nat)
    requires p.Sequence? && i <= |p.parts|
    decreases p, 0, i
  {
    if i == 0 then n == 0
    else
      var last := p.parts[i - 1];
      exists m: nat :: m <= n && CanMatch(last, m) && PartsCanMatch(p, i - 1, n - m)
  }

  // ----- the least and the greatest length

  ghost function Lengths(p: Pattern): iset<nat> {
    iset n: nat | CanMatch(p, n)
  }

  // h says what the least and the greatest number are, or that there are none.
  ghost predicate AreLimits(ns: iset<nat>, h: Option<Range>) {
    match h
    case None => forall n :: n !in ns
    case Some(r) =>
      && r.min.Finite? && r.min.n in ns && (forall n :: n in ns ==> IsIn(n, r))
      && (r.max.Finite? ==> r.max.n in ns)
      && (r.max.Infinity? ==> forall bound :: ReachesBeyond(ns, bound))
  }

  ghost predicate ReachesBeyond(ns: iset<nat>, bound: int) {
    exists n :: n in ns && n >= bound
  }

  ghost predicate IsSum(n: int, a: iset<nat>, b: iset<nat>) {
    exists m, k :: m in a && k in b && m + k == n
  }

  const ZERO: Range := Range(Finite(0), Finite(0))

  function ExactLengths(p: Pattern): Option<Range>
    decreases p, 1, 0
  {
    match p
    case Single => Some(Range(Finite(1), Finite(1)))
    case SomeOrMore(min) => Some(Range(Finite(min), Infinity))
    case Wrapper(inner) => ExactLengths(inner)
    case Alternatives(choices) => LengthsOfChoices(p, |choices|)
    case Sequence(parts) => LengthsOfParts(p, |parts|)
    case Repeated(inner) => LengthsOfRepeated(ExactLengths(inner), 1, Infinity)
    case RepeatedNull(inner) => LengthsOfRepeated(ExactLengths(inner), 0, Infinity)
    case RepeatedUpTo(inner, limit) => LengthsOfRepeated(ExactLengths(inner), 1, limit)
    case RepeatedNullUpTo(inner, limit) => LengthsOfRepeated(ExactLengths(inner), 0, limit)
    case RepeatedBetween(inner, least, limit) => LengthsOfRepeated(ExactLengths(inner), least, limit)
    case Optional(inner) => EitherOf(Some(ZERO), ExactLengths(inner))
    case OptionalWithoutDefault(inner, canBeLeftOut) =>
      EitherOf(if canBeLeftOut then Some(ZERO) else None, ExactLengths(inner))
    case Malformed => None
  }

  function LengthsOfChoices(p: Pattern, i: nat): Option<Range>
    requires p.Alternatives? && i <= |p.choices|
    decreases p, 0, i
  {
    if i == 0 then None else EitherOf(LengthsOfChoices(p, i - 1), ExactLengths(p.choices[i - 1]))
  }

  function LengthsOfParts(p: Pattern, i: nat): Option<Range>
    requires p.Sequence? && i <= |p.parts|
    decreases p, 0, i
  {
    if i == 0 then Some(ZERO) else BothOf(ExactLengths(p.parts[i - 1]), LengthsOfParts(p, i - 1))
  }

  function EitherOf(a: Option<Range>, b: Option<Range>): Option<Range> {
    if a.None? then b
    else if b.None? then a
    else Some(Range(Least(a.value.min, b.value.min), Greatest(a.value.max, b.value.max)))
  }

  function BothOf(a: Option<Range>, b: Option<Range>): Option<Range> {
    if a.None? || b.None? then None else Some(Range(Sum(a.value.min, b.value.min), Sum(a.value.max, b.value.max)))
  }

  // Between least and limit many pieces.
  function LengthsOfRepeated(h: Option<Range>, least: nat, limit: Bound): Option<Range> {
    if !AtMost(Finite(least), limit) then None
    else if h.None? then if least == 0 then Some(ZERO) else None
    else Some(Range(ZeroPreferenceProduct(Finite(least), h.value.min), ZeroPreferenceProduct(limit, h.value.max)))
  }

  lemma LimitsOfEither(a: iset<nat>, b: iset<nat>, g: Option<Range>, h: Option<Range>)
    requires AreLimits(a, g) && AreLimits(b, h)
    ensures AreLimits(a + b, EitherOf(g, h))
  {
    forall bound
      ensures ReachesBeyond(a, bound) || ReachesBeyond(b, bound) ==> ReachesBeyond(a + b, bound)
    {
      if n :| n in a && n >= bound {
        assert n in a + b;
      } else if n :| n in b && n >= bound {
        assert n in a + b;
      }
    }
  }

  lemma LimitsOfBoth(a: iset<nat>, b: iset<nat>, c: iset<nat>, g: Option<Range>, h: Option<Range>)
    requires AreLimits(a, g) && AreLimits(b, h)
    requires forall n :: n in c <==> IsSum(n, a, b)
    ensures AreLimits(c, BothOf(g, h))
  {
    forall n | n in c
      ensures g.Some? && h.Some? && IsIn(n, BothOf(g, h).value)
    {
      var m, k :| m in a && k in b && m + k == n;
    }
    if g.Some? && h.Some? {
      SumIsThere(a, b, c, g.value.min.n, h.value.min.n);
      if g.value.max.Finite? && h.value.max.Finite? {
        SumIsThere(a, b, c, g.value.max.n, h.value.max.n);
      } else {
        forall bound
          ensures ReachesBeyond(c, bound)
        {
          SumReachesBeyond(a, b, c, g.value, h.value, bound);
        }
      }
    }
  }

  lemma SumReachesBeyond(a: iset<nat>, b: iset<nat>, c: iset<nat>, g: Range, h: Range, bound: int)
    requires AreLimits(a, Some(g)) && AreLimits(b, Some(h)) && (g.max.Infinity? || h.max.Infinity?)
    requires forall n :: n in c <==> IsSum(n, a, b)
    ensures ReachesBeyond(c, bound)
  {
    if g.max.Infinity? {
      assert ReachesBeyond(a, bound);
      var m :| m in a && m >= bound;
      SumIsThere(a, b, c, m, h.min.n);
    } else {
      assert ReachesBeyond(b, bound);
      var m :| m in b && m >= bound;
      SumIsThere(a, b, c, g.min.n, m);
    }
  }

  lemma SumIsThere(a: iset<nat>, b: iset<nat>, c: iset<nat>, m: nat, k: nat)
    requires forall n :: n in c <==> IsSum(n, a, b)
    requires m in a && k in b
    ensures m + k in c
  {
    assert IsSum(m + k, a, b);
  }

  ghost function RepeatedLengths(whole: Pattern, inner: Pattern, k: nat): iset<nat>
    requires inner < whole
  {
    iset n: nat | CanRepeat(whole, inner, k, n)
  }

  lemma {:induction false} LimitsOfRepetition(whole: Pattern, inner: Pattern, h: Option<Range>, k: nat)
    requires inner < whole && AreLimits(Lengths(inner), h)
    ensures AreLimits(RepeatedLengths(whole, inner, k), LengthsOfRepeated(h, k, Finite(k)))
  {
    hide CanMatch, CanRepeat, AreLimits, IsSum, LengthsOfRepeated, BothOf;
    if k == 0 {
      NoPieces(whole, inner, h);
    } else {
      LimitsOfRepetition(whole, inner, h, k - 1);
      var one, others, all := Lengths(inner), RepeatedLengths(whole, inner, k - 1), RepeatedLengths(whole, inner, k);
      forall n
        ensures n in all <==> IsSum(n, one, others)
      {
        RepetitionIsSum(whole, inner, k, n);
      }
      LimitsOfBoth(one, others, all, h, LengthsOfRepeated(h, k - 1, Finite(k - 1)));
      NextLimits(h, k);
    }
  }

  lemma NoPieces(whole: Pattern, inner: Pattern, h: Option<Range>)
    requires inner < whole
    ensures AreLimits(RepeatedLengths(whole, inner, 0), LengthsOfRepeated(h, 0, Finite(0)))
  {
    assert RepeatedLengths(whole, inner, 0) == iset{0};
  }

  lemma NextLimits(h: Option<Range>, k: nat)
    requires k > 0
    ensures BothOf(h, LengthsOfRepeated(h, k - 1, Finite(k - 1))) == LengthsOfRepeated(h, k, Finite(k))
  {
    if h.Some? {
      OneMoreTime(k, h.value.min);
      OneMoreTime(k, h.value.max);
    }
  }

  lemma RepetitionIsSum(whole: Pattern, inner: Pattern, k: nat, n: int)
    requires inner < whole && k > 0
    ensures n in RepeatedLengths(whole, inner, k) <==>
            IsSum(n, Lengths(inner), RepeatedLengths(whole, inner, k - 1))
  {
    hide CanMatch, CanRepeat;
    var one, others := Lengths(inner), RepeatedLengths(whole, inner, k - 1);
    if n in RepeatedLengths(whole, inner, k) {
      var m := FirstPiece(whole, inner, k, n);
      assert m in one && n - m in others;
    }
    if m, l :| m in one && l in others && m + l == n {
      OnePieceMore(whole, inner, k, m, l);
    }
  }

  lemma OnePieceMore(whole: Pattern, inner: Pattern, k: nat, m: nat, l: nat)
    requires inner < whole && k > 0 && CanMatch(inner, m) && CanRepeat(whole, inner, k - 1, l)
    ensures CanRepeat(whole, inner, k, m + l)
  {
    assert (m + l) - m == l;
  }

  lemma FirstPiece(whole: Pattern, inner: Pattern, k: nat, n: nat) returns (m: nat)
    requires inner < whole && k > 0 && CanRepeat(whole, inner, k, n)
    ensures m <= n && CanMatch(inner, m) && CanRepeat(whole, inner, k - 1, n - m)
  {
    m :| m <= n && CanMatch(inner, m) && CanRepeat(whole, inner, k - 1, n - m);
  }

  lemma OneMoreTime(k: nat, b: Bound)
    requires k > 0
    ensures Sum(b, ZeroPreferenceProduct(Finite(k - 1), b)) == ZeroPreferenceProduct(Finite(k), b)
  {
    if b.Finite? {
      TimesOne(b.n);
      TimesOne(k);
      TimesOne(k - 1);
    }
  }

  // Any number of repetitions from least to limit.
  ghost predicate RepeatsBetween(whole: Pattern, inner: Pattern, least: nat, limit: Bound, n: nat)
    requires inner < whole
  {
    exists k: nat :: k >= least && AtMost(Finite(k), limit) && CanRepeat(whole, inner, k, n)
  }

  lemma LimitsOfRepeated(
    whole: Pattern, inner: Pattern, h: Option<Range>, least: nat, limit: Bound, ns: iset<nat>)
    requires inner < whole && AreLimits(Lengths(inner), h)
    requires forall n: nat :: n in ns <==> RepeatsBetween(whole, inner, least, limit, n)
    ensures AreLimits(ns, LengthsOfRepeated(h, least, limit))
  {
    hide CanMatch, CanRepeat;
    if h.Some? && AtMost(Finite(least), limit) {
      LeastRepetition(whole, inner, h.value, least, limit, ns);
      if limit.Finite? || h.value.max == Finite(0) {
        GreatestRepetition(whole, inner, h.value, least, limit, ns);
      }
      forall bound | LengthsOfRepeated(h, least, limit).value.max.Infinity?
        ensures ReachesBeyond(ns, bound)
      {
        LargeRepetition(whole, inner, h.value, least, limit, ns, bound);
      }
    } else {
      NoRepetition(whole, inner, h, least, limit, ns);
    }
  }

  // Of nothing there are no repetitions, except for none at all.
  lemma NoRepetition(whole: Pattern, inner: Pattern, h: Option<Range>, least: nat, limit: Bound, ns: iset<nat>)
    requires inner < whole && AreLimits(Lengths(inner), h) && (h.None? || !AtMost(Finite(least), limit))
    requires forall n: nat :: n in ns <==> RepeatsBetween(whole, inner, least, limit, n)
    ensures AreLimits(ns, LengthsOfRepeated(h, least, limit))
  {
    hide CanMatch, CanRepeat;
    forall n | n in ns
      ensures h.None? && least == 0 && n == 0
    {
      var k: nat :| k >= least && AtMost(Finite(k), limit) && CanRepeat(whole, inner, k, n);
      LimitsOfRepetition(whole, inner, h, k);
      assert n in RepeatedLengths(whole, inner, k);
    }
    if h.None? && least == 0 {
      LimitsOfRepetition(whole, inner, h, 0);
      RepetitionIsThere(whole, inner, least, limit, ns, 0, 0);
    }
  }

  lemma RepetitionIsThere(
    whole: Pattern, inner: Pattern, least: nat, limit: Bound, ns: iset<nat>, k: nat, n: nat)
    requires inner < whole && least <= k && AtMost(Finite(k), limit) && n in RepeatedLengths(whole, inner, k)
    requires forall n: nat :: n in ns <==> RepeatsBetween(whole, inner, least, limit, n)
    ensures n in ns
  {
    hide CanMatch, CanRepeat;
  }

  lemma LeastRepetition(whole: Pattern, inner: Pattern, r: Range, least: nat, limit: Bound, ns: iset<nat>)
    requires inner < whole && AreLimits(Lengths(inner), Some(r)) && AtMost(Finite(least), limit)
    requires forall n: nat :: n in ns <==> RepeatsBetween(whole, inner, least, limit, n)
    ensures var all := LengthsOfRepeated(Some(r), least, limit).value;
            all.min.Finite? && all.min.n in ns && forall n :: n in ns ==> IsIn(n, all)
  {
    hide CanMatch, CanRepeat, AreLimits, IsIn;
    FewestPieces(whole, inner, r, least, limit);
    var all := LengthsOfRepeated(Some(r), least, limit).value;
    RepetitionIsThere(whole, inner, least, limit, ns, least, all.min.n);
    forall n | n in ns
      ensures IsIn(n, all)
    {
      var k: nat :| k >= least && AtMost(Finite(k), limit) && CanRepeat(whole, inner, k, n);
      OneRepetitionIsIn(whole, inner, r, least, limit, k, n);
    }
  }

  lemma FewestPieces(whole: Pattern, inner: Pattern, r: Range, least: nat, limit: Bound)
    requires inner < whole && AreLimits(Lengths(inner), Some(r)) && AtMost(Finite(least), limit)
    ensures var all := LengthsOfRepeated(Some(r), least, limit).value;
            all.min.Finite? && all.min.n in RepeatedLengths(whole, inner, least)
  {
    hide CanMatch, CanRepeat, ReachesBeyond, IsIn;
    LimitsOfRepetition(whole, inner, Some(r), least);
  }

  lemma OneRepetitionIsIn(
    whole: Pattern, inner: Pattern, r: Range, least: nat, limit: Bound, k: nat, n: nat)
    requires inner < whole && AreLimits(Lengths(inner), Some(r)) && least <= k && AtMost(Finite(k), limit)
    requires CanRepeat(whole, inner, k, n)
    ensures IsIn(n, LengthsOfRepeated(Some(r), least, limit).value)
  {
    hide CanMatch, CanRepeat, ReachesBeyond, Lengths, ZeroPreferenceProduct;
    LimitsOfRepetition(whole, inner, Some(r), k);
    assert n in RepeatedLengths(whole, inner, k);
    RepetitionIsIn(r, least, limit, k, n);
  }

  lemma RepetitionIsIn(r: Range, least: nat, limit: Bound, k: nat, n: nat)
    requires r.min.Finite? && least <= k && AtMost(Finite(k), limit)
    requires IsIn(n, LengthsOfRepeated(Some(r), k, Finite(k)).value)
    ensures IsIn(n, LengthsOfRepeated(Some(r), least, limit).value)
  {
    TimesIsMonotone(least, k, r.min.n, r.min.n);
    TimesOne(k);
    if r.max.Finite? && limit.Finite? {
      TimesIsMonotone(k, limit.n, r.max.n, r.max.n);
    }
  }

  lemma GreatestRepetition(whole: Pattern, inner: Pattern, r: Range, least: nat, limit: Bound, ns: iset<nat>)
    requires inner < whole && AreLimits(Lengths(inner), Some(r)) && AtMost(Finite(least), limit)
    requires forall n: nat :: n in ns <==> RepeatsBetween(whole, inner, least, limit, n)
    requires limit.Finite? || r.max == Finite(0)
    ensures var all := LengthsOfRepeated(Some(r), least, limit).value;
            all.max.Finite? ==> all.max.n in ns
  {
    hide CanMatch, CanRepeat, ReachesBeyond, Lengths;
    var k := if limit.Finite? then limit.n else least;
    LimitsOfRepetition(whole, inner, Some(r), k);
    var all := LengthsOfRepeated(Some(r), least, limit).value;
    if all.max.Finite? {
      RepetitionIsThere(whole, inner, least, limit, ns, k, all.max.n);
    }
  }

  lemma LargeRepetition(
    whole: Pattern, inner: Pattern, r: Range, least: nat, limit: Bound, ns: iset<nat>, bound: int)
    requires inner < whole && AreLimits(Lengths(inner), Some(r)) && AtMost(Finite(least), limit)
    requires forall n: nat :: n in ns <==> RepeatsBetween(whole, inner, least, limit, n)
    requires LengthsOfRepeated(Some(r), least, limit).value.max.Infinity?
    ensures ReachesBeyond(ns, bound)
  {
    hide CanMatch, CanRepeat, Lengths;
    var k := if limit.Finite? then limit.n else least + 1 + if bound > 0 then bound else 0;
    LimitsOfRepetition(whole, inner, Some(r), k);
    var h := LengthsOfRepeated(Some(r), k, Finite(k)).value;
    if r.max.Finite? {
      TimesIsMonotone(k, k, 1, r.max.n);
      TimesByOne(k);
      RepetitionIsThere(whole, inner, least, limit, ns, k, h.max.n);
    } else {
      assert ReachesBeyond(RepeatedLengths(whole, inner, k), bound);
      var n :| n in RepeatedLengths(whole, inner, k) && n >= bound;
      RepetitionIsThere(whole, inner, least, limit, ns, k, n);
    }
  }

  lemma {:induction false} TimesByOne(k: nat)
    ensures Times(k, 1) == k
  {
    if k > 0 {
      TimesByOne(k - 1);
    }
  }

  // ExactLengths are the limits of the lengths.
  lemma {:induction false} ExactLengthsAreExact(p: Pattern)
    ensures AreLimits(Lengths(p), ExactLengths(p))
    decreases p, 1, 0
  {
    match p
    case SomeOrMore(min) =>
      forall bound
        ensures ReachesBeyond(Lengths(p), bound)
      {
        assert (if bound > min then bound else min) in Lengths(p);
      }
    case Wrapper(inner) =>
      ExactLengthsAreExact(inner);
      assert Lengths(p) == Lengths(inner);
    case Alternatives(choices) =>
      ChoicesAreExact(p, |choices|);
      assert Lengths(p) == LengthsOfSome(p, |choices|);
    case Sequence(parts) =>
      PartsAreExact(p, |parts|);
      assert Lengths(p) == LengthsOfAll(p, |parts|);
    case Repeated(inner) =>
      ExactLengthsAreExact(inner);
      RepetitionIsExact(p, inner, 1, Infinity);
    case RepeatedNull(inner) =>
      ExactLengthsAreExact(inner);
      RepetitionIsExact(p, inner, 0, Infinity);
    case RepeatedUpTo(inner, limit) =>
      ExactLengthsAreExact(inner);
      RepetitionIsExact(p, inner, 1, limit);
    case RepeatedNullUpTo(inner, limit) =>
      ExactLengthsAreExact(inner);
      RepetitionIsExact(p, inner, 0, limit);
    case RepeatedBetween(inner, least, limit) =>
      ExactLengthsAreExact(inner);
      RepetitionIsExact(p, inner, least, limit);
    case Optional(inner) =>
      ExactLengthsAreExact(inner);
      LimitsOfEither(iset{0}, Lengths(inner), Some(ZERO), ExactLengths(inner));
      assert Lengths(p) == iset{0} + Lengths(inner);
    case OptionalWithoutDefault(inner, canBeLeftOut) =>
      ExactLengthsAreExact(inner);
      var none: iset<nat> := if canBeLeftOut then iset{0} else iset{};
      LimitsOfEither(none, Lengths(inner), if canBeLeftOut then Some(ZERO) else None, ExactLengths(inner));
      assert Lengths(p) == none + Lengths(inner);
    case _ =>
  }

  lemma RepetitionIsExact(p: Pattern, inner: Pattern, least: nat, limit: Bound)
    requires inner < p && AreLimits(Lengths(inner), ExactLengths(inner))
    requires match p
             case Repeated(_) => least == 1 && limit == Infinity
             case RepeatedNull(_) => least == 0 && limit == Infinity
             case RepeatedUpTo(_, l) => least == 1 && limit == l
             case RepeatedNullUpTo(_, l) => least == 0 && limit == l
             case RepeatedBetween(_, k, l) => least == k && limit == l
             case _ => false
    requires p.inner == inner
    ensures AreLimits(Lengths(p), ExactLengths(p))
  {
    forall n: nat
      ensures CanMatch(p, n) <==> RepeatsBetween(p, inner, least, limit, n)
    {
      match p
      case Repeated(_) =>
      case RepeatedNull(_) =>
      case RepeatedUpTo(_, _) =>
      case RepeatedNullUpTo(_, _) =>
      case RepeatedBetween(_, _, _) =>
    }
    LimitsOfRepeated(p, inner, ExactLengths(inner), least, limit, Lengths(p));
  }

  ghost function LengthsOfSome(p: Pattern, i: nat): iset<nat>
    requires p.Alternatives? && i <= |p.choices|
  {
    iset n: nat | IsLengthOfSome(p, i, n)
  }

  ghost predicate IsLengthOfSome(p: Pattern, i: nat, n: nat)
    requires p.Alternatives? && i <= |p.choices|
  {
    exists j :: 0 <= j < i && CanMatch(p.choices[j], n)
  }

  lemma {:induction false} ChoicesAreExact(p: Pattern, i: nat)
    requires p.Alternatives? && i <= |p.choices|
    ensures AreLimits(LengthsOfSome(p, i), LengthsOfChoices(p, i))
    decreases p, 0, i
  {
    if i > 0 {
      ChoicesAreExact(p, i - 1);
      ExactLengthsAreExact(p.choices[i - 1]);
      LimitsOfEither(
        LengthsOfSome(p, i - 1), Lengths(p.choices[i - 1]), LengthsOfChoices(p, i - 1), ExactLengths(p.choices[i - 1]));
      assert LengthsOfSome(p, i) == LengthsOfSome(p, i - 1) + Lengths(p.choices[i - 1]);
    }
  }

  ghost function LengthsOfAll(p: Pattern, i: nat): iset<nat>
    requires p.Sequence? && i <= |p.parts|
  {
    iset n: nat | PartsCanMatch(p, i, n)
  }

  lemma {:induction false} PartsAreExact(p: Pattern, i: nat)
    requires p.Sequence? && i <= |p.parts|
    ensures AreLimits(LengthsOfAll(p, i), LengthsOfParts(p, i))
    decreases p, 0, i
  {
    if i > 0 {
      PartsAreExact(p, i - 1);
      ExactLengthsAreExact(p.parts[i - 1]);
      forall n
        ensures n in LengthsOfAll(p, i) <==> IsSum(n, Lengths(p.parts[i - 1]), LengthsOfAll(p, i - 1))
      {
        PartsAreSum(p, i, n);
      }
      LimitsOfBoth(
        Lengths(p.parts[i - 1]), LengthsOfAll(p, i - 1), LengthsOfAll(p, i), ExactLengths(p.parts[i - 1]),
        LengthsOfParts(p, i - 1));
    }
  }

  lemma PartsAreSum(p: Pattern, i: nat, n: int)
    requires p.Sequence? && 0 < i <= |p.parts|
    ensures n in LengthsOfAll(p, i) <==> IsSum(n, Lengths(p.parts[i - 1]), LengthsOfAll(p, i - 1))
  {
    var one, others := Lengths(p.parts[i - 1]), LengthsOfAll(p, i - 1);
    if n in LengthsOfAll(p, i) {
      var m: nat :| m <= n && CanMatch(p.parts[i - 1], m) && PartsCanMatch(p, i - 1, n - m);
      assert m in one && n - m in others;
    }
    if m, l :| m in one && l in others && m + l == n {
      assert CanMatch(p.parts[i - 1], m) && PartsCanMatch(p, i - 1, n - m);
    }
  }
}
