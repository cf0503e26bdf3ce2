/**
  How many inputs a rule of a multiset substitution system can have: an interval estimated from the
  pattern on its left-hand side, used to skip numbers of inputs that no rule can match.
 */
module PatternLength {
  import opened Types
  import opened Patterns

  const NOTHING: Range := Range(Infinity, Finite(0))
  const ANYTHING: Range := Range(Finite(0), Infinity)

  // The smallest and the largest number in two ranges, whatever their order.
  function Joined(a: Range, b: Range): Range {
    Range(Least(Least(a.min, a.max), Least(b.min, b.max)), Greatest(Greatest(a.min, a.max), Greatest(b.min, b.max)))
  }

  // ----- the estimate

  function LengthRange(p: Pattern): Range
    decreases p, 1, 0
  {
    match p
    case Single => Range(Finite(1), Finite(1))
    case SomeOrMore(min) => Range(Finite(min), Infinity)
    case Wrapper(inner) => LengthRange(inner)
    case Alternatives(choices) => if choices == [] then NOTHING else RangeOfChoices(p, |choices|)
    case Sequence(parts) => RangeOfParts(p, |parts|)
    case Repeated(inner) => Range(Least(LengthRange(inner).min, LengthRange(inner).max), Infinity)
    case RepeatedNull(_) => ANYTHING
    case RepeatedUpTo(inner, limit) =>
      Range(ZeroPreferenceProduct(Finite(1), LengthRange(inner).min), ZeroPreferenceProduct(limit, LengthRange(inner).max))
    case RepeatedNullUpTo(inner, limit) =>
      Range(Finite(0), ZeroPreferenceProduct(limit, Greatest(LengthRange(inner).min, LengthRange(inner).max)))
    case RepeatedBetween(inner, least, limit) =>
      Range(ZeroPreferenceProduct(Finite(least), LengthRange(inner).min),
            ZeroPreferenceProduct(limit, LengthRange(inner).max))
    case Optional(inner) => Range(Finite(0), Greatest(LengthRange(inner).min, LengthRange(inner).max))
    case OptionalWithoutDefault(_, _) => NOTHING
    case Malformed => NOTHING
  }

  function RangeOfChoices(p: Pattern, i: nat): Range
    requires p.Alternatives? && 0 < i <= |p.choices|
    decreases p, 0, i
  {
    var last := LengthRange(p.choices[i - 1]);
    if i == 1 then Joined(last, last) else Joined(RangeOfChoices(p, i - 1), last)
  }

  function RangeOfParts(p: Pattern, i: nat): Range
    requires p.Sequence? && i <= |p.parts|
    decreases p, 0, i
  {
    if i == 0 then Range(Finite(0), Finite(0))
    else
      var rest, last := RangeOfParts(p, i - 1), LengthRange(p.parts[i - 1]);
      Range(Sum(rest.min, last.min), Sum(rest.max, last.max))
  }

  // ----- soundness

  ghost predicate IsSound(p: Pattern) {
    forall n: nat :: CanMatch(p, n) ==> IsIn(n, LengthRange(p))
  }

  lemma {:induction false} RepeatedLength(whole: Pattern, inner: Pattern, k: nat, n: nat)
    requires inner < whole && IsSound(inner) && CanRepeat(whole, inner, k, n)
    ensures k > 0 ==> LengthRange(inner).min.Finite? && Times(k, LengthRange(inner).min.n) <= n
    ensures LengthRange(inner).max.Finite? ==> n <= Times(k, LengthRange(inner).max.n)
    decreases k
  {
    if k > 0 {
      var m: nat :| m <= n && CanMatch(inner, m) && CanRepeat(whole, inner, k - 1, n - m);
      RepeatedLength(whole, inner, k - 1, n - m);
      assert IsIn(m, LengthRange(inner));
      TimesOne(0);
    }
  }

  lemma RepeatedIsIn(whole: Pattern, inner: Pattern, least: nat, limit: Bound, k: nat, n: nat)
    requires inner < whole && IsSound(inner) && CanRepeat(whole, inner, k, n)
    requires least <= k && AtMost(Finite(k), limit)
    ensures AtMost(ZeroPreferenceProduct(Finite(least), LengthRange(inner).min), Finite(n))
    ensures AtMost(Finite(n), ZeroPreferenceProduct(limit, LengthRange(inner).max))
  {
    var r := LengthRange(inner);
    RepeatedLength(whole, inner, k, n);
    if k > 0 {
      TimesIsMonotone(least, k, r.min.n, r.min.n);
    }
    if r.max.Finite? {
      TimesOne(k);
      if limit.Finite? {
        TimesIsMonotone(k, limit.n, r.max.n, r.max.n);
      }
    }
  }

  lemma {:induction false} ChoiceIsIn(p: Pattern, i: nat, j: nat, n: nat)
    requires p.Alternatives? && 0 < i <= |p.choices| && j < i && IsIn(n, LengthRange(p.choices[j]))
    ensures IsIn(n, RangeOfChoices(p, i))
    decreases i
  {
    if j < i - 1 {
      ChoiceIsIn(p, i - 1, j, n);
    }
  }

  lemma {:induction false} PartsAreIn(p: Pattern, i: nat, n: nat)
    requires p.Sequence? && i <= |p.parts| && PartsCanMatch(p, i, n)
    requires forall j :: 0 <= j < i ==> IsSound(p.parts[j])
    ensures IsIn(n, RangeOfParts(p, i))
    decreases i
  {
    if i > 0 {
      var m: nat :| m <= n && CanMatch(p.parts[i - 1], m) && PartsCanMatch(p, i - 1, n - m);
      PartsAreIn(p, i - 1, n - m);
      assert IsIn(m, LengthRange(p.parts[i - 1]));
    }
  }

  // The patterns a pattern is made of.
  ghost function Inner(p: Pattern): (r: seq<Pattern>)
    ensures forall i :: 0 <= i < |r| ==> r[i] < p
  {
    match p
    case Alternatives(choices) => choices
    case Sequence(parts) => parts
    case Single => []
    case SomeOrMore(_) => []
    case Malformed => []
    case _ => [p.inner]
  }

  // What was taken for a pattern that matches nothing has to match nothing.
  ghost predicate IsRightlyNothing(p: Pattern) {
    p.OptionalWithoutDefault? ==> ExactLengths(p).None?
  }

  // Every other construct is estimated soundly if what it is made of is.
  lemma SoundStep(p: Pattern)
    requires IsRightlyNothing(p) && forall i :: 0 <= i < |Inner(p)| ==> IsSound(Inner(p)[i])
    ensures IsSound(p)
  {
    ExactLengthsAreExact(p);
    forall n: nat | CanMatch(p, n)
      ensures IsIn(n, LengthRange(p))
    {
      assert n in Lengths(p);
      match p
      case Alternatives(choices) =>
        var i :| 0 <= i < |choices| && CanMatch(choices[i], n);
        assert Inner(p)[i] == choices[i];
        ChoiceIsIn(p, |choices|, i, n);
      case Sequence(parts) =>
        assert Inner(p) == parts;
        PartsAreIn(p, |parts|, n);
      case Repeated(inner) =>
        assert Inner(p)[0] == inner;
        RepeatedStep(p, inner, n);
      case RepeatedUpTo(inner, limit) =>
        var k: nat :| k >= 1 && AtMost(Finite(k), limit) && CanRepeat(p, inner, k, n);
        assert Inner(p)[0] == inner;
        RepeatedIsIn(p, inner, 1, limit, k, n);
      case RepeatedNullUpTo(inner, limit) =>
        assert Inner(p)[0] == inner;
        RepeatedNullStep(p, inner, limit, n);
      case RepeatedBetween(inner, least, limit) =>
        var k: nat :| k >= least && AtMost(Finite(k), limit) && CanRepeat(p, inner, k, n);
        assert Inner(p)[0] == inner;
        RepeatedIsIn(p, inner, least, limit, k, n);
      case Optional(inner) =>
        assert Inner(p)[0] == inner;
        assert n == 0 || IsIn(n, LengthRange(inner));
      case Wrapper(inner) =>
        assert Inner(p)[0] == inner;
      case _ =>
    }
  }

  lemma RepeatedStep(p: Pattern, inner: Pattern, n: nat)
    requires p == Repeated(inner) && IsSound(inner) && CanMatch(p, n)
    ensures IsIn(n, LengthRange(p))
  {
    var k: nat :| k >= 1 && CanRepeat(p, inner, k, n);
    RepeatedLength(p, inner, k, n);
    TimesIsMonotone(1, k, LengthRange(inner).min.n, LengthRange(inner).min.n);
    TimesOne(LengthRange(inner).min.n);
  }

  lemma RepeatedNullStep(p: Pattern, inner: Pattern, limit: Bound, n: nat)
    requires p == RepeatedNullUpTo(inner, limit) && IsSound(inner) && CanMatch(p, n)
    ensures IsIn(n, LengthRange(p))
  {
    var k: nat :| AtMost(Finite(k), limit) && CanRepeat(p, inner, k, n);
    RepeatedIsIn(p, inner, 0, limit, k, n);
    var r := LengthRange(inner);
    if r.max.Finite? && limit.Finite? && r.min.Finite? && r.max.n < r.min.n {
      TimesIsMonotone(limit.n, limit.n, r.max.n, r.min.n);
    }
  }

  // An optional pattern without a default value is said to match nothing ever, whatever it can match.
  lemma WithoutDefaultIsUnsound(inner: Pattern, canBeLeftOut: bool, n: nat)
    requires CanMatch(inner, n) || (canBeLeftOut && n == 0)
    ensures var p := OptionalWithoutDefault(inner, canBeLeftOut);
            CanMatch(p, n) && !IsIn(n, LengthRange(p)) && !IsSound(p)
  {
    assert !IsIn(n, LengthRange(OptionalWithoutDefault(inner, canBeLeftOut)));
  }

  // The estimate of a single pattern is right iff its limits are not inside of the exact ones.
  lemma SoundIff(p: Pattern)
    ensures IsSound(p) <==>
            var exact := ExactLengths(p);
            exact.Some? ==> AtMost(LengthRange(p).min, exact.value.min) && AtMost(exact.value.max, LengthRange(p).max)
  {
    ExactLengthsAreExact(p);
    var exact, r := ExactLengths(p), LengthRange(p);
    assert forall n: nat :: n in Lengths(p) <==> CanMatch(p, n);
    if exact.Some? && exact.value.max.Infinity? && r.max.Finite? {
      assert ReachesBeyond(Lengths(p), r.max.n + 1);
      var n :| n in Lengths(p) && n >= r.max.n + 1;
      assert !IsIn(n, r);
    }
  }

  // ----- where the estimate is exact

  // Every part can match something, and nothing that may be repeated without limit is always empty.
  ghost predicate IsTight(p: Pattern) {
    match p
    case Single => true
    case SomeOrMore(_) => true
    case Wrapper(inner) => IsTight(inner)
    case Alternatives(choices) => choices != [] && forall i :: 0 <= i < |choices| ==> IsTight(choices[i])
    case Sequence(parts) => forall i :: 0 <= i < |parts| ==> IsTight(parts[i])
    case Repeated(inner) => IsTight(inner) && LengthRange(inner).max != Finite(0)
    case RepeatedNull(inner) => IsTight(inner) && LengthRange(inner).max != Finite(0)
    case RepeatedUpTo(inner, limit) => IsTight(inner) && AtMost(Finite(1), limit)
    case RepeatedNullUpTo(inner, limit) => IsTight(inner)
    case RepeatedBetween(inner, least, limit) => IsTight(inner) && AtMost(Finite(least), limit)
    case Optional(inner) => IsTight(inner)
    case OptionalWithoutDefault(_, _) => false
    case Malformed => false
  }

  // The estimate of such a pattern has the least and the greatest length that it can match as its limits.
  lemma {:induction false} TightIsExact(p: Pattern)
    requires IsTight(p)
    ensures ExactLengths(p) == Some(LengthRange(p)) && AtMost(LengthRange(p).min, LengthRange(p).max)
    decreases p, 1, 0
  {
    ExactLengthsAreExact(p);
    match p
    case Alternatives(choices) => TightChoices(p, |choices|);
    case Sequence(parts) => TightParts(p, |parts|);
    case Single =>
    case SomeOrMore(_) =>
    case Wrapper(inner) => TightIsExact(inner);
    case Repeated(inner) =>
      TightIsExact(inner);
      OneTimes(LengthRange(inner).min);
    case RepeatedNull(inner) => TightIsExact(inner);
    case RepeatedUpTo(inner, limit) => TightIsExact(inner);
    case RepeatedNullUpTo(inner, limit) => TightIsExact(inner);
    case RepeatedBetween(inner, least, limit) => TightIsExact(inner);
    case Optional(inner) => TightIsExact(inner);
  }

  // What cannot match anything by its form has an estimate without any number in it.
  lemma MalformedIsEmpty(p: Pattern, n: nat)
    requires p == Malformed || p == Alternatives([])
    ensures !CanMatch(p, n) && !IsIn(n, LengthRange(p))
  {
  }

  // What is made of such a pattern is estimated by limits in the wrong order, and can come out as anything.
  lemma AroundMalformed(limit: Bound, least: nat)
    requires 0 < least && AtMost(Finite(least), limit)
    ensures LengthRange(Malformed) == LengthRange(Wrapper(Malformed)) == Range(Infinity, Finite(0))
    ensures LengthRange(Repeated(Malformed)) == LengthRange(RepeatedNull(Malformed)) == Range(Finite(0), Infinity)
    ensures LengthRange(Optional(Malformed)) == Range(Finite(0), Infinity)
    ensures LengthRange(RepeatedUpTo(Malformed, limit)) == Range(Infinity, Finite(0))
    ensures LengthRange(RepeatedBetween(Malformed, least, limit)) == Range(Infinity, Finite(0))
    ensures LengthRange(RepeatedNullUpTo(Malformed, limit)) == Range(Finite(0), Infinity)
  {
    hide CanMatch;
  }

  lemma OneTimes(a: Bound)
    ensures ZeroPreferenceProduct(Finite(1), a) == a
  {
    if a.Finite? {
      TimesOne(a.n);
    }
  }

  lemma {:induction false} TightChoices(p: Pattern, i: nat)
    requires p.Alternatives? && IsTight(p) && 0 < i <= |p.choices|
    ensures LengthsOfChoices(p, i) == Some(RangeOfChoices(p, i))
    ensures AtMost(RangeOfChoices(p, i).min, RangeOfChoices(p, i).max)
    decreases p, 0, i
  {
    TightIsExact(p.choices[i - 1]);
    if i > 1 {
      TightChoices(p, i - 1);
    } else {
      assert LengthsOfChoices(p, 0).None?;
    }
  }

  lemma {:induction false} TightParts(p: Pattern, i: nat)
    requires p.Sequence? && IsTight(p) && i <= |p.parts|
    ensures LengthsOfParts(p, i) == Some(RangeOfParts(p, i))
    decreases p, 0, i
  {
    if i > 0 {
      TightIsExact(p.parts[i - 1]);
      TightParts(p, i - 1);
    }
  }

  // No optional part without a default value can match anything.
  ghost predicate HasDefaults(p: Pattern) {
    IsRightlyNothing(p) && forall i :: 0 <= i < |Inner(p)| ==> HasDefaults(Inner(p)[i])
  }

  ghost predicate IsSoundThroughout(p: Pattern) {
    IsSound(p) && forall i :: 0 <= i < |Inner(p)| ==> IsSoundThroughout(Inner(p)[i])
  }

  // The estimates of a pattern and of all of its parts are right iff nothing that was taken for a pattern
  // that matches nothing matches something.
  lemma {:induction false} SoundThroughoutIff(p: Pattern)
    ensures IsSoundThroughout(p) <==> HasDefaults(p)
  {
    forall i | 0 <= i < |Inner(p)|
      ensures IsSoundThroughout(Inner(p)[i]) <==> HasDefaults(Inner(p)[i])
    {
      SoundThroughoutIff(Inner(p)[i]);
    }
    if !IsRightlyNothing(p) {
      ExactLengthsAreExact(p);
      SoundIff(p);
    } else if forall i :: 0 <= i < |Inner(p)| ==> HasDefaults(Inner(p)[i]) {
      forall i | 0 <= i < |Inner(p)|
        ensures IsSound(Inner(p)[i])
      {
        assert IsSoundThroughout(Inner(p)[i]);
      }
      SoundStep(p);
    }
  }

  // ----- rules

  // The left-hand side of a rule: patterns of the inputs, or something else.
  datatype Input =
    | Inputs(patterns: seq<Pattern>) | InputChoices(choices: seq<Input>) | InputWrapper(inner: Input)
    | InputsVerbatim(count: nat) | OtherInput

  function InputCountRange(input: Input): Range
    decreases input, 1, 0
  {
    match input
    case Inputs(patterns) => LengthRange(Sequence(patterns))
    case InputChoices(choices) => if choices == [] then ANYTHING else RangeOfInputs(input, |choices|)
    case InputWrapper(inner) => InputCountRange(inner)
    case InputsVerbatim(count) => Range(Finite(count), Finite(count))
    case OtherInput => ANYTHING
  }

  function RangeOfInputs(input: Input, i: nat): Range
    requires input.InputChoices? && 0 < i <= |input.choices|
    decreases input, 0, i
  {
    var last := InputCountRange(input.choices[i - 1]);
    if i == 1 then Joined(last, last) else Joined(RangeOfInputs(input, i - 1), last)
  }

  ghost predicate InputCanMatch(input: Input, n: nat) {
    match input
    case Inputs(patterns) => CanMatch(Sequence(patterns), n)
    case InputChoices(choices) =>
      if choices == [] then true else exists i :: 0 <= i < |choices| && InputCanMatch(choices[i], n)
    case InputWrapper(inner) => InputCanMatch(inner, n)
    case InputsVerbatim(count) => n == count
    case OtherInput => true
  }

  ghost predicate InputHasDefaults(input: Input) {
    match input
    case Inputs(patterns) => HasDefaults(Sequence(patterns))
    case InputChoices(choices) => forall i :: 0 <= i < |choices| ==> InputHasDefaults(choices[i])
    case InputWrapper(inner) => InputHasDefaults(inner)
    case InputsVerbatim(_) => true
    case OtherInput => true
  }

  lemma {:induction false} InputCountIsIn(input: Input, n: nat)
    requires InputHasDefaults(input) && InputCanMatch(input, n)
    ensures IsIn(n, InputCountRange(input))
  {
    match input
    case Inputs(patterns) => SoundThroughoutIff(Sequence(patterns));
    case InputChoices(choices) =>
      if choices != [] {
        var i :| 0 <= i < |choices| && InputCanMatch(choices[i], n);
        InputCountIsIn(choices[i], n);
        InputChoiceIsIn(input, |choices|, i, n);
      }
    case InputWrapper(inner) => InputCountIsIn(inner, n);
    case _ =>
  }

  lemma {:induction false} InputChoiceIsIn(input: Input, i: nat, j: nat, n: nat)
    requires input.InputChoices? && 0 < i <= |input.choices| && j < i && IsIn(n, InputCountRange(input.choices[j]))
    ensures IsIn(n, RangeOfInputs(input, i))
    decreases i
  {
    if j < i - 1 {
      InputChoiceIsIn(input, i - 1, j, n);
    }
  }

  // Where the patterns are estimated exactly, so are the numbers of inputs.
  ghost predicate InputIsTight(input: Input) {
    match input
    case Inputs(patterns) => IsTight(Sequence(patterns))
    case InputChoices(choices) => forall i :: 0 <= i < |choices| ==> InputIsTight(choices[i])
    case InputWrapper(inner) => InputIsTight(inner)
    case InputsVerbatim(_) => true
    case OtherInput => true
  }

  ghost function InputCounts(input: Input): iset<nat> {
    iset n: nat | InputCanMatch(input, n)
  }

  lemma {:induction false} InputCountRangeIsExact(input: Input)
    requires InputIsTight(input)
    ensures AreLimits(InputCounts(input), Some(InputCountRange(input)))
    decreases input, 1, 0
  {
    match input
    case Inputs(patterns) =>
      TightIsExact(Sequence(patterns));
      ExactLengthsAreExact(Sequence(patterns));
      assert InputCounts(input) == Lengths(Sequence(patterns));
    case InputChoices(choices) =>
      if choices == [] {
        AllNumbers(input);
      } else {
        TightInputChoices(input, |choices|);
        assert InputCounts(input) == CountsOfSome(input, |choices|);
      }
    case InputWrapper(inner) =>
      InputCountRangeIsExact(inner);
      assert InputCounts(input) == InputCounts(inner);
    case InputsVerbatim(count) =>
    case OtherInput => AllNumbers(input);
  }

  lemma AllNumbers(input: Input)
    requires forall n: nat :: InputCanMatch(input, n)
    ensures AreLimits(InputCounts(input), Some(ANYTHING))
  {
    forall bound
      ensures ReachesBeyond(InputCounts(input), bound)
    {
      var n := if bound < 0 then 0 else bound;
      assert n in InputCounts(input);
    }
  }

  // The numbers that one of the first i choices can match.
  ghost function CountsOfSome(input: Input, i: nat): iset<nat>
    requires input.InputChoices? && i <= |input.choices|
  {
    iset n: nat | SomeCanMatch(input, i, n)
  }

  ghost predicate SomeCanMatch(input: Input, i: nat, n: nat)
    requires input.InputChoices? && i <= |input.choices|
  {
    exists j :: 0 <= j < i && InputCanMatch(input.choices[j], n)
  }

  lemma {:induction false} TightInputChoices(input: Input, i: nat)
    requires input.InputChoices? && InputIsTight(input) && 0 < i <= |input.choices|
    ensures AreLimits(CountsOfSome(input, i), Some(RangeOfInputs(input, i)))
    ensures AtMost(RangeOfInputs(input, i).min, RangeOfInputs(input, i).max)
    decreases input, 0, i
  {
    var last := input.choices[i - 1];
    InputCountRangeIsExact(last);
    LimitsAreOrdered(InputCounts(last), InputCountRange(last));
    if i == 1 {
      assert CountsOfSome(input, i) == InputCounts(last);
    } else {
      TightInputChoices(input, i - 1);
      LimitsOfEither(CountsOfSome(input, i - 1), InputCounts(last), Some(RangeOfInputs(input, i - 1)),
                     Some(InputCountRange(last)));
      assert CountsOfSome(input, i) == CountsOfSome(input, i - 1) + InputCounts(last);
    }
  }

  lemma LimitsAreOrdered(ns: iset<nat>, r: Range)
    requires AreLimits(ns, Some(r))
    ensures AtMost(r.min, r.max)
  {
  }

  // The numbers of inputs that are tried: what was asked for, clipped to what some rule can match.
  function Clipped(requested: Range, rules: seq<Input>): Range
    requires rules != []
  {
    var all := RangeOfRules(rules);
    Range(Greatest(requested.min, all.min), Least(requested.max, all.max))
  }

  // The least minimum and the greatest maximum.
  function RangeOfRules(rules: seq<Input>): Range
    requires rules != []
  {
    var last := InputCountRange(rules[|rules| - 1]);
    if |rules| == 1 then last
    else
      var rest := RangeOfRules(rules[..|rules| - 1]);
      Range(Least(rest.min, last.min), Greatest(rest.max, last.max))
  }

  lemma {:induction false} RuleIsIn(rules: seq<Input>, r: nat, n: nat)
    requires r < |rules| && IsIn(n, InputCountRange(rules[r]))
    ensures IsIn(n, RangeOfRules(rules))
  {
    if r < |rules| - 1 {
      RuleIsIn(rules[..|rules| - 1], r, n);
    }
  }

  // A number is left iff it was asked for and lies between the limits of some rules.
  lemma ClippedIff(requested: Range, rules: seq<Input>, n: nat)
    requires rules != []
    ensures IsIn(n, Clipped(requested, rules)) <==>
            && IsIn(n, requested)
            && (exists r :: 0 <= r < |rules| && AtMost(InputCountRange(rules[r]).min, Finite(n)))
            && (exists r :: 0 <= r < |rules| && AtMost(Finite(n), InputCountRange(rules[r]).max))
  {
    RangeOfRulesIff(rules, n);
  }

  lemma {:induction false} RangeOfRulesIff(rules: seq<Input>, n: nat)
    requires rules != []
    ensures AtMost(RangeOfRules(rules).min, Finite(n)) <==>
            exists r :: 0 <= r < |rules| && AtMost(InputCountRange(rules[r]).min, Finite(n))
    ensures AtMost(Finite(n), RangeOfRules(rules).max) <==>
            exists r :: 0 <= r < |rules| && AtMost(Finite(n), InputCountRange(rules[r]).max)
  {
    var last := |rules| - 1;
    if |rules| > 1 {
      RangeOfRulesIff(rules[..last], n);
      assert forall r :: 0 <= r < last ==> rules[..last][r] == rules[r];
    }
  }

  // Clipping excludes no possible match.
  lemma ClippingKeepsMatches(requested: Range, rules: seq<Input>, r: nat, n: nat)
    requires r < |rules| && InputHasDefaults(rules[r]) && InputCanMatch(rules[r], n) && IsIn(n, requested)
    ensures IsIn(n, Clipped(requested, rules))
  {
    InputCountIsIn(rules[r], n);
    RuleIsIn(rules, r, n);
  }
}
