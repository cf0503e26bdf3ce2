/** The budget of threads that searches share. Reservations and releases happen one at a time, under a lock. */
module Parallelism {
  import opened Collections

  // What a request gets while inUse threads are taken: nothing, or at least two.
  function Granted(hardwareThreads: int, inUse: int, requested: int): (granted: int)
    ensures granted == 0 || 2 <= granted <= requested
    ensures granted > 0 ==> inUse + granted <= hardwareThreads
    ensures 2 <= requested && 0 <= inUse <= hardwareThreads - 2 ==> granted > 0
    ensures granted == 0 || granted == requested || inUse + granted == hardwareThreads
  {
    if requested <= 1 then 0
    else
      var available := if hardwareThreads >= 2 then hardwareThreads - inUse else 0;
      var reserved := if requested < available then requested else available;
      if reserved <= 1 then 0 else reserved
  }

  lemma {:induction false} SumWithout(held: seq<int>, i: nat)
    requires i < |held|
    ensures Sum(held) == Sum(held[..i] + held[i + 1..]) + held[i]
  {
    var n := |held| - 1;
    if i == n {
      assert held[..i] + held[i + 1..] == held[..n];
    } else {
      SumWithout(held[..n], i);
      assert (held[..i] + held[i + 1..])[..n - 1] == held[..n][..i] + held[..n][i + 1..];
    }
  }

  class Parallelism {
    const numHardwareThreads: nat
    var threadsInUse: int
    // What the tokens that are alive were granted, in no particular order.
    ghost var held: seq<int>

    // The threads in use are the ones held, and never more than there are.
    ghost predicate Valid()
      reads this
    {
      && threadsInUse == Sum(held) && 0 <= threadsInUse <= numHardwareThreads
      && forall i :: 0 <= i < |held| ==> held[i] == 0 || held[i] >= 2
    }

    constructor (numHardwareThreads: nat)
      ensures Valid() && held == [] && this.numHardwareThreads == numHardwareThreads
    {
      this.numHardwareThreads, threadsInUse, held := numHardwareThreads, 0, [];
    }

    method AcquireThreads(requestedNumThreads: int) returns (granted: int)
      requires Valid()
      modifies this
      ensures Valid() && held == old(held) + [granted]
      ensures granted == requestedNumThreads || threadsInUse == numHardwareThreads || granted == 0
      ensures granted == 0 ==> requestedNumThreads <= 1 || threadsInUse > numHardwareThreads - 2
      ensures granted == Granted(numHardwareThreads, old(threadsInUse), requestedNumThreads)
    {
      granted := Granted(numHardwareThreads, threadsInUse, requestedNumThreads);
      threadsInUse := threadsInUse + granted;
      held := held + [granted];
    }

    method ReleaseThreads(numThreadsToReturn: int, ghost i: nat)
      requires Valid() && i < |held| && held[i] == numThreadsToReturn
      modifies this
      ensures Valid() && held == old(held)[..i] + old(held)[i + 1..]
    {
      SumWithout(held, i);
      SumIsNatural(held[..i] + held[i + 1..]);
      threadsInUse := threadsInUse - numThreadsToReturn;
      held := held[..i] + held[i + 1..];
    }
  }

  // ----- all interleavings

  datatype Operation = Acquire(requested: int) | Release(i: nat)

  // What is held and what the counter says.
  datatype State = State(held: seq<int>, inUse: int)

  // Only what is held can be released.
  ghost predicate IsStep(hardwareThreads: nat, s: State, op: Operation, s': State) {
    match op
    case Acquire(requested) =>
      var granted := Granted(hardwareThreads, s.inUse, requested);
      s' == State(s.held + [granted], s.inUse + granted)
    case Release(i) =>
      i < |s.held| && s' == State(s.held[..i] + s.held[i + 1..], s.inUse - s.held[i])
  }

  ghost predicate IsRun(hardwareThreads: nat, states: seq<State>, ops: seq<Operation>) {
    && |states| == |ops| + 1 && states[0] == State([], 0)
    && forall k :: 0 <= k < |ops| ==> IsStep(hardwareThreads, states[k], ops[k], states[k + 1])
  }

  ghost predicate KeepsBudget(hardwareThreads: nat, s: State) {
    && s.inUse == Sum(s.held) && 0 <= s.inUse <= hardwareThreads
    && forall i :: 0 <= i < |s.held| ==> s.held[i] == 0 || s.held[i] >= 2
  }

  lemma StepKeepsBudget(hardwareThreads: nat, s: State, op: Operation, s': State)
    requires KeepsBudget(hardwareThreads, s) && IsStep(hardwareThreads, s, op, s')
    ensures KeepsBudget(hardwareThreads, s')
  {
    match op
    case Acquire(requested) =>
      assert s'.held[..|s.held|] == s.held;
    case Release(i) =>
      SumWithout(s.held, i);
      SumIsNatural(s'.held);
  }

  // However requests and releases interleave, the counter is what is held, which is never too much.
  lemma {:induction false} EveryRunKeepsTheBudget(
    hardwareThreads: nat, states: seq<State>, ops: seq<Operation>, k: nat)
    requires IsRun(hardwareThreads, states, ops) && k <= |ops|
    ensures KeepsBudget(hardwareThreads, states[k])
  {
    if k > 0 {
      EveryRunKeepsTheBudget(hardwareThreads, states, ops, k - 1);
      StepKeepsBudget(hardwareThreads, states[k - 1], ops[k - 1], states[k - 1 + 1]);
    }
  }
}
