/**
  One episode's bookkeeping: the per-step reward, the recorded steps, the
  discounted return of the backward pass, and the first-visit gate.
*/
module Episode {
  import opened Grid

  /** Reward of an ordinary step (stepCost, the float -0.1f). */
  const StepCost: real := -0.1
  /** Step budget of an episode (maxSteps). */
  const MaxSteps: int := 1000000
  /** Discount of the return (discountFactor, the float 0.99f). */
  const DiscountFactor: real := 0.99
  /** Number of training episodes (the initial maxEpisodes). */
  const MaxEpisodes: int := 500

  /** One recorded step: the state before the move, the action and its reward (the Trajectory struct). */
  datatype Trajectory = Trajectory(state: State, action: int, reward: real)

  /** The episode ends after this step: goal reached or step budget used up. */
  predicate Terminal(atGoal: bool, steps: int) {
    atGoal || steps >= MaxSteps
  }

  /** The reward of the step that brought the counter to `steps`, `atGoal` telling whether the goal is now reached. */
  function Reward(steps: int, atGoal: bool): real {
    if Terminal(atGoal, steps) then
      (if steps >= MaxSteps then steps as real * StepCost else 0.0)
    else StepCost
  }

  /** Truncation takes precedence over the goal; the goal step is free; every other step costs stepCost. */
  lemma RewardCases(steps: int, atGoal: bool)
    ensures steps >= MaxSteps ==> Reward(steps, atGoal) == steps as real * StepCost
    ensures steps < MaxSteps && atGoal ==> Reward(steps, atGoal) == 0.0
    ensures steps < MaxSteps && !atGoal ==> Reward(steps, atGoal) == StepCost
    ensures steps >= 0 ==> Reward(steps, atGoal) <= 0.0
  {
  }

  // ---------------------------------------------------------------------------
  // Discounted return
  // ---------------------------------------------------------------------------

  function Pow(g: real, k: nat): real {
    if k == 0 then 1.0 else g * Pow(g, k - 1)
  }

  /** The forward sum of rewards i .. k-1, each discounted by its distance from i: sum of g^(j-i) * r_j. */
  function DiscountedSum(t: seq<Trajectory>, i: nat, k: nat): real
    requires i <= k <= |t|
    decreases k
  {
    if k == i then 0.0
    else DiscountedSum(t, i, k - 1) + Pow(DiscountFactor, k - 1 - i) * t[k - 1].reward
  }

  /**
    The return of step i as the backward pass computes it: G = gamma * G + r,
    starting from 0 after the last step.
  */
  function Return(t: seq<Trajectory>, i: nat): real
    requires i <= |t|
    decreases |t| - i
  {
    if i == |t| then 0.0 else DiscountFactor * Return(t, i + 1) + t[i].reward
  }

  /** Peeling off the first reward of a discounted sum. */
  lemma {:induction false} DiscountedSumFirst(t: seq<Trajectory>, i: nat, k: nat)
    requires i < k <= |t|
    ensures DiscountedSum(t, i, k) == t[i].reward + DiscountFactor * DiscountedSum(t, i + 1, k)
  {
    if k > i + 1 {
      DiscountedSumFirst(t, i, k - 1);
      assert Pow(DiscountFactor, k - 1 - i) == DiscountFactor * Pow(DiscountFactor, k - 1 - (i + 1));
    }
  }

  /** The backward recursion computes the discounted sum of all rewards from step i to the end. */
  lemma {:induction false} ReturnIsDiscountedSum(t: seq<Trajectory>, i: nat)
    requires i <= |t|
    ensures Return(t, i) == DiscountedSum(t, i, |t|)
    decreases |t| - i
  {
    if i < |t| {
      ReturnIsDiscountedSum(t, i + 1);
      DiscountedSumFirst(t, i, |t|);
    }
  }

  /** The return of the last step is its own reward, and past the end it is 0. */
  lemma ReturnAtEnd(t: seq<Trajectory>)
    requires |t| > 0
    ensures Return(t, |t| - 1) == t[|t| - 1].reward
  {
  }

  // ---------------------------------------------------------------------------
  // First-visit gate
  // ---------------------------------------------------------------------------

  /** Length of the window searched for an earlier occurrence of step i (GetRange(0, endRange)). */
  function EndRange(i: int): int {
    if i <= 0 then 0 else i - 1
  }

  predicate SamePair(a: Trajectory, b: Trajectory) {
    a.state == b.state && a.action == b.action
  }

  /** Step i is credited: its state and action do not occur in the window before it. */
  predicate FirstVisit(t: seq<Trajectory>, i: nat)
    requires i < |t|
  {
    !exists j :: 0 <= j < EndRange(i) && SamePair(t[j], t[i])
  }

  /**
    The gate looks at indices 0 .. i-2 only: step i is credited exactly when
    its pair occurs at no index j <= i - 2, so steps 0 and 1 are always credited.
  */
  lemma FirstVisitWindow(t: seq<Trajectory>, i: nat)
    requires i < |t|
    ensures FirstVisit(t, i) <==> forall j :: 0 <= j <= i - 2 ==> !SamePair(t[j], t[i])
    ensures i < 2 ==> FirstVisit(t, i)
  {
  }

  /** The loop's test, Any over GetRange(0, endRange), is the negation of the first-visit gate. */
  lemma WindowTest(t: seq<Trajectory>, i: nat)
    requires i < |t|
    ensures (exists j :: 0 <= j < |t[..EndRange(i)]| && SamePair(t[..EndRange(i)][j], t[i])) <==> !FirstVisit(t, i)
  {
    var window := t[..EndRange(i)];
    assert forall j :: 0 <= j < |window| ==> window[j] == t[j];
  }

  /**
    Because index i-1 is outside the window, a pair repeated on two
    consecutive steps (a blocked move repeating its action) is credited twice.
  */
  lemma {:induction false} ConsecutiveRepeatCreditedTwice(t: seq<Trajectory>, i: nat)
    requires i + 1 < |t| && SamePair(t[i], t[i + 1])
    requires forall j :: 0 <= j < i ==> !SamePair(t[j], t[i])
    ensures FirstVisit(t, i) && FirstVisit(t, i + 1)
  {
    FirstVisitWindow(t, i);
    FirstVisitWindow(t, i + 1);
    forall j | 0 <= j <= i + 1 - 2
      ensures !SamePair(t[j], t[i + 1])
    {
      assert !SamePair(t[j], t[i]);
    }
  }

  /** A later occurrence two or more steps after an earlier one is not credited. */
  lemma RepeatAfterGapNotCredited(t: seq<Trajectory>, j: nat, i: nat)
    requires j + 2 <= i < |t| && SamePair(t[j], t[i])
    ensures !FirstVisit(t, i)
  {
  }
}
