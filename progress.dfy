/**
 * What `updateStepUI` computes: the class of each step indicator and the
 * progress percentage shown for a step number.
 */
module Progress {

  /** The number of steps of the booking form. */
  const TOTAL_STEPS := 3

  /** The classes a `.step` indicator carries: none, `active` or `completed`. */
  datatype Indicator = Plain | Active | Completed

  /** The indicator at 1-based position `pos` while step `step` is shown. */
  function Classify(pos: int, step: int): (r: Indicator)
    ensures r == Completed <==> pos < step
    ensures r == Active <==> pos == step
    ensures r == Plain <==> pos > step
  {
    if pos < step then Completed
    else if pos == step then Active
    else Plain
  }

  /**
   * All `n` indicators, in document order, while step `step` is shown: the
   * one at each position is classified by that position alone.
   */
  function Render(n: nat, step: int): (r: seq<Indicator>)
    ensures |r| == n
    ensures forall k | 0 <= k < n :: r[k] == Classify(k + 1, step)
  {
    if n == 0 then [] else Render(n - 1, step) + [Classify(n, step)]
  }

  /** The percentage table: 66 for step 2, 100 for step 3, 33 for anything else. */
  function Percent(step: int): (p: int)
    ensures 33 <= p <= 100
  {
    if step == 3 then 100
    else if step == 2 then 66
    else 33
  }

  /** The number of occurrences of `x` in `s`. */
  function Count(s: seq<Indicator>, x: Indicator): nat {
    if s == [] then 0
    else Count(s[..|s| - 1], x) + (if s[|s| - 1] == x then 1 else 0)
  }

  /** Every indicator is in exactly one of the three states. */
  lemma {:induction false} CountsSum(s: seq<Indicator>)
    ensures Count(s, Plain) + Count(s, Active) + Count(s, Completed) == |s|
  {
    if s != [] {
      CountsSum(s[..|s| - 1]);
    }
  }

  lemma {:induction false} RenderCompleted(n: nat, step: int)
    ensures Count(Render(n, step), Completed) == if step <= 1 then 0 else if step - 1 <= n then step - 1 else n
  {
    if n > 0 {
      RenderCompleted(n - 1, step);
      assert Render(n, step)[..n - 1] == Render(n - 1, step);
    }
  }

  lemma {:induction false} RenderActive(n: nat, step: int)
    ensures Count(Render(n, step), Active) == if 1 <= step <= n then 1 else 0
  {
    if n > 0 {
      RenderActive(n - 1, step);
      assert Render(n, step)[..n - 1] == Render(n - 1, step);
    }
  }

  /**
   * Rendering marks the indicators before `step` completed and the one at
   * `step` active: `step - 1` completed ones (as many as exist), one active
   * one when `step` is a position, and the rest plain.
   */
  lemma RenderCounts(n: nat, step: int)
    ensures Count(Render(n, step), Completed) == if step <= 1 then 0 else if step - 1 <= n then step - 1 else n
    ensures Count(Render(n, step), Active) == if 1 <= step <= n then 1 else 0
    ensures Count(Render(n, step), Plain) == n - Count(Render(n, step), Completed) - Count(Render(n, step), Active)
  {
    RenderCompleted(n, step);
    RenderActive(n, step);
    CountsSum(Render(n, step));
  }

  /**
   * The table is not a proportional formula in general, but on the steps
   * that exist it agrees with `100 * step / TOTAL_STEPS` rounded down; for
   * every other step number it shows 33.
   */
  lemma PercentOnSteps(step: int)
    ensures 1 <= step <= TOTAL_STEPS ==> Percent(step) == 100 * step / TOTAL_STEPS
    ensures (step < 1 || step > TOTAL_STEPS) ==> Percent(step) == 33
    ensures Percent(step) == 100 <==> step == TOTAL_STEPS
  {
  }

  /** Going forward never lowers the percentage shown, on the steps that exist. */
  lemma PercentMonotonic(s: int, t: int)
    requires 1 <= s <= t <= TOTAL_STEPS
    ensures Percent(s) <= Percent(t)
  {
  }
}
