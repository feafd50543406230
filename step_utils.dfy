/**
 * Helpers shared by the step-based fragment components
 * (src/lib/components/stepUtils.ts). A step number's integer part is the click
 * on which content becomes visible; its decimal part is an animation delay
 * within that click (a tenth of a step is DEFAULT_DELAY_PER_DECIMAL ms).
 * Steps are exact reals: the binary rounding of IEEE doubles is not modelled.
 */
module StepUtils {
  import opened Wrappers

  /** Milliseconds of delay per 0.1 of a step. */
  const DEFAULT_DELAY_PER_DECIMAL: real := 500.0

  /** The click number of a step: the greatest integer not above it. */
  function GetEffectiveStep(step: real): (r: int)
    ensures r as real <= step < r as real + 1.0
  {
    step.Floor
  }

  lemma EffectiveStepOfInteger(n: int)
    ensures GetEffectiveStep(n as real) == n
  {
  }

  /** `Math.round`: the nearest integer, a half rounded upwards. */
  function Round(x: real): (r: int)
    ensures r as real - 0.5 <= x < r as real + 0.5
  {
    (x + 0.5).Floor
  }

  /** The decimal part of a step, in tenths rounded to the nearest tenth. */
  function DecimalTenths(step: real): (k: int)
    ensures 0 <= k <= 10
    ensures (k as real - 0.5) / 10.0 <= step - GetEffectiveStep(step) as real < (k as real + 0.5) / 10.0
  {
    Round((step - GetEffectiveStep(step) as real) * 10.0)
  }

  /**
   * Delay before a fragment animates in: the explicit delay when one is given,
   * otherwise the step's decimal tenths times `delayPerDecimal`.
   */
  function GetAnimationDelay(step: real, explicitDelay: Option<real> := None, delayPerDecimal: real := DEFAULT_DELAY_PER_DECIMAL): (r: real)
    ensures explicitDelay.Some? ==> r == explicitDelay.value
  {
    if explicitDelay.Some? then explicitDelay.value
    else DecimalTenths(step) as real * delayPerDecimal
  }

  /** A whole-numbered step animates without delay, whatever the rate. */
  lemma IntegerStepHasNoDelay(n: int, delayPerDecimal: real)
    ensures GetAnimationDelay(n as real, None, delayPerDecimal) == 0.0
  {
    EffectiveStepOfInteger(n);
    assert DecimalTenths(n as real) == Round(0.0) == 0;
  }

  /** Step n.k (k tenths) is delayed k times the per-decimal rate: 5.1 -> 500, 5.2 -> 1000 by default. */
  lemma TenthsStepDelay(n: int, k: int, delayPerDecimal: real)
    requires 0 <= k <= 9
    ensures GetAnimationDelay(n as real + k as real / 10.0, None, delayPerDecimal) == k as real * delayPerDecimal
  {
    var step := n as real + k as real / 10.0;
    var e := GetEffectiveStep(step);
    assert e == n by {
      assert e as real <= step < e as real + 1.0;
    }
    assert (step - n as real) * 10.0 == k as real;
    assert Round(k as real) == k;
  }

  /** The computed delay scales linearly with the per-decimal rate. */
  lemma DelayIsLinearInRate(step: real, delayPerDecimal: real, factor: real)
    ensures GetAnimationDelay(step, None, factor * delayPerDecimal) == factor * GetAnimationDelay(step, None, delayPerDecimal)
  {
  }

  /**
   * Whether content with the given step shows at the current fragment: content
   * without a step always shows; otherwise it shows from its click number on.
   */
  function ShouldBeVisible(step: Option<real>, currentFragment: int): (r: bool)
    ensures step.None? ==> r
    ensures step.Some? ==> (r <==> step.value < (currentFragment + 1) as real)
  {
    if step.None? then true else currentFragment >= GetEffectiveStep(step.value)
  }

  /** Once visible, content stays visible at every later fragment. */
  lemma VisibilityIsMonotone(step: Option<real>, f: int, g: int)
    requires f <= g && ShouldBeVisible(step, f)
    ensures ShouldBeVisible(step, g)
  {
  }

  /**
   * The slide context that collects the click numbers of a slide's fragments.
   * Its owner (the Slide component) is not part of this model; registering a
   * step is modelled as adding it to a set.
   */
  class SlideContext {
    var registeredSteps: set<int>

    constructor ()
      ensures registeredSteps == {}
    {
      registeredSteps := {};
    }

    method RegisterStep(step: int)
      modifies this
      ensures registeredSteps == old(registeredSteps) + {step}
    {
      registeredSteps := registeredSteps + {step};
    }
  }

  /** Registers the click number of a step, when there is both a step and a context. */
  method RegisterStepWithContext(step: Option<real>, context: SlideContext?)
    modifies context
    ensures context != null && step.Some? ==>
      context.registeredSteps == old(context.registeredSteps) + {GetEffectiveStep(step.value)}
    ensures context != null && step.None? ==> context.registeredSteps == old(context.registeredSteps)
  {
    if context != null && step.Some? {
      context.RegisterStep(GetEffectiveStep(step.value));
    }
  }
}
