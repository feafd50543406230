/**
 * The global original-step registry (src/lib/stores/navigation.ts, mirrored by
 * the registry in src/tests/step-normalization.test.ts): each mounted slide
 * registers a lookup from normalized step back to the author's step, keyed by
 * (presentation, slide index). The source's key "presentation:slideIndex" is
 * injective for integer slide indices (the last ':' separates the parts), so the
 * pair stands for it.
 */
module OriginalStepRegistry {
  import StepNormalization

  /** The registry's answer for a table: the registered lookup applied to the step, or the step itself. */
  function Lookup(lookups: map<(string, int), int -> int>, presentation: string, slideIndex: int, normalizedStep: int): int
  {
    var key := (presentation, slideIndex);
    if key in lookups then lookups[key](normalizedStep) else normalizedStep
  }

  class Registry {
    var lookups: map<(string, int), int -> int>

    constructor()
      ensures lookups == map[]
    {
      lookups := map[];
    }

    method Register(presentation: string, slideIndex: int, lookup: int -> int)
      modifies this
      ensures lookups == old(lookups)[(presentation, slideIndex) := lookup]
    {
      lookups := lookups[(presentation, slideIndex) := lookup];
    }

    method Unregister(presentation: string, slideIndex: int)
      modifies this
      ensures lookups == old(lookups) - {(presentation, slideIndex)}
    {
      lookups := lookups - {(presentation, slideIndex)};
    }

    method GetOriginalStep(presentation: string, slideIndex: int, normalizedStep: int) returns (r: int)
      ensures r == Lookup(lookups, presentation, slideIndex, normalizedStep)
      ensures (presentation, slideIndex) !in lookups ==> r == normalizedStep
    {
      var key := (presentation, slideIndex);
      if key in lookups {
        r := lookups[key](normalizedStep);
      } else {
        r := normalizedStep;
      }
    }
  }

  /** With nothing registered, every step maps to itself. */
  lemma EmptyRegistryIsIdentity(presentation: string, slideIndex: int, normalizedStep: int)
    ensures Lookup(map[], presentation, slideIndex, normalizedStep) == normalizedStep
  {
  }

  /** Registering a lookup answers through it for its own key, and leaves every other key's answer as it was. */
  lemma RegisterAnswersOnlyItsKey(lookups: map<(string, int), int -> int>, presentation: string, slideIndex: int,
                                  lookup: int -> int, p: string, s: int, n: int)
    ensures Lookup(lookups[(presentation, slideIndex) := lookup], p, s, n)
         == if (p, s) == (presentation, slideIndex) then lookup(n) else Lookup(lookups, p, s, n)
  {
  }

  /** Unregistering falls back to the identity for its own key, and leaves every other key's answer as it was. */
  lemma UnregisterRestoresIdentity(lookups: map<(string, int), int -> int>, presentation: string, slideIndex: int,
                                   p: string, s: int, n: int)
    ensures Lookup(lookups - {(presentation, slideIndex)}, p, s, n)
         == if (p, s) == (presentation, slideIndex) then n else Lookup(lookups, p, s, n)
  {
  }

  /**
   * A slide that registers the inverse lookup of its step maps gets every
   * registered author step back from its normalized number.
   */
  lemma RegisteredStepMapsRoundTrip(lookups: map<(string, int), int -> int>, presentation: string, slideIndex: int,
                                    steps: seq<real>, stepMap: map<int, int>, reverseStepMap: map<int, int>, x: int)
    requires StepNormalization.StepMapsOf(steps, stepMap, reverseStepMap)
    requires x in stepMap
    ensures Lookup(lookups[(presentation, slideIndex) := n => StepNormalization.GetOriginalStep(n, reverseStepMap)],
                   presentation, slideIndex, stepMap[x]) == x
  {
  }
}
