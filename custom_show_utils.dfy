/**
 * Global-fragment arithmetic of a custom show (src/lib/components/customShowUtils.ts):
 * a composite presentation built from slides that each report their own max step.
 * Every slide occupies at least one global slot, so slide i spans the closed
 * interval [offset(i), offset(i) + width(i)], and the fragment on the boundary
 * between two slides belongs to the earlier one.
 */
module CustomShowUtils {
  import opened Wrappers

  /**
   * Where a global fragment lands. `localFragment` is None where the source
   * computes `globalFragment - undefined` (NaN), which happens only for a
   * show with no slides.
   */
  datatype SlidePosition = SlidePosition(slideIndex: int, localFragment: Option<int>)

  /** Slots a slide occupies: its max step, but at least one (`Math.max(maxStep, 1)`). */
  function EffectiveMaxStep(maxStep: int): (w: int)
    ensures w >= 1 && w >= maxStep
    ensures maxStep >= 1 ==> w == maxStep
    ensures w == 1 || w == maxStep
  {
    if maxStep > 1 then maxStep else 1
  }

  /** The left fold `reduce((sum, max) => sum + Math.max(max, 1), 0)`. */
  function GetTotalFragments(slideMaxSteps: seq<int>): (total: int)
    ensures total >= |slideMaxSteps|
  {
    if |slideMaxSteps| == 0 then 0
    else
      var n := |slideMaxSteps| - 1;
      GetTotalFragments(slideMaxSteps[..n]) + EffectiveMaxStep(slideMaxSteps[n])
  }

  /** First global slot of slide i: the total width of the slides before it. */
  function Offset(slideMaxSteps: seq<int>, i: int): int
    requires 0 <= i <= |slideMaxSteps|
  {
    GetTotalFragments(slideMaxSteps[..i])
  }

  /** Slide i's closed interval contains the global fragment. */
  predicate Owns(slideMaxSteps: seq<int>, i: int, globalFragment: int)
  {
    && 0 <= i < |slideMaxSteps|
    && Offset(slideMaxSteps, i) <= globalFragment <= Offset(slideMaxSteps, i) + EffectiveMaxStep(slideMaxSteps[i])
  }

  /** Slide i owns the fragment and no earlier slide does. */
  predicate IsFirstOwner(slideMaxSteps: seq<int>, globalFragment: int, i: int)
  {
    && Owns(slideMaxSteps, i, globalFragment)
    && forall j :: 0 <= j < i ==> !Owns(slideMaxSteps, j, globalFragment)
  }

  lemma TotalOfExample()
    ensures GetTotalFragments([2, 0]) == 3
    ensures GetTotalFragments([]) == 0
  {
    assert [2, 0][..1] == [2];
    assert [2][..0] == [];
  }

  /** The total is additive over concatenation. */
  lemma {:induction false} TotalOfConcat(a: seq<int>, b: seq<int>)
    ensures GetTotalFragments(a + b) == GetTotalFragments(a) + GetTotalFragments(b)
  {
    if |b| == 0 {
      assert a + b == a;
    } else {
      var n := |b| - 1;
      assert (a + b)[..|a + b| - 1] == a + b[..n];
      TotalOfConcat(a, b[..n]);
    }
  }

  /** offsets[i + 1] = offsets[i] + width(i). */
  lemma OffsetStep(slideMaxSteps: seq<int>, i: int)
    requires 0 <= i < |slideMaxSteps|
    ensures Offset(slideMaxSteps, i + 1) == Offset(slideMaxSteps, i) + EffectiveMaxStep(slideMaxSteps[i])
  {
    assert slideMaxSteps[..i + 1][..i] == slideMaxSteps[..i];
  }

  /** Offsets strictly increase, by at least one slot per slide. */
  lemma {:induction false} OffsetGrows(slideMaxSteps: seq<int>, i: int, j: int)
    requires 0 <= i <= j <= |slideMaxSteps|
    ensures Offset(slideMaxSteps, i) + (j - i) <= Offset(slideMaxSteps, j)
  {
    if i < j {
      OffsetGrows(slideMaxSteps, i, j - 1);
      OffsetStep(slideMaxSteps, j - 1);
    }
  }

  /** For a non-empty show, the total is the last offset plus the last slide's width. */
  lemma TotalIsLastOffsetPlusWidth(slideMaxSteps: seq<int>)
    requires |slideMaxSteps| > 0
    ensures GetTotalFragments(slideMaxSteps)
         == Offset(slideMaxSteps, |slideMaxSteps| - 1) + EffectiveMaxStep(slideMaxSteps[|slideMaxSteps| - 1])
  {
    OffsetStep(slideMaxSteps, |slideMaxSteps| - 1);
    assert slideMaxSteps[..|slideMaxSteps|] == slideMaxSteps;
  }

  /** Every fragment from 0 to the total is owned by some slide. */
  lemma {:induction false} Coverage(slideMaxSteps: seq<int>, globalFragment: int) returns (i: int)
    requires |slideMaxSteps| > 0
    requires 0 <= globalFragment <= GetTotalFragments(slideMaxSteps)
    ensures Owns(slideMaxSteps, i, globalFragment)
  {
    var n := |slideMaxSteps| - 1;
    var prefix := slideMaxSteps[..n];
    TotalIsLastOffsetPlusWidth(slideMaxSteps);
    if globalFragment >= Offset(slideMaxSteps, n) || n == 0 {
      OffsetGrows(slideMaxSteps, 0, n);
      assert slideMaxSteps[..0] == [];
      i := n;
    } else {
      assert GetTotalFragments(prefix) == Offset(slideMaxSteps, n);
      i := Coverage(prefix, globalFragment);
      assert prefix[..i] == slideMaxSteps[..i];
    }
  }

  /** Outside [0, total] no slide owns the fragment (the source's fallback case). */
  lemma NoOwnerOutsideRange(slideMaxSteps: seq<int>, globalFragment: int, i: int)
    requires globalFragment < 0 || globalFragment > GetTotalFragments(slideMaxSteps)
    ensures !Owns(slideMaxSteps, i, globalFragment)
  {
    if 0 <= i < |slideMaxSteps| {
      assert slideMaxSteps[..0] == [];
      OffsetGrows(slideMaxSteps, 0, i);
      OffsetStep(slideMaxSteps, i);
      OffsetGrows(slideMaxSteps, i + 1, |slideMaxSteps|);
      assert slideMaxSteps[..|slideMaxSteps|] == slideMaxSteps;
    }
  }

  /**
   * The tie-break: the fragment at the end of slide i's interval (which is also
   * where slide i + 1 starts) belongs to slide i, at local fragment width(i).
   */
  lemma BoundaryBelongsToEarlierSlide(slideMaxSteps: seq<int>, i: int)
    requires 0 <= i < |slideMaxSteps|
    ensures IsFirstOwner(slideMaxSteps, Offset(slideMaxSteps, i) + EffectiveMaxStep(slideMaxSteps[i]), i)
  {
    var g := Offset(slideMaxSteps, i) + EffectiveMaxStep(slideMaxSteps[i]);
    forall j | 0 <= j < i
      ensures !Owns(slideMaxSteps, j, g)
    {
      OffsetStep(slideMaxSteps, j);
      OffsetGrows(slideMaxSteps, j + 1, i);
    }
  }

  /** offsets[0] = 0 and offsets[i] = offsets[i - 1] + width(i - 1); one offset per slide, at least one. */
  method GetSlideFragmentOffsets(slideMaxSteps: seq<int>) returns (offsets: seq<int>)
    ensures |offsets| == if |slideMaxSteps| == 0 then 1 else |slideMaxSteps|
    ensures offsets[0] == 0
    ensures forall i :: 1 <= i < |offsets| ==> offsets[i] == offsets[i - 1] + EffectiveMaxStep(slideMaxSteps[i - 1])
    ensures forall i :: 0 <= i < |offsets| ==> i <= |slideMaxSteps| && offsets[i] == Offset(slideMaxSteps, i)
  {
    assert slideMaxSteps[..0] == [];
    offsets := [0];
    var i := 1;
    while i < |slideMaxSteps|
      invariant 1 <= i && |offsets| == i
      invariant i <= |slideMaxSteps| || i == 1
      invariant forall j :: 0 <= j < i ==> j <= |slideMaxSteps| && offsets[j] == Offset(slideMaxSteps, j)
    {
      OffsetStep(slideMaxSteps, i - 1);
      offsets := offsets + [offsets[i - 1] + EffectiveMaxStep(slideMaxSteps[i - 1])];
      i := i + 1;
    }
    forall i | 1 <= i < |offsets|
      ensures offsets[i] == offsets[i - 1] + EffectiveMaxStep(slideMaxSteps[i - 1])
    {
      OffsetStep(slideMaxSteps, i - 1);
    }
  }

  /**
   * The slide owning a global fragment, found by scanning slides in order
   * (first match wins), with the fragment's position inside that slide; when
   * no slide owns it, the last slide.
   */
  method GetSlideForFragment(globalFragment: int, slideMaxSteps: seq<int>) returns (pos: SlidePosition)
    ensures (exists i :: Owns(slideMaxSteps, i, globalFragment)) ==>
      && IsFirstOwner(slideMaxSteps, globalFragment, pos.slideIndex)
      && pos.localFragment == Some(globalFragment - Offset(slideMaxSteps, pos.slideIndex))
    ensures (forall i :: !Owns(slideMaxSteps, i, globalFragment)) ==>
      && pos.slideIndex == |slideMaxSteps| - 1
      && pos.localFragment == (if |slideMaxSteps| > 0 then Some(globalFragment - Offset(slideMaxSteps, |slideMaxSteps| - 1)) else None)
    ensures |slideMaxSteps| > 0 && 0 <= globalFragment <= GetTotalFragments(slideMaxSteps) ==>
      && 0 <= pos.slideIndex < |slideMaxSteps|
      && pos.localFragment.Some?
      && 0 <= pos.localFragment.value <= EffectiveMaxStep(slideMaxSteps[pos.slideIndex])
  {
    var slideCount := |slideMaxSteps|;
    var offsets := GetSlideFragmentOffsets(slideMaxSteps);
    for i := 0 to slideCount
      invariant forall j :: 0 <= j < i ==> !Owns(slideMaxSteps, j, globalFragment)
    {
      var slideOffset := offsets[i];
      var effectiveMaxStep := EffectiveMaxStep(slideMaxSteps[i]);
      var upperBound := slideOffset + effectiveMaxStep;
      if globalFragment >= slideOffset && globalFragment <= upperBound {
        return SlidePosition(i, Some(globalFragment - slideOffset));
      }
    }
    if slideCount > 0 && 0 <= globalFragment <= GetTotalFragments(slideMaxSteps) {
      var owner := Coverage(slideMaxSteps, globalFragment);
      assert false;
    }
    var lastSlide := slideCount - 1;
    pos := SlidePosition(lastSlide, if lastSlide >= 0 then Some(globalFragment - offsets[lastSlide]) else None);
  }
}
