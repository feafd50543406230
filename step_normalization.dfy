/**
 * Step normalization, as the slide component does it (the copy of that logic in
 * src/tests/step-normalization.test.ts). Authors number a slide's fragments with
 * any steps, with gaps (1, 5, 19) and decimals (5.2); the distinct integer parts,
 * in ascending order, are renumbered 1..N, and a decimal part is carried over
 * unchanged because it only sets an animation delay.
 */
module StepNormalization {

  /** The distinct integer parts of the registered steps. */
  function Floors(steps: seq<real>): set<int>
  {
    set s | s in steps :: s.Floor
  }

  /** The dense number of an integer step: one plus the number of registered steps below it. */
  function Rank(keys: set<int>, x: int): int
  {
    |set y | y in keys && y < x| + 1
  }

  predicate Distinct(s: seq<int>)
  {
    forall i, j :: 0 <= i < j < |s| ==> s[i] != s[j]
  }

  predicate Ascending(s: seq<int>)
  {
    forall i, j :: 0 <= i < j < |s| ==> s[i] <= s[j]
  }

  predicate StrictlyAscending(s: seq<int>)
  {
    forall i, j :: 0 <= i < j < |s| ==> s[i] < s[j]
  }

  /** The integers lo..hi. */
  function Span(lo: int, hi: int): (r: set<int>)
    ensures forall k :: k in r <==> lo <= k <= hi
    decreases hi - lo
  {
    if hi < lo then {} else Span(lo, hi - 1) + {hi}
  }

  /** A subset is no larger than its superset, and strictly smaller when it misses an element. */
  lemma SubsetCard(a: set<int>, b: set<int>)
    requires a <= b
    ensures |a| <= |b|
    ensures (exists x :: x in b && x !in a) ==> |a| < |b|
  {
    assert b == a + (b - a);
    assert a * (b - a) == {};
    if exists x :: x in b && x !in a {
      var x :| x in b && x !in a;
      assert x in b - a;
    }
  }

  /** Inserts x into an ascending sequence, before the first element not below it. */
  function Insert(x: int, s: seq<int>): (r: seq<int>)
    ensures multiset(r) == multiset(s) + multiset{x}
  {
    if |s| == 0 || x <= s[0] then [x] + s
    else
      assert s == [s[0]] + s[1..];
      [s[0]] + Insert(x, s[1..])
  }

  lemma {:induction false} InsertAscending(x: int, s: seq<int>)
    requires Ascending(s)
    ensures Ascending(Insert(x, s))
  {
    if |s| > 0 && x > s[0] {
      var rest := Insert(x, s[1..]);
      InsertAscending(x, s[1..]);
      var r := [s[0]] + rest;
      forall i, j | 0 <= i < j < |r| ensures r[i] <= r[j] {
        var k := r[j];
        assert k == rest[j - 1] && k in multiset(rest);
        if k != x {
          assert k in multiset(s[1..]);
        }
      }
    }
  }

  lemma {:induction false} InsertStrictlyAscending(x: int, s: seq<int>)
    requires StrictlyAscending(s) && x !in s
    ensures StrictlyAscending(Insert(x, s))
  {
    if |s| > 0 && x > s[0] {
      var rest := Insert(x, s[1..]);
      InsertStrictlyAscending(x, s[1..]);
      var r := [s[0]] + rest;
      forall i, j | 0 <= i < j < |r| ensures r[i] < r[j] {
        var k := r[j];
        assert k == rest[j - 1] && k in multiset(rest);
        if k != x {
          assert k in multiset(s[1..]);
        }
      }
    }
  }

  /**
   * `Array.prototype.sort` with the comparator `(a, b) => a - b`: a permutation
   * of its input (ascending, by SortAscendingIsAscending); the engine's own
   * algorithm is not modelled.
   */
  function SortAscending(s: seq<int>): (r: seq<int>)
    ensures multiset(r) == multiset(s)
  {
    if |s| == 0 then []
    else
      assert s == [s[0]] + s[1..];
      Insert(s[0], SortAscending(s[1..]))
  }

  lemma {:induction false} SortAscendingIsAscending(s: seq<int>)
    ensures Ascending(SortAscending(s))
    ensures Distinct(s) ==> StrictlyAscending(SortAscending(s))
  {
    if |s| > 0 {
      var rest := SortAscending(s[1..]);
      SortAscendingIsAscending(s[1..]);
      InsertAscending(s[0], rest);
      if Distinct(s) {
        assert Distinct(s[1..]);
        assert s[0] !in s[1..];
        assert s[0] !in multiset(rest);
        InsertStrictlyAscending(s[0], rest);
      }
    }
  }

  /** A sequence without repetitions has as many distinct elements as positions. */
  lemma {:induction false} StrictlyAscendingCard(s: seq<int>)
    requires StrictlyAscending(s)
    ensures |set y | y in s| == |s|
  {
    if |s| > 0 {
      var n := |s| - 1;
      StrictlyAscendingCard(s[..n]);
      assert (set y | y in s) == (set y | y in s[..n]) + {s[n]};
      assert s[n] !in (set y | y in s[..n]);
    }
  }

  /** In an ascending sequence without repetitions, the element at j has exactly j elements below it. */
  lemma RankInSorted(sorted: seq<int>, j: int)
    requires StrictlyAscending(sorted) && 0 <= j < |sorted|
    ensures Rank((set y | y in sorted), sorted[j]) == j + 1
  {
    var keys := set y | y in sorted;
    var below := set y | y in keys && y < sorted[j];
    assert below == set y | y in sorted[..j] by {
      forall y | y in below ensures y in sorted[..j] {
        var k :| 0 <= k < |sorted| && sorted[k] == y;
      }
    }
    StrictlyAscendingCard(sorted[..j]);
  }

  /** Dense numbers lie in 1..N for the N registered integer steps. */
  lemma RankBounds(keys: set<int>, x: int)
    requires x in keys
    ensures 1 <= Rank(keys, x) <= |keys|
  {
    var below := set y | y in keys && y < x;
    SubsetCard(below, keys);
  }

  /** Renumbering preserves the order of the registered steps, so it is one-to-one. */
  lemma RankStrictlyMonotone(keys: set<int>, x: int, y: int)
    requires x in keys && y in keys && x < y
    ensures Rank(keys, x) < Rank(keys, y)
  {
    var belowX := set z | z in keys && z < x;
    var belowY := set z | z in keys && z < y;
    assert x in belowY && x !in belowX;
    SubsetCard(belowX, belowY);
  }

  /** What building the maps promises: the forward map is the dense renumbering and the reverse map its exact inverse. */
  predicate StepMapsOf(steps: seq<real>, stepMap: map<int, int>, reverseStepMap: map<int, int>)
  {
    && stepMap == (map x | x in Floors(steps) :: Rank(Floors(steps), x))
    && reverseStepMap.Keys == Span(1, |Floors(steps)|)
    && (forall x :: x in stepMap ==> stepMap[x] in reverseStepMap && reverseStepMap[stepMap[x]] == x)
    && (forall n :: n in reverseStepMap ==> reverseStepMap[n] in stepMap && stepMap[reverseStepMap[n]] == n)
  }

  lemma FloorsOfSnoc(steps: seq<real>, i: int)
    requires 0 <= i < |steps|
    ensures Floors(steps[..i + 1]) == Floors(steps[..i]) + {steps[i].Floor}
  {
    assert steps[..i + 1] == steps[..i] + [steps[i]];
  }

  /** `[...new Set(steps.map(s => Math.floor(s)))]`: the integer parts, each once, in order of first appearance. */
  method UniqueFloors(steps: seq<real>) returns (uniqueSteps: seq<int>)
    ensures Distinct(uniqueSteps)
    ensures (set y | y in uniqueSteps) == Floors(steps)
  {
    uniqueSteps := [];
    for i := 0 to |steps|
      invariant Distinct(uniqueSteps)
      invariant (set y | y in uniqueSteps) == Floors(steps[..i])
    {
      FloorsOfSnoc(steps, i);
      if steps[i].Floor !in uniqueSteps {
        uniqueSteps := uniqueSteps + [steps[i].Floor];
      }
    }
    assert steps[..|steps|] == steps;
  }

  /**
   * Builds the forward map (author step -> dense step) and the reverse map
   * from the registered steps: deduplicate the integer parts, sort them, and
   * number them 1, 2, ... in that order.
   */
  method BuildStepMaps(steps: seq<real>) returns (stepMap: map<int, int>, reverseStepMap: map<int, int>)
    ensures StepMapsOf(steps, stepMap, reverseStepMap)
  {
    var uniqueSteps := UniqueFloors(steps);
    var sortedSteps := SortAscending(uniqueSteps);
    SortAscendingIsAscending(uniqueSteps);
    var keys := Floors(steps);
    assert (set y | y in sortedSteps) == keys by {
      assert forall y :: y in sortedSteps <==> y in multiset(sortedSteps);
      assert forall y :: y in uniqueSteps <==> y in multiset(uniqueSteps);
    }
    StrictlyAscendingCard(sortedSteps);

    stepMap, reverseStepMap := NumberInOrder(sortedSteps);
    ForwardIsRank(keys, sortedSteps, stepMap);
    ReverseIsInverse(sortedSteps, stepMap, reverseStepMap);
  }

  /** The `forEach` that numbers the sorted steps 1, 2, ... into both maps. */
  method NumberInOrder(sortedSteps: seq<int>) returns (stepMap: map<int, int>, reverseStepMap: map<int, int>)
    requires StrictlyAscending(sortedSteps)
    ensures forall x :: x in stepMap <==> x in sortedSteps
    ensures forall j :: 0 <= j < |sortedSteps| ==> sortedSteps[j] in stepMap && stepMap[sortedSteps[j]] == j + 1
    ensures reverseStepMap.Keys == Span(1, |sortedSteps|)
    ensures forall n :: 1 <= n <= |sortedSteps| ==> reverseStepMap[n] == sortedSteps[n - 1]
  {
    stepMap := map[];
    reverseStepMap := map[];
    for index := 0 to |sortedSteps|
      invariant forall j :: 0 <= j < index ==> sortedSteps[j] in stepMap && stepMap[sortedSteps[j]] == j + 1
      invariant forall x :: x in stepMap ==> exists j :: 0 <= j < index && sortedSteps[j] == x
      invariant forall n :: n in reverseStepMap <==> 1 <= n <= index
      invariant forall n :: 1 <= n <= index ==> reverseStepMap[n] == sortedSteps[n - 1]
    {
      var normalized := index + 1;
      stepMap := stepMap[sortedSteps[index] := normalized];
      reverseStepMap := reverseStepMap[normalized := sortedSteps[index]];
    }
    forall x | x in stepMap
      ensures x in sortedSteps
    {
      var j :| 0 <= j < |sortedSteps| && sortedSteps[j] == x;
    }
  }

  /** Numbering the sorted distinct steps 1, 2, ... in order gives each step its rank. */
  lemma ForwardIsRank(keys: set<int>, sortedSteps: seq<int>, stepMap: map<int, int>)
    requires StrictlyAscending(sortedSteps)
    requires (set y | y in sortedSteps) == keys
    requires forall x :: x in stepMap <==> x in sortedSteps
    requires forall j :: 0 <= j < |sortedSteps| ==> sortedSteps[j] in stepMap && stepMap[sortedSteps[j]] == j + 1
    ensures stepMap == (map x | x in keys :: Rank(keys, x))
  {
    forall x | x in keys
      ensures x in stepMap && stepMap[x] == Rank(keys, x)
    {
      var k :| 0 <= k < |sortedSteps| && sortedSteps[k] == x;
      RankInSorted(sortedSteps, k);
    }
    forall x | x in stepMap
      ensures x in keys
    {
      assert x in sortedSteps;
    }
    assert stepMap.Keys == keys;
  }

  /** The reverse map built alongside is the forward map's inverse, on 1..N. */
  lemma ReverseIsInverse(sortedSteps: seq<int>, stepMap: map<int, int>, reverseStepMap: map<int, int>)
    requires forall x :: x in stepMap <==> x in sortedSteps
    requires forall j :: 0 <= j < |sortedSteps| ==> sortedSteps[j] in stepMap && stepMap[sortedSteps[j]] == j + 1
    requires reverseStepMap.Keys == Span(1, |sortedSteps|)
    requires forall n :: 1 <= n <= |sortedSteps| ==> reverseStepMap[n] == sortedSteps[n - 1]
    ensures forall x :: x in stepMap ==> stepMap[x] in reverseStepMap && reverseStepMap[stepMap[x]] == x
    ensures forall n :: n in reverseStepMap ==> reverseStepMap[n] in stepMap && stepMap[reverseStepMap[n]] == n
  {
    forall x | x in stepMap
      ensures stepMap[x] in reverseStepMap && reverseStepMap[stepMap[x]] == x
    {
      var k :| 0 <= k < |sortedSteps| && sortedSteps[k] == x;
    }
  }

  /** Replaces the integer part of an author step by its dense number (itself when unregistered), keeping the decimal part. */
  function GetNormalizedStep(authorStep: real, stepMap: map<int, int>): (r: real)
    ensures r.Floor == if authorStep.Floor in stepMap then stepMap[authorStep.Floor] else authorStep.Floor
    ensures r - r.Floor as real == authorStep - authorStep.Floor as real
  {
    var intPart := authorStep.Floor;
    var decimalPart := authorStep - intPart as real;
    var normalizedInt := if intPart in stepMap then stepMap[intPart] else intPart;
    normalizedInt as real + decimalPart
  }

  /** The author's step for a dense one; itself when the dense step is not in the reverse map. */
  function GetOriginalStep(normalizedStep: int, reverseStepMap: map<int, int>): (r: int)
    ensures normalizedStep !in reverseStepMap ==> r == normalizedStep
    ensures normalizedStep in reverseStepMap ==> r in reverseStepMap.Values
  {
    if normalizedStep in reverseStepMap then reverseStepMap[normalizedStep] else normalizedStep
  }

  /** Normalizing an author step and looking the click number back up yields the author's click number. */
  lemma OriginalOfNormalized(steps: seq<real>, stepMap: map<int, int>, reverseStepMap: map<int, int>, authorStep: real)
    requires StepMapsOf(steps, stepMap, reverseStepMap)
    requires authorStep.Floor in Floors(steps)
    ensures GetOriginalStep(GetNormalizedStep(authorStep, stepMap).Floor, reverseStepMap) == authorStep.Floor
  {
  }

  /** Dense steps outside 1..N (fragment 0, say) are shown as themselves. */
  lemma OriginalOutsideRangeIsIdentity(steps: seq<real>, stepMap: map<int, int>, reverseStepMap: map<int, int>, n: int)
    requires StepMapsOf(steps, stepMap, reverseStepMap)
    requires n < 1 || n > |Floors(steps)|
    ensures GetOriginalStep(n, reverseStepMap) == n
  {
  }

  /** The dense numbers are exactly 1..N, in the order of the author steps. */
  lemma StepMapIsOrderedBijection(steps: seq<real>, stepMap: map<int, int>, reverseStepMap: map<int, int>)
    requires StepMapsOf(steps, stepMap, reverseStepMap)
    ensures stepMap.Keys == Floors(steps)
    ensures forall x :: x in stepMap ==> 1 <= stepMap[x] <= |Floors(steps)|
    ensures forall x, y :: x in stepMap && y in stepMap && x < y ==> stepMap[x] < stepMap[y]
    ensures stepMap.Values == Span(1, |Floors(steps)|)
  {
    var keys := Floors(steps);
    forall x | x in stepMap ensures 1 <= stepMap[x] <= |keys| {
      RankBounds(keys, x);
    }
    forall x, y | x in stepMap && y in stepMap && x < y ensures stepMap[x] < stepMap[y] {
      RankStrictlyMonotone(keys, x, y);
    }
    forall n | 1 <= n <= |keys| ensures n in stepMap.Values {
      assert n in reverseStepMap;
    }
  }

  /** The maps depend only on the set of integer parts: input order, duplicates and shared floors do not matter. */
  lemma StepMapsDependOnlyOnFloors(
    steps1: seq<real>, stepMap1: map<int, int>, reverse1: map<int, int>,
    steps2: seq<real>, stepMap2: map<int, int>, reverse2: map<int, int>)
    requires StepMapsOf(steps1, stepMap1, reverse1) && StepMapsOf(steps2, stepMap2, reverse2)
    requires Floors(steps1) == Floors(steps2)
    ensures stepMap1 == stepMap2 && reverse1 == reverse2
  {
    forall n | n in reverse1 ensures reverse1[n] == reverse2[n] {
      var x1, x2 := reverse1[n], reverse2[n];
      if x1 < x2 {
        RankStrictlyMonotone(Floors(steps1), x1, x2);
      } else if x2 < x1 {
        RankStrictlyMonotone(Floors(steps1), x2, x1);
      }
    }
  }

  /** Steps 1, 5, 5.1, 5.2 and 19 register the three click numbers 1, 5 and 19, numbered 1, 2, 3; 19.1 becomes 3.1. */
  lemma GapsAndDecimalsExample(stepMap: map<int, int>, reverseStepMap: map<int, int>)
    requires StepMapsOf([1.0, 5.0, 5.1, 5.2, 19.0], stepMap, reverseStepMap)
    ensures stepMap == map[1 := 1, 5 := 2, 19 := 3]
    ensures reverseStepMap == map[1 := 1, 2 := 5, 3 := 19]
    ensures GetNormalizedStep(19.1, stepMap) == 3.1
  {
    ExampleFloors();
    ExampleStepMap([1.0, 5.0, 5.1, 5.2, 19.0], stepMap, reverseStepMap);
    assert Span(1, 3) == {1, 2, 3};
    assert reverseStepMap[stepMap[1]] == 1 && reverseStepMap[stepMap[5]] == 5 && reverseStepMap[stepMap[19]] == 19;
    assert 19.1.Floor == 19;
  }

  lemma ExampleFloors()
    ensures Floors([1.0, 5.0, 5.1, 5.2, 19.0]) == {1, 5, 19}
  {
    var steps := [1.0, 5.0, 5.1, 5.2, 19.0];
    assert 5.1.Floor == 5 && 5.2.Floor == 5;
    assert steps[0] in steps && steps[1] in steps && steps[4] in steps;
  }

  lemma ExampleRanks()
    ensures (map x | x in {1, 5, 19} :: Rank({1, 5, 19}, x)) == map[1 := 1, 5 := 2, 19 := 3]
  {
    var keys := {1, 5, 19};
    assert Rank(keys, 1) == 1 by {
      assert (set y | y in keys && y < 1) == {};
    }
    assert Rank(keys, 5) == 2 by {
      assert (set y | y in keys && y < 5) == {1};
    }
    assert Rank(keys, 19) == 3 by {
      assert (set y | y in keys && y < 19) == {1, 5};
    }
  }

  lemma ExampleStepMap(steps: seq<real>, stepMap: map<int, int>, reverseStepMap: map<int, int>)
    requires Floors(steps) == {1, 5, 19}
    requires StepMapsOf(steps, stepMap, reverseStepMap)
    ensures stepMap == map[1 := 1, 5 := 2, 19 := 3]
  {
    ExampleRanks();
  }
}
