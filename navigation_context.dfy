/**
 * The navigation record of the presentation store and the pure transitions the
 * store's methods apply to it.
 *
 * Every store method in src/lib/stores/navigation.ts replaces the record through
 * an updater `(ctx) => newCtx`; the functions `AfterX` below are those updaters.
 * Each returns the new record together with what the method does on the side:
 * whether it writes the record to storage, and which route it navigates to.
 */
module NavigationContext {
  import opened Wrappers

  const STORAGE_KEY_PREFIX: string := "mbs-nav-"

  /** Where the viewer is: a presentation id, a slide index and a fragment (click) number. */
  datatype Position = Position(presentation: string, slide: nat, fragment: int)

  /** A drill stack entry: the position left behind, with the per-slide fragment positions of that presentation. */
  datatype Frame = Frame(at: Position, slideFragments: seq<int>)

  /** What a Fragment registers for a drillTo: the route, and whether the drill returns to its caller or auto-drills. */
  datatype DrillTargetInfo = DrillTargetInfo(target: string, returnHere: bool, autoDrill: bool)

  /** The part of the record written to storage. */
  datatype Snapshot = Snapshot(
    current: Position,
    stack: seq<Frame>,
    slideFragments: seq<int>,
    slideFragmentCounts: seq<int>,
    maxSlide: int)

  /**
   * The navigation record. Drill targets are keyed by (slide index, step); the
   * source's string key "slide:step" is injective on integer pairs, so the pair
   * stands for it.
   */
  datatype Context = Context(
    current: Position,
    stack: seq<Frame>,
    maxSlide: int,
    maxFragment: int,
    slideFragmentCounts: seq<int>,
    slideFragments: seq<int>,
    isReturningFromDrill: bool,
    drillTargets: map<(int, int), DrillTargetInfo>,
    returnHere: bool,
    autoDrillAll: bool,
    pendingAutoDrill: Option<DrillTargetInfo>,
    lastCompletedDrill: Option<string>)

  /** A record after an update, whether the update also persisted it, and the route it navigated to. */
  datatype Transition = Transition(ctx: Context, persists: bool, route: Option<string>)

  /** `arr[i] || 0`: the entry at i, or 0 past either end (holes read back as 0 as well). */
  function At(s: seq<int>, i: int): (r: int)
    ensures 0 <= i < |s| ==> r == s[i]
    ensures i < 0 || |s| <= i ==> r == 0
  {
    if 0 <= i < |s| then s[i] else 0
  }

  function Zeros(n: nat): (r: seq<int>)
    ensures |r| == n && forall i :: 0 <= i < n ==> r[i] == 0
  {
    seq(n, _ => 0)
  }

  /** `arr[i] = v` on a copy: writing past the end grows the array, and the hole reads back as 0. */
  function SetAt(s: seq<int>, i: nat, v: int): (r: seq<int>)
    ensures |r| == if i < |s| then |s| else i + 1
    ensures At(r, i) == v
    ensures forall j :: j != i ==> At(r, j) == At(s, j)
  {
    if i < |s| then s[i := v] else s + Zeros(i - |s|) + [v]
  }

  /** `Math.max(0, Math.min(v, hi))`. */
  function Clamp(v: int, hi: int): (r: nat)
    ensures 0 <= v <= hi ==> r == v
    ensures hi >= 0 ==> r <= hi
    ensures v <= 0 || hi <= 0 ==> r == 0
    ensures 0 <= hi < v ==> r == hi
  {
    if v <= 0 || hi <= 0 then 0 else if v <= hi then v else hi
  }

  /** The presentation's key: the prefix followed by the presentation id, which can be read back off the key. */
  function StorageKey(presentation: string): (k: string)
    ensures |k| == |STORAGE_KEY_PREFIX| + |presentation|
    ensures k[..|STORAGE_KEY_PREFIX|] == STORAGE_KEY_PREFIX && k[|STORAGE_KEY_PREFIX|..] == presentation
  {
    STORAGE_KEY_PREFIX + presentation
  }

  /** `getRoute(presentation)`: the route is the presentation id under the root. */
  function RouteForPresentation(presentation: string): (route: string)
    ensures |route| == |presentation| + 1 && route[0] == '/' && route[1..] == presentation
  {
    "/" + presentation
  }

  /** The stored autoDrillAll preference, true when none is stored. */
  function LoadAutoDrillAll(stored: Option<bool>): (r: bool)
    ensures !r <==> stored == Some(false)
  {
    if stored.Some? then stored.value else true
  }

  /** The record a store starts from, with the given autoDrillAll preference. */
  function Initial(autoDrillAll: bool): (c: Context)
    ensures c.current == Position("", 0, 0) && c.stack == []
    ensures c.drillTargets == map[] && c.pendingAutoDrill == None && c.lastCompletedDrill == None
    ensures c.autoDrillAll == autoDrillAll
  {
    Context(Position("", 0, 0), [], 0, 0, [], [], false, map[], false, autoDrillAll, None, None)
  }

  /** The presentation whose storage key holds the record: the drill origin when in a drill. */
  function RootPresentation(c: Context): string
  {
    if |c.stack| > 0 then c.stack[0].at.presentation else c.current.presentation
  }

  function SnapshotOf(c: Context): Snapshot
  {
    Snapshot(c.current, c.stack, c.slideFragments, c.slideFragmentCounts, c.maxSlide)
  }

  /** `persistState`: write the snapshot under the root's key, unless the root is empty. */
  function Persist(c: Context, storage: map<string, Snapshot>): (r: map<string, Snapshot>)
    ensures RootPresentation(c) == "" ==> r == storage
    ensures RootPresentation(c) != "" ==>
      r.Keys == storage.Keys + {StorageKey(RootPresentation(c))} && r[StorageKey(RootPresentation(c))] == SnapshotOf(c)
    ensures forall k :: k in storage && k != StorageKey(RootPresentation(c)) ==> r[k] == storage[k]
  {
    var root := RootPresentation(c);
    if root == "" then storage else storage[StorageKey(root) := SnapshotOf(c)]
  }

  /** The storage after a transition. */
  function Commit(t: Transition, storage: map<string, Snapshot>): map<string, Snapshot>
  {
    if t.persists then Persist(t.ctx, storage) else storage
  }

  function RoutesOf(t: Transition): seq<string>
  {
    if t.route.Some? then [t.route.value] else []
  }

  function Unchanged(c: Context): Transition
  {
    Transition(c, false, None)
  }

  /** The target registered at (slide, step) when it would auto-drill: autoDrillAll or its own autoDrill flag. */
  function Eligible(c: Context, slide: int, step: int): (r: Option<DrillTargetInfo>)
    ensures r.Some? <==> (slide, step) in c.drillTargets && (c.autoDrillAll || c.drillTargets[(slide, step)].autoDrill)
    ensures r.Some? ==> r.value == c.drillTargets[(slide, step)]
  {
    if (slide, step) in c.drillTargets && (c.autoDrillAll || c.drillTargets[(slide, step)].autoDrill)
    then Some(c.drillTargets[(slide, step)])
    else None
  }

  /** `init(presentation, slideFragmentCounts)`, reading the stored snapshot of the presentation. */
  function AfterInit(c: Context, presentation: string, counts: seq<int>, storage: map<string, Snapshot>): (r: Transition)
    ensures !r.ctx.isReturningFromDrill && r.route.None?
    ensures r.ctx.slideFragmentCounts == counts && r.ctx.maxSlide == |counts| - 1
    ensures r.ctx.maxFragment == At(counts, r.ctx.current.slide)
    ensures r.ctx.drillTargets == c.drillTargets && r.ctx.autoDrillAll == c.autoDrillAll
    ensures r.ctx.pendingAutoDrill == c.pendingAutoDrill && r.ctx.lastCompletedDrill == c.lastCompletedDrill
    ensures !r.persists ==> StorageKey(presentation) in storage && r.ctx.stack == storage[StorageKey(presentation)].stack
  {
    if c.isReturningFromDrill && c.current.presentation == presentation then
      var n := c.(isReturningFromDrill := false,
                  maxSlide := |counts| - 1,
                  slideFragmentCounts := counts,
                  slideFragments := if |c.slideFragments| > 0 then c.slideFragments else Zeros(|counts|),
                  maxFragment := At(counts, c.current.slide));
      Transition(n, true, None)
    else if StorageKey(presentation) in storage && |storage[StorageKey(presentation)].slideFragments| > 0 then
      var persisted := storage[StorageKey(presentation)];
      var isInDrillStack := |persisted.stack| > 0 && persisted.stack[0].at.presentation == presentation;
      var isDirectMatch := persisted.current.presentation == presentation;
      if isInDrillStack && !isDirectMatch then
        var origin := persisted.stack[0].at;
        var n := c.(isReturningFromDrill := false,
                    current := Position(presentation, origin.slide, origin.fragment),
                    stack := [],
                    maxSlide := |counts| - 1,
                    maxFragment := At(counts, origin.slide),
                    slideFragmentCounts := counts,
                    slideFragments := persisted.slideFragments);
        Transition(n, true, None)
      else
        var n := c.(isReturningFromDrill := false,
                    current := persisted.current,
                    stack := persisted.stack,
                    maxSlide := |counts| - 1,
                    maxFragment := At(counts, persisted.current.slide),
                    slideFragmentCounts := counts,
                    slideFragments := persisted.slideFragments);
        Transition(n, false, None)
    else
      var n := c.(isReturningFromDrill := false,
                  current := Position(presentation, 0, 0),
                  maxSlide := |counts| - 1,
                  maxFragment := At(counts, 0),
                  slideFragmentCounts := counts,
                  slideFragments := Zeros(|counts|));
      Transition(n, true, None)
  }

  /** `setMaxFragment(max)`: a drill is one slide of `max` fragments. */
  function AfterSetMaxFragment(c: Context, max: int): (r: Context)
    ensures r.maxSlide == 0 && r.maxFragment == max && r.slideFragmentCounts == [max]
    ensures r == c.(maxFragment := r.maxFragment, maxSlide := r.maxSlide, slideFragmentCounts := r.slideFragmentCounts)
  {
    c.(maxFragment := max, maxSlide := 0, slideFragmentCounts := [max])
  }

  /** `registerDrillTarget(slide, step, ...)`: the table gains the key; any earlier entry under it is replaced. */
  function AfterRegisterDrillTarget(c: Context, slide: int, step: int, info: DrillTargetInfo): (r: Context)
    ensures r.drillTargets.Keys == c.drillTargets.Keys + {(slide, step)} && r.drillTargets[(slide, step)] == info
    ensures forall k :: k in c.drillTargets && k != (slide, step) ==> r.drillTargets[k] == c.drillTargets[k]
    ensures r == c.(drillTargets := r.drillTargets)
  {
    c.(drillTargets := c.drillTargets[(slide, step) := info])
  }

  /** `unregisterDrillTarget(slide, step)`. */
  function AfterUnregisterDrillTarget(c: Context, slide: int, step: int): (r: Context)
    ensures r.drillTargets.Keys == c.drillTargets.Keys - {(slide, step)}
    ensures forall k :: k in r.drillTargets ==> r.drillTargets[k] == c.drillTargets[k]
    ensures r == c.(drillTargets := r.drillTargets)
  {
    c.(drillTargets := c.drillTargets - {(slide, step)})
  }

  /** `clearDrillTargets()`. */
  function AfterClearDrillTargets(c: Context): (r: Context)
    ensures r.drillTargets == map[] && r == c.(drillTargets := r.drillTargets)
  {
    c.(drillTargets := map[])
  }

  /** `checkAutoDrillAtCurrentPosition(slide, step)`. */
  function AfterCheckAutoDrill(c: Context, slide: int, step: int): (r: Context)
    ensures r == c.(pendingAutoDrill := r.pendingAutoDrill)
    ensures r.pendingAutoDrill != c.pendingAutoDrill ==>
      r.pendingAutoDrill == Eligible(c, slide, step) && (slide, step) == (c.current.slide, c.current.fragment)
  {
    if c.isReturningFromDrill then c
    else if c.current.slide != slide || c.current.fragment != step then c
    else if (slide, step) in c.drillTargets && c.lastCompletedDrill == Some(c.drillTargets[(slide, step)].target) then c
    else if Eligible(c, slide, step).Some? then c.(pendingAutoDrill := Eligible(c, slide, step))
    else c
  }

  /** `drillInto(target, startFragment, returnHere)`: push the current position and enter the target. */
  function AfterDrillInto(c: Context, target: string, startFragment: int, returnHere: bool): (r: Transition)
    ensures r.ctx.stack == c.stack + [Frame(c.current, c.slideFragments)]
    ensures r.ctx.current == Position(target, 0, startFragment) && r.ctx.returnHere == returnHere
    ensures r.ctx.drillTargets == map[] && r.ctx.pendingAutoDrill == None
    ensures r.persists && r.route == Some(RouteForPresentation(target))
  {
    var n := c.(stack := c.stack + [Frame(c.current, c.slideFragments)],
                current := Position(target, 0, startFragment),
                maxSlide := 0,
                maxFragment := 0,
                slideFragmentCounts := [],
                drillTargets := map[],
                returnHere := returnHere,
                pendingAutoDrill := None);
    Transition(n, true, Some(RouteForPresentation(target)))
  }

  /** `returnFromDrill(returnToOrigin)`: pop one frame, or all of them, and restore the frame popped last. */
  function AfterReturnFromDrill(c: Context, returnToOrigin: bool): (r: Transition)
    ensures |c.stack| == 0 ==> r == Unchanged(c)
    ensures |c.stack| > 0 ==>
      && |r.ctx.stack| == (if returnToOrigin then 0 else |c.stack| - 1)
      && r.ctx.stack == c.stack[..|r.ctx.stack|]
      && r.ctx.current == c.stack[|r.ctx.stack|].at
      && r.ctx.slideFragments == c.stack[|r.ctx.stack|].slideFragments
      && r.ctx.lastCompletedDrill == Some(c.current.presentation)
      && r.ctx.isReturningFromDrill
      && r.persists && r.route == Some(RouteForPresentation(r.ctx.current.presentation))
  {
    if |c.stack| == 0 then Unchanged(c)
    else
      var popCount := if returnToOrigin then |c.stack| else 1;
      var frame := c.stack[|c.stack| - popCount];
      var n := c.(stack := c.stack[..|c.stack| - popCount],
                  current := frame.at,
                  slideFragments := frame.slideFragments,
                  isReturningFromDrill := true,
                  drillTargets := map[],
                  pendingAutoDrill := None,
                  lastCompletedDrill := Some(c.current.presentation),
                  maxSlide := 0,
                  maxFragment := 0,
                  slideFragmentCounts := []);
      Transition(n, true, Some(RouteForPresentation(frame.at.presentation)))
  }

  /** `next()`: run a staged drill, else advance a fragment, else a slide, else drill, return or stay. */
  function AfterNext(c: Context): (r: Transition)
    ensures r.ctx.autoDrillAll == c.autoDrillAll
    ensures !r.persists ==> r == Unchanged(c)
    ensures r.route.None? ==> r.ctx.stack == c.stack && r.ctx.current.presentation == c.current.presentation
    ensures r.route.None? && r.persists ==>
      r.ctx.current.slide == c.current.slide + 1 ||
      (r.ctx.current.slide == c.current.slide && r.ctx.current.fragment == c.current.fragment + 1)
    ensures r.route.Some? ==> |r.ctx.stack| == |c.stack| + 1 || |r.ctx.stack| < |c.stack|
  {
    if c.pendingAutoDrill.Some? then
      var pending := c.pendingAutoDrill.value;
      AfterDrillInto(c.(pendingAutoDrill := None), pending.target, 0, pending.returnHere)
    else if c.current.fragment < c.maxFragment then
      var f := c.current.fragment + 1;
      var n := c.(current := c.current.(fragment := f),
                  slideFragments := SetAt(c.slideFragments, c.current.slide, f),
                  pendingAutoDrill := Eligible(c, c.current.slide, f),
                  lastCompletedDrill := None);
      Transition(n, true, None)
    else if c.current.slide < c.maxSlide then
      var s := c.current.slide + 1;
      var n := c.(current := c.current.(slide := s, fragment := 0),
                  maxFragment := At(c.slideFragmentCounts, s),
                  pendingAutoDrill := Eligible(c, s, 0),
                  lastCompletedDrill := None);
      Transition(n, true, None)
    else
      var here := Eligible(c, c.current.slide, c.maxFragment);
      if here.Some? then AfterDrillInto(c, here.value.target, 0, here.value.returnHere)
      else if |c.stack| > 0 then AfterReturnFromDrill(c, !c.returnHere)
      else Unchanged(c)
  }

  /** `prev()`: back one fragment, else to the previous slide at its remembered fragment; persists even when it stays. */
  function AfterPrev(c: Context): (r: Transition)
    ensures r.persists && r.route.None?
    ensures r.ctx.stack == c.stack && r.ctx.drillTargets == c.drillTargets && r.ctx.current.presentation == c.current.presentation
    ensures r.ctx.current.slide <= c.current.slide
    ensures r.ctx.current == c.current <==> c.current.slide == 0 && c.current.fragment <= 0
  {
    if c.current.fragment > 0 then
      var f := c.current.fragment - 1;
      var n := c.(current := c.current.(fragment := f),
                  slideFragments := SetAt(c.slideFragments, c.current.slide, f),
                  pendingAutoDrill := None);
      Transition(n, true, None)
    else if c.current.slide > 0 then
      var s := c.current.slide - 1;
      var n := c.(current := c.current.(slide := s, fragment := At(c.slideFragments, s)),
                  maxFragment := At(c.slideFragmentCounts, s),
                  pendingAutoDrill := None);
      Transition(n, true, None)
    else
      Transition(c, true, None)
  }

  /** `goToFragment(fragment)`. */
  function AfterGoToFragment(c: Context, fragment: int): (r: Transition)
    ensures 0 <= r.ctx.current.fragment && (c.maxFragment >= 0 ==> r.ctx.current.fragment <= c.maxFragment)
    ensures 0 <= fragment <= c.maxFragment ==> r.ctx.current.fragment == fragment
    ensures r.ctx.current.slide == c.current.slide && r.ctx.slideFragments == c.slideFragments && r.ctx.stack == c.stack
    ensures r.ctx.pendingAutoDrill == None && r.persists && r.route.None?
  {
    var n := c.(current := c.current.(fragment := Clamp(fragment, c.maxFragment)),
                pendingAutoDrill := None);
    Transition(n, true, None)
  }

  /** `goToSlide(slide)`: jump to the clamped slide at its remembered fragment. */
  function AfterGoToSlide(c: Context, slide: int): (r: Transition)
    ensures c.maxSlide >= 0 ==> r.ctx.current.slide <= c.maxSlide
    ensures 0 <= slide <= c.maxSlide ==> r.ctx.current.slide == slide
    ensures r.ctx.current.fragment == At(c.slideFragments, r.ctx.current.slide)
    ensures r.ctx.maxFragment == At(c.slideFragmentCounts, r.ctx.current.slide)
    ensures r.ctx.stack == c.stack && r.ctx.pendingAutoDrill == None && r.persists && r.route.None?
  {
    var s := Clamp(slide, c.maxSlide);
    var n := c.(current := c.current.(slide := s, fragment := At(c.slideFragments, s)),
                maxFragment := At(c.slideFragmentCounts, s),
                pendingAutoDrill := None);
    Transition(n, true, None)
  }

  /** `setAutoDrillAll(value)`: turning it off inside a drill first returns to the origin. */
  function AfterSetAutoDrillAll(c: Context, value: bool): (r: Transition)
    ensures r.ctx.autoDrillAll == value
    ensures value || |c.stack| == 0 ==> r == Transition(c.(autoDrillAll := value), false, None)
    ensures !value && |c.stack| > 0 ==> r.ctx.stack == [] && r.ctx.current == c.stack[0].at && r.persists
  {
    var t := if !value && |c.stack| > 0 then AfterReturnFromDrill(c, true) else Unchanged(c);
    Transition(t.ctx.(autoDrillAll := value), t.persists, t.route)
  }

  /** `clearPersistedState(presentation)`: drop one key, or every key under the prefix when none is named. */
  function ClearPersisted(storage: map<string, Snapshot>, presentation: Option<string>): (r: map<string, Snapshot>)
    ensures r.Keys <= storage.Keys && forall k :: k in r ==> r[k] == storage[k]
    ensures presentation.Some? && presentation.value != "" ==> r.Keys == storage.Keys - {StorageKey(presentation.value)}
    ensures presentation.None? || presentation.value == "" ==>
      forall k :: k in storage ==> (k in r <==> !(|STORAGE_KEY_PREFIX| <= |k| && k[..|STORAGE_KEY_PREFIX|] == STORAGE_KEY_PREFIX))
  {
    if presentation.Some? && presentation.value != "" then storage - {StorageKey(presentation.value)}
    else map k | k in storage && !(|STORAGE_KEY_PREFIX| <= |k| && k[..|STORAGE_KEY_PREFIX|] == STORAGE_KEY_PREFIX) :: storage[k]
  }
}
