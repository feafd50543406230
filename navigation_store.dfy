/**
 * The navigation store of src/lib/stores/navigation.ts as a mutable object.
 *
 * Like the source's writable store, the object holds one navigation record,
 * `ctx`, that every method replaces with an updated copy. `storage` stands for
 * the browser's localStorage entries under "mbs-nav-<presentation>",
 * `storedAutoDrillAll` for the "mbs-drillto" entry, and the ghost `routes`
 * records every route handed to the router, in order.
 *
 * Every method states its effect as the pure transition of the same name in
 * NavigationContext: the new record, the new storage and the routes visited.
 */
module NavigationStore {
  import opened Wrappers
  import opened NavigationContext

  class Store {
    var ctx: Context
    var storage: map<string, Snapshot>
    var storedAutoDrillAll: Option<bool>
    ghost var routes: seq<string>

    /** The record the store was created with; `clearPresentation` goes back to it. */
    const initial: Context

    /** The store now holds the outcome of `t` applied from the given storage and route log. */
    ghost predicate Took(t: Transition, storage0: map<string, Snapshot>, routes0: seq<string>)
      reads this
    {
      ctx == t.ctx && storage == Commit(t, storage0) && routes == routes0 + RoutesOf(t)
    }

    constructor(storage: map<string, Snapshot>, storedAutoDrillAll: Option<bool>)
      ensures ctx == Initial(LoadAutoDrillAll(storedAutoDrillAll)) && initial == ctx
      ensures this.storage == storage && this.storedAutoDrillAll == storedAutoDrillAll && routes == []
    {
      ctx := Initial(LoadAutoDrillAll(storedAutoDrillAll));
      initial := Initial(LoadAutoDrillAll(storedAutoDrillAll));
      this.storage := storage;
      this.storedAutoDrillAll := storedAutoDrillAll;
      routes := [];
    }

    /** `persistState` on the current record. */
    method PersistState()
      modifies this
      ensures storage == Persist(ctx, old(storage))
      ensures ctx == old(ctx) && storedAutoDrillAll == old(storedAutoDrillAll) && routes == old(routes)
    {
      storage := Persist(ctx, storage);
    }

    /** `goto(route)`: only the route is recorded. */
    ghost method Goto(route: string)
      modifies this
      ensures routes == old(routes) + [route]
      ensures ctx == old(ctx) && storage == old(storage) && storedAutoDrillAll == old(storedAutoDrillAll)
    {
      routes := routes + [route];
    }

    method Init(presentation: string, slideFragmentCounts: seq<int> := [0])
      modifies this
      ensures Took(AfterInit(old(ctx), presentation, slideFragmentCounts, old(storage)), old(storage), old(routes))
      ensures storedAutoDrillAll == old(storedAutoDrillAll)
    {
      var t := AfterInit(ctx, presentation, slideFragmentCounts, storage);
      ctx := t.ctx;
      if t.persists {
        PersistState();
      }
    }

    method SetMaxFragment(max: int)
      modifies this
      ensures ctx == AfterSetMaxFragment(old(ctx), max)
      ensures storage == old(storage) && storedAutoDrillAll == old(storedAutoDrillAll) && routes == old(routes)
    {
      ctx := ctx.(maxFragment := max, maxSlide := 0, slideFragmentCounts := [max]);
    }

    method RegisterDrillTarget(slideIndex: int, step: int, target: string, returnHere: bool := false, autoDrill: bool := false)
      modifies this
      ensures ctx == AfterRegisterDrillTarget(old(ctx), slideIndex, step, DrillTargetInfo(target, returnHere, autoDrill))
      ensures storage == old(storage) && storedAutoDrillAll == old(storedAutoDrillAll) && routes == old(routes)
    {
      ctx := ctx.(drillTargets := ctx.drillTargets[(slideIndex, step) := DrillTargetInfo(target, returnHere, autoDrill)]);
    }

    method CheckAutoDrillAtCurrentPosition(slideIndex: int, step: int)
      modifies this
      ensures ctx == AfterCheckAutoDrill(old(ctx), slideIndex, step)
      ensures storage == old(storage) && storedAutoDrillAll == old(storedAutoDrillAll) && routes == old(routes)
    {
      if ctx.isReturningFromDrill {
        return;
      }
      if ctx.current.slide != slideIndex || ctx.current.fragment != step {
        return;
      }
      var key := (slideIndex, step);
      if key in ctx.drillTargets && ctx.lastCompletedDrill == Some(ctx.drillTargets[key].target) {
        return;
      }
      if key in ctx.drillTargets && (ctx.autoDrillAll || ctx.drillTargets[key].autoDrill) {
        ctx := ctx.(pendingAutoDrill := Some(ctx.drillTargets[key]));
      }
    }

    method UnregisterDrillTarget(slideIndex: int, step: int)
      modifies this
      ensures ctx == AfterUnregisterDrillTarget(old(ctx), slideIndex, step)
      ensures storage == old(storage) && storedAutoDrillAll == old(storedAutoDrillAll) && routes == old(routes)
    {
      ctx := ctx.(drillTargets := ctx.drillTargets - {(slideIndex, step)});
    }

    method ClearDrillTargets()
      modifies this
      ensures ctx == AfterClearDrillTargets(old(ctx))
      ensures storage == old(storage) && storedAutoDrillAll == old(storedAutoDrillAll) && routes == old(routes)
    {
      ctx := ctx.(drillTargets := map[]);
    }

    method Next()
      modifies this
      ensures Took(AfterNext(old(ctx)), old(storage), old(routes))
      ensures storedAutoDrillAll == old(storedAutoDrillAll)
    {
      if ctx.pendingAutoDrill.Some? {
        var pending := ctx.pendingAutoDrill.value;
        ctx := ctx.(pendingAutoDrill := None);
        DrillInto(pending.target, 0, pending.returnHere);
      } else if ctx.current.fragment < ctx.maxFragment {
        var newFragment := ctx.current.fragment + 1;
        ctx := ctx.(current := ctx.current.(fragment := newFragment),
                    slideFragments := SetAt(ctx.slideFragments, ctx.current.slide, newFragment),
                    pendingAutoDrill := Eligible(ctx, ctx.current.slide, newFragment),
                    lastCompletedDrill := None);
        PersistState();
      } else if ctx.current.slide < ctx.maxSlide {
        var nextSlide := ctx.current.slide + 1;
        ctx := ctx.(current := ctx.current.(slide := nextSlide, fragment := 0),
                    maxFragment := At(ctx.slideFragmentCounts, nextSlide),
                    pendingAutoDrill := Eligible(ctx, nextSlide, 0),
                    lastCompletedDrill := None);
        PersistState();
      } else {
        var drillInfo := Eligible(ctx, ctx.current.slide, ctx.maxFragment);
        if drillInfo.Some? {
          DrillInto(drillInfo.value.target, 0, drillInfo.value.returnHere);
        } else if |ctx.stack| > 0 {
          ReturnFromDrill(!ctx.returnHere);
        }
      }
    }

    method Prev()
      modifies this
      ensures Took(AfterPrev(old(ctx)), old(storage), old(routes))
      ensures storedAutoDrillAll == old(storedAutoDrillAll)
    {
      if ctx.current.fragment > 0 {
        var newFragment := ctx.current.fragment - 1;
        ctx := ctx.(current := ctx.current.(fragment := newFragment),
                    slideFragments := SetAt(ctx.slideFragments, ctx.current.slide, newFragment),
                    pendingAutoDrill := None);
      } else if ctx.current.slide > 0 {
        var prevSlide := ctx.current.slide - 1;
        ctx := ctx.(current := ctx.current.(slide := prevSlide, fragment := At(ctx.slideFragments, prevSlide)),
                    maxFragment := At(ctx.slideFragmentCounts, prevSlide),
                    pendingAutoDrill := None);
      }
      PersistState();
    }

    method GoToFragment(fragment: int)
      modifies this
      ensures Took(AfterGoToFragment(old(ctx), fragment), old(storage), old(routes))
      ensures storedAutoDrillAll == old(storedAutoDrillAll)
    {
      ctx := ctx.(current := ctx.current.(fragment := Clamp(fragment, ctx.maxFragment)), pendingAutoDrill := None);
      PersistState();
    }

    method GoToSlide(slide: int)
      modifies this
      ensures Took(AfterGoToSlide(old(ctx), slide), old(storage), old(routes))
      ensures storedAutoDrillAll == old(storedAutoDrillAll)
    {
      var targetSlide := Clamp(slide, ctx.maxSlide);
      ctx := ctx.(current := ctx.current.(slide := targetSlide, fragment := At(ctx.slideFragments, targetSlide)),
                  maxFragment := At(ctx.slideFragmentCounts, targetSlide),
                  pendingAutoDrill := None);
      PersistState();
    }

    method DrillInto(target: string, startFragment: int := 0, returnHere: bool := false)
      modifies this
      ensures Took(AfterDrillInto(old(ctx), target, startFragment, returnHere), old(storage), old(routes))
      ensures storedAutoDrillAll == old(storedAutoDrillAll)
    {
      var stateToSave := Frame(ctx.current, ctx.slideFragments);
      ctx := ctx.(stack := ctx.stack + [stateToSave],
                  current := Position(target, 0, startFragment),
                  maxSlide := 0,
                  maxFragment := 0,
                  slideFragmentCounts := [],
                  drillTargets := map[],
                  returnHere := returnHere,
                  pendingAutoDrill := None);
      PersistState();
      Goto(RouteForPresentation(target));
    }

    method ReturnFromDrill(returnToOrigin: bool := false)
      modifies this
      ensures Took(AfterReturnFromDrill(old(ctx), returnToOrigin), old(storage), old(routes))
      ensures storedAutoDrillAll == old(storedAutoDrillAll)
    {
      if |ctx.stack| == 0 {
        return;
      }
      var popCount := if returnToOrigin then |ctx.stack| else 1;
      var returnState := ctx.stack[|ctx.stack| - popCount];
      var completedDrill := ctx.current.presentation;
      ctx := ctx.(stack := ctx.stack[..|ctx.stack| - popCount],
                  current := returnState.at,
                  slideFragments := returnState.slideFragments,
                  isReturningFromDrill := true,
                  drillTargets := map[],
                  pendingAutoDrill := None,
                  lastCompletedDrill := Some(completedDrill),
                  maxSlide := 0,
                  maxFragment := 0,
                  slideFragmentCounts := []);
      PersistState();
      Goto(RouteForPresentation(returnState.at.presentation));
    }

    method ClearPresentation(presentation: Option<string>)
      modifies this
      ensures ctx == initial
      ensures storage == ClearPersisted(old(storage), presentation)
      ensures storedAutoDrillAll == old(storedAutoDrillAll) && routes == old(routes)
    {
      storage := ClearPersisted(storage, presentation);
      ctx := initial;
    }

    /** `canReturn`: whether a return from a drill would do anything. */
    function CanReturn(): (r: bool)
      reads this
      ensures r <==> GetStackDepth() > 0
      ensures forall returnToOrigin: bool :: r <==> AfterReturnFromDrill(ctx, returnToOrigin) != Unchanged(ctx)
    {
      |ctx.stack| > 0
    }

    /** `stackDepth`: the number of saved positions, one fewer after each single-level return. */
    function GetStackDepth(): (r: nat)
      reads this
      ensures r == |ctx.stack|
      ensures r > 0 ==> |AfterReturnFromDrill(ctx, false).ctx.stack| == r - 1
      ensures |AfterReturnFromDrill(ctx, true).ctx.stack| == 0
    {
      |ctx.stack|
    }

    /** `getAutoDrillAll()`: when on, every registered target is eligible to auto-drill. */
    function GetAutoDrillAll(): (r: bool)
      reads this
      ensures r == ctx.autoDrillAll
      ensures r ==> forall slide, step :: (slide, step) in ctx.drillTargets ==> Eligible(ctx, slide, step).Some?
    {
      ctx.autoDrillAll
    }

    method SetAutoDrillAll(value: bool)
      modifies this
      ensures Took(AfterSetAutoDrillAll(old(ctx), value), old(storage), old(routes))
      ensures storedAutoDrillAll == Some(value) && GetAutoDrillAll() == value
    {
      if !value && |ctx.stack| > 0 {
        ReturnFromDrill(true);
      }
      storedAutoDrillAll := Some(value);
      ctx := ctx.(autoDrillAll := value);
    }

    method Reset()
      modifies this
      ensures ctx == Initial(LoadAutoDrillAll(old(storedAutoDrillAll)))
      ensures storage == old(storage) && storedAutoDrillAll == old(storedAutoDrillAll) && routes == old(routes)
    {
      ctx := Initial(LoadAutoDrillAll(storedAutoDrillAll));
    }
  }
}
