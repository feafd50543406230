/** What the navigation store's transitions promise, stated over NavigationContext. */
module NavigationProperties {
  import opened Wrappers
  import opened NavigationContext

  // ---------------------------------------------------------------- next

  /** Inside a slide, `next` shows one more fragment, remembers it for the slide, and stages an eligible drill target. */
  lemma NextWithinSlide(c: Context)
    requires c.pendingAutoDrill.None? && c.current.fragment < c.maxFragment
    ensures var t := AfterNext(c);
            var f := c.current.fragment + 1;
            var key := (c.current.slide, f);
            && t.persists && t.route == None
            && t.ctx.current == Position(c.current.presentation, c.current.slide, f)
            && At(t.ctx.slideFragments, c.current.slide) == f
            && (forall i :: i != c.current.slide ==> At(t.ctx.slideFragments, i) == At(c.slideFragments, i))
            && t.ctx.lastCompletedDrill == None
            && (t.ctx.pendingAutoDrill.Some? <==> key in c.drillTargets && (c.autoDrillAll || c.drillTargets[key].autoDrill))
            && (t.ctx.pendingAutoDrill.Some? ==> t.ctx.pendingAutoDrill.value == c.drillTargets[key])
            && t.ctx.stack == c.stack && t.ctx.maxFragment == c.maxFragment && t.ctx.drillTargets == c.drillTargets
  {
  }

  /** At the end of a slide that is not the last, `next` opens the following slide at fragment 0 and stages its step-0 target. */
  lemma NextAdvancesSlide(c: Context)
    requires c.pendingAutoDrill.None? && c.current.fragment >= c.maxFragment && c.current.slide < c.maxSlide
    ensures var t := AfterNext(c);
            var s := c.current.slide + 1;
            && t.persists && t.route == None
            && t.ctx.current == Position(c.current.presentation, s, 0)
            && t.ctx.maxFragment == At(c.slideFragmentCounts, s)
            && (t.ctx.pendingAutoDrill.Some? <==> (s, 0) in c.drillTargets && (c.autoDrillAll || c.drillTargets[(s, 0)].autoDrill))
            && (t.ctx.pendingAutoDrill.Some? ==> t.ctx.pendingAutoDrill.value == c.drillTargets[(s, 0)])
            && t.ctx.lastCompletedDrill == None
            && t.ctx.slideFragments == c.slideFragments && t.ctx.stack == c.stack && t.ctx.drillTargets == c.drillTargets
  {
  }

  /** A staged drill is all `next` does: it drills into the staged target at fragment 0, never anything else. */
  lemma PendingDrillRunsOnNext(c: Context)
    requires c.pendingAutoDrill.Some?
    ensures var t := AfterNext(c);
            var info := c.pendingAutoDrill.value;
            && t.ctx.stack == c.stack + [Frame(c.current, c.slideFragments)]
            && t.ctx.current == Position(info.target, 0, 0)
            && t.ctx.returnHere == info.returnHere
            && t.ctx.pendingAutoDrill == None
            && t.persists && t.route == Some(RouteForPresentation(info.target))
  {
  }

  /** A drill staged by one `next` leaves the viewer on the new fragment; the following `next` runs it. */
  lemma StagedDrillRunsOnFollowingNext(c: Context)
    requires c.pendingAutoDrill.None? && c.current.fragment < c.maxFragment
    requires Eligible(c, c.current.slide, c.current.fragment + 1).Some?
    ensures var t1 := AfterNext(c);
            var t2 := AfterNext(t1.ctx);
            var info := c.drillTargets[(c.current.slide, c.current.fragment + 1)];
            && t1.route == None && t1.ctx.stack == c.stack
            && t1.ctx.current == c.current.(fragment := c.current.fragment + 1)
            && t2.ctx.stack == c.stack + [Frame(t1.ctx.current, t1.ctx.slideFragments)]
            && t2.ctx.current == Position(info.target, 0, 0)
            && t2.ctx.returnHere == info.returnHere
            && t2.route == Some(RouteForPresentation(info.target))
  {
    NextWithinSlide(c);
    PendingDrillRunsOnNext(AfterNext(c).ctx);
  }

  /**
   * At the last fragment of the last slide, `next` drills at once into an eligible
   * target there; otherwise, inside a drill, it returns (to the caller when the
   * drill was entered with returnHere, else to the origin); otherwise nothing happens.
   */
  lemma NextAtEnd(c: Context)
    requires c.pendingAutoDrill.None? && c.current.fragment >= c.maxFragment && c.current.slide >= c.maxSlide
    ensures var t := AfterNext(c);
            var here := Eligible(c, c.current.slide, c.maxFragment);
            && (here.Some? ==>
                  && t.ctx.stack == c.stack + [Frame(c.current, c.slideFragments)]
                  && t.ctx.current == Position(here.value.target, 0, 0)
                  && t.ctx.returnHere == here.value.returnHere
                  && t.route == Some(RouteForPresentation(here.value.target)))
            && (here.None? && |c.stack| > 0 && c.returnHere ==>
                  && t.ctx.stack == c.stack[..|c.stack| - 1]
                  && t.ctx.current == c.stack[|c.stack| - 1].at
                  && t.route == Some(RouteForPresentation(c.stack[|c.stack| - 1].at.presentation)))
            && (here.None? && |c.stack| > 0 && !c.returnHere ==>
                  && t.ctx.stack == []
                  && t.ctx.current == c.stack[0].at
                  && t.route == Some(RouteForPresentation(c.stack[0].at.presentation)))
            && (here.None? && |c.stack| == 0 ==> t.ctx == c && !t.persists && t.route == None)
  {
  }

  // ---------------------------------------------------------------- prev

  /** Inside a slide, `prev` hides one fragment, remembers the position for the slide and drops any staged drill. */
  lemma PrevWithinSlide(c: Context)
    requires c.current.fragment > 0
    ensures var t := AfterPrev(c);
            var f := c.current.fragment - 1;
            && t.persists && t.route == None
            && t.ctx.current == c.current.(fragment := f)
            && At(t.ctx.slideFragments, c.current.slide) == f
            && (forall i :: i != c.current.slide ==> At(t.ctx.slideFragments, i) == At(c.slideFragments, i))
            && t.ctx.pendingAutoDrill == None
            && t.ctx.stack == c.stack && t.ctx.maxFragment == c.maxFragment
  {
  }

  /** At fragment 0, `prev` opens the previous slide at the fragment remembered for it. */
  lemma PrevToPreviousSlide(c: Context)
    requires c.current.fragment <= 0 && c.current.slide > 0
    ensures var t := AfterPrev(c);
            var s := c.current.slide - 1;
            && t.persists && t.route == None
            && t.ctx.current == Position(c.current.presentation, s, At(c.slideFragments, s))
            && t.ctx.maxFragment == At(c.slideFragmentCounts, s)
            && t.ctx.pendingAutoDrill == None
            && t.ctx.slideFragments == c.slideFragments && t.ctx.stack == c.stack
  {
  }

  /** At the very start, `prev` keeps the record as it is, staged drill included, and still persists it. */
  lemma PrevAtStartKeepsRecord(c: Context)
    requires c.current.fragment <= 0 && c.current.slide == 0
    ensures AfterPrev(c).ctx == c && AfterPrev(c).persists && AfterPrev(c).route == None
  {
  }

  /** `prev` undoes a `next` inside a slide: same position, and the slide's remembered fragment is the one shown. */
  lemma NextThenPrevWithinSlide(c: Context)
    requires c.pendingAutoDrill.None? && 0 <= c.current.fragment < c.maxFragment
    ensures var n := AfterPrev(AfterNext(c).ctx).ctx;
            && n.current == c.current
            && At(n.slideFragments, c.current.slide) == c.current.fragment
            && (forall i :: i != c.current.slide ==> At(n.slideFragments, i) == At(c.slideFragments, i))
            && n.pendingAutoDrill == None && n.stack == c.stack
  {
    NextWithinSlide(c);
    PrevWithinSlide(AfterNext(c).ctx);
  }

  // ---------------------------------------------------------------- jumps

  /** `goToFragment` lands inside [0, maxFragment], exactly on the request when it is in range, and keeps slideFragments. */
  lemma GoToFragmentClamps(c: Context, fragment: int)
    ensures var t := AfterGoToFragment(c, fragment);
            var f := t.ctx.current.fragment;
            && 0 <= f && (c.maxFragment >= 0 ==> f <= c.maxFragment)
            && (0 <= fragment <= c.maxFragment ==> f == fragment)
            && (fragment < 0 ==> f == 0)
            && (fragment > c.maxFragment >= 0 ==> f == c.maxFragment)
            && t.ctx.current.slide == c.current.slide && t.ctx.current.presentation == c.current.presentation
            && t.ctx.slideFragments == c.slideFragments
            && t.ctx.pendingAutoDrill == None && t.persists && t.route == None
  {
  }

  lemma GoToFragmentIdempotent(c: Context, fragment: int)
    ensures var once := AfterGoToFragment(c, fragment).ctx;
            AfterGoToFragment(once, fragment).ctx == once
  {
  }

  /** `goToSlide` lands inside [0, maxSlide], exactly on the request when in range, at the slide's remembered fragment. */
  lemma GoToSlideClamps(c: Context, slide: int)
    ensures var t := AfterGoToSlide(c, slide);
            var s := t.ctx.current.slide;
            && (c.maxSlide >= 0 ==> s <= c.maxSlide)
            && (0 <= slide <= c.maxSlide ==> s == slide)
            && (slide < 0 ==> s == 0)
            && (slide > c.maxSlide >= 0 ==> s == c.maxSlide)
            && t.ctx.current.fragment == At(c.slideFragments, s)
            && t.ctx.maxFragment == At(c.slideFragmentCounts, s)
            && t.ctx.slideFragments == c.slideFragments && t.ctx.stack == c.stack
            && t.ctx.pendingAutoDrill == None && t.persists && t.route == None
  {
  }

  lemma GoToSlideIdempotent(c: Context, slide: int)
    ensures var once := AfterGoToSlide(c, slide).ctx;
            AfterGoToSlide(once, slide).ctx == once
  {
  }

  /** Leaving a slide with `goToSlide` and coming back restores the fragment it was left at, when that was remembered. */
  lemma GoToSlideAndBackRestoresFragment(c: Context, other: int)
    requires 0 <= c.current.slide <= c.maxSlide
    requires At(c.slideFragments, c.current.slide) == c.current.fragment
    ensures var away := AfterGoToSlide(c, other).ctx;
            var back := AfterGoToSlide(away, c.current.slide).ctx;
            back.current == c.current && back.slideFragments == c.slideFragments
  {
  }

  // ---------------------------------------------------------------- drill stack

  /** `drillInto` pushes the current position with its slideFragments and enters the target with empty bounds and targets. */
  lemma DrillIntoPushes(c: Context, target: string, startFragment: int, returnHere: bool)
    ensures var t := AfterDrillInto(c, target, startFragment, returnHere);
            && |t.ctx.stack| == |c.stack| + 1
            && t.ctx.stack[..|c.stack|] == c.stack
            && t.ctx.stack[|c.stack|] == Frame(c.current, c.slideFragments)
            && t.ctx.current == Position(target, 0, startFragment)
            && t.ctx.maxSlide == 0 && t.ctx.maxFragment == 0 && t.ctx.slideFragmentCounts == []
            && t.ctx.drillTargets == map[] && t.ctx.returnHere == returnHere && t.ctx.pendingAutoDrill == None
            && t.persists && t.route == Some("/" + target)
  {
  }

  /** `returnFromDrill(false)` pops one frame and `returnFromDrill(true)` all of them, restoring the frame popped last. */
  lemma ReturnFromDrillPops(c: Context, returnToOrigin: bool)
    requires |c.stack| > 0
    ensures var t := AfterReturnFromDrill(c, returnToOrigin);
            var frame := if returnToOrigin then c.stack[0] else c.stack[|c.stack| - 1];
            && (returnToOrigin ==> t.ctx.stack == [])
            && (!returnToOrigin ==> t.ctx.stack == c.stack[..|c.stack| - 1])
            && t.ctx.current == frame.at && t.ctx.slideFragments == frame.slideFragments
            && t.ctx.isReturningFromDrill
            && t.ctx.lastCompletedDrill == Some(c.current.presentation)
            && t.ctx.drillTargets == map[] && t.ctx.pendingAutoDrill == None
            && t.ctx.returnHere == c.returnHere
            && t.persists && t.route == Some(RouteForPresentation(frame.at.presentation))
  {
  }

  lemma ReturnOnEmptyStackChangesNothing(c: Context, returnToOrigin: bool)
    requires |c.stack| == 0
    ensures AfterReturnFromDrill(c, returnToOrigin) == Transition(c, false, None)
  {
  }

  /** Drilling in and returning restores the exact position, per-slide fragments and stack of the caller. */
  lemma DrillThenReturnRestores(c: Context, target: string, startFragment: int, returnHere: bool, returnToOrigin: bool)
    requires !returnToOrigin || |c.stack| == 0
    ensures var r := AfterReturnFromDrill(AfterDrillInto(c, target, startFragment, returnHere).ctx, returnToOrigin);
            && r.ctx.current == c.current && r.ctx.slideFragments == c.slideFragments && r.ctx.stack == c.stack
            && r.ctx.isReturningFromDrill && r.ctx.lastCompletedDrill == Some(target)
            && r.route == Some(RouteForPresentation(c.current.presentation))
  {
    var d := AfterDrillInto(c, target, startFragment, returnHere).ctx;
    assert d.stack[..|d.stack| - 1] == c.stack;
  }

  /** Drilling through a chain of targets, each entered at fragment 0 and returning to the origin. */
  function DrillChain(c: Context, targets: seq<string>): Context
    decreases |targets|
  {
    if |targets| == 0 then c
    else AfterDrillInto(DrillChain(c, targets[..|targets| - 1]), targets[|targets| - 1], 0, false).ctx
  }

  /** A chain of drills keeps the caller's stack below it, and its first frame is where the chain started. */
  lemma {:induction false} DrillChainStack(c: Context, targets: seq<string>)
    ensures var d := DrillChain(c, targets);
            && |d.stack| == |c.stack| + |targets|
            && d.stack[..|c.stack|] == c.stack
            && (|targets| > 0 ==> d.stack[|c.stack|] == Frame(c.current, c.slideFragments))
    decreases |targets|
  {
    if |targets| > 0 {
      var prefix := targets[..|targets| - 1];
      DrillChainStack(c, prefix);
      var d0 := DrillChain(c, prefix);
      var d := DrillChain(c, targets);
      assert d.stack == d0.stack + [Frame(d0.current, d0.slideFragments)];
      assert d.stack[..|c.stack|] == d0.stack[..|c.stack|];
      if |prefix| == 0 {
        assert d0 == c;
      } else {
        assert d.stack[|c.stack|] == d0.stack[|c.stack|];
      }
    }
  }

  /** However deep a chain of drills goes from the main presentation, returning to the origin lands where it started. */
  lemma ReturnToOriginAfterDrillChain(c: Context, targets: seq<string>)
    requires |c.stack| == 0 && |targets| > 0
    ensures var r := AfterReturnFromDrill(DrillChain(c, targets), true).ctx;
            r.stack == [] && r.current == c.current && r.slideFragments == c.slideFragments
  {
    DrillChainStack(c, targets);
  }

  // ---------------------------------------------------------------- init and persistence

  /** Back from a drill into the same presentation, `init` keeps the position and recomputes the bounds. */
  lemma InitAfterReturnKeepsPosition(c: Context, presentation: string, counts: seq<int>, storage: map<string, Snapshot>)
    requires c.isReturningFromDrill && c.current.presentation == presentation
    ensures var t := AfterInit(c, presentation, counts, storage);
            && t.ctx.current == c.current && t.ctx.stack == c.stack
            && !t.ctx.isReturningFromDrill
            && t.ctx.maxSlide == |counts| - 1 && t.ctx.slideFragmentCounts == counts
            && t.ctx.maxFragment == At(counts, c.current.slide)
            && t.ctx.slideFragments == (if |c.slideFragments| > 0 then c.slideFragments else Zeros(|counts|))
            && t.ctx.lastCompletedDrill == c.lastCompletedDrill && t.ctx.pendingAutoDrill == c.pendingAutoDrill
            && t.persists
  {
  }

  /** A stored record whose origin is this presentation but whose position is in a drill collapses to the origin. */
  lemma InitCollapsesDrillToOrigin(c: Context, presentation: string, counts: seq<int>, storage: map<string, Snapshot>)
    requires !(c.isReturningFromDrill && c.current.presentation == presentation)
    requires StorageKey(presentation) in storage
    requires var p := storage[StorageKey(presentation)];
             |p.slideFragments| > 0 && |p.stack| > 0 && p.stack[0].at.presentation == presentation
             && p.current.presentation != presentation
    ensures var p := storage[StorageKey(presentation)];
            var t := AfterInit(c, presentation, counts, storage);
            && t.ctx.current == Position(presentation, p.stack[0].at.slide, p.stack[0].at.fragment)
            && t.ctx.stack == []
            && t.ctx.slideFragments == p.slideFragments
            && t.ctx.maxSlide == |counts| - 1 && t.ctx.maxFragment == At(counts, p.stack[0].at.slide)
            && !t.ctx.isReturningFromDrill
            && t.persists
  {
  }

  /** Any other stored record is restored as it was, stack included, and is not written back. */
  lemma InitRestoresStoredRecord(c: Context, presentation: string, counts: seq<int>, storage: map<string, Snapshot>)
    requires !(c.isReturningFromDrill && c.current.presentation == presentation)
    requires StorageKey(presentation) in storage
    requires var p := storage[StorageKey(presentation)];
             |p.slideFragments| > 0
             && !(|p.stack| > 0 && p.stack[0].at.presentation == presentation && p.current.presentation != presentation)
    ensures var p := storage[StorageKey(presentation)];
            var t := AfterInit(c, presentation, counts, storage);
            && t.ctx.current == p.current && t.ctx.stack == p.stack && t.ctx.slideFragments == p.slideFragments
            && t.ctx.maxSlide == |counts| - 1 && t.ctx.maxFragment == At(counts, p.current.slide)
            && !t.persists
  {
  }

  /** With nothing usable stored, `init` starts at slide 0, fragment 0, with every slide's remembered fragment 0. */
  lemma InitFresh(c: Context, presentation: string, counts: seq<int>, storage: map<string, Snapshot>)
    requires !(c.isReturningFromDrill && c.current.presentation == presentation)
    requires StorageKey(presentation) !in storage || |storage[StorageKey(presentation)].slideFragments| == 0
    ensures var t := AfterInit(c, presentation, counts, storage);
            && t.ctx.current == Position(presentation, 0, 0)
            && |t.ctx.slideFragments| == |counts| && (forall i :: 0 <= i < |counts| ==> t.ctx.slideFragments[i] == 0)
            && t.ctx.maxSlide == |counts| - 1 && t.ctx.maxFragment == At(counts, 0)
            && t.ctx.stack == c.stack && !t.ctx.isReturningFromDrill
            && t.persists
  {
  }

  lemma {:induction false} StorageKeyInjective(a: string, b: string)
    ensures StorageKey(a) == StorageKey(b) <==> a == b
  {
    if StorageKey(a) == StorageKey(b) {
      assert a == StorageKey(a)[|STORAGE_KEY_PREFIX|..];
      assert b == StorageKey(b)[|STORAGE_KEY_PREFIX|..];
    }
  }

  /** `persistState` writes the snapshot under the root presentation's key and nowhere else; an empty root writes nothing. */
  lemma PersistWritesOnlyRootKey(c: Context, storage: map<string, Snapshot>, presentation: string)
    requires presentation != RootPresentation(c)
    ensures var root := RootPresentation(c);
            var s := Persist(c, storage);
            && (root == "" ==> s == storage)
            && (root != "" ==> StorageKey(root) in s && s[StorageKey(root)] == SnapshotOf(c))
            && (StorageKey(presentation) in s <==> StorageKey(presentation) in storage)
            && (StorageKey(presentation) in s ==> s[StorageKey(presentation)] == storage[StorageKey(presentation)])
  {
    StorageKeyInjective(presentation, RootPresentation(c));
  }

  /** Reloading a page of the main presentation restores the position and per-slide fragments it was persisted with. */
  lemma RefreshRestoresPosition(c: Context, c0: Context, counts: seq<int>, storage: map<string, Snapshot>)
    requires |c.stack| == 0 && c.current.presentation != "" && |c.slideFragments| > 0
    requires !c0.isReturningFromDrill
    ensures var t := AfterInit(c0, c.current.presentation, counts, Persist(c, storage));
            t.ctx.current == c.current && t.ctx.slideFragments == c.slideFragments && t.ctx.stack == []
  {
  }

  /** Reloading the origin's page while inside a drill lands on the origin position, with the drill's slideFragments. */
  lemma RefreshInsideDrillReturnsToOrigin(c: Context, c0: Context, counts: seq<int>, storage: map<string, Snapshot>)
    requires |c.stack| > 0 && c.stack[0].at.presentation != "" && c.current.presentation != c.stack[0].at.presentation
    requires |c.slideFragments| > 0
    requires !c0.isReturningFromDrill
    ensures var origin := c.stack[0].at;
            var t := AfterInit(c0, origin.presentation, counts, Persist(c, storage));
            && t.ctx.current == origin && t.ctx.stack == []
            && t.ctx.slideFragments == c.slideFragments
  {
  }

  /** Clearing one presentation drops its key only; clearing all drops every key under the prefix and keeps the others. */
  lemma ClearPersistedRemoves(storage: map<string, Snapshot>, presentation: Option<string>, k: string)
    ensures var s := ClearPersisted(storage, presentation);
            && (presentation.Some? && presentation.value != "" ==>
                  StorageKey(presentation.value) !in s
                  && (k != StorageKey(presentation.value) ==> (k in s <==> k in storage)))
            && (!(presentation.Some? && presentation.value != "") ==>
                  (forall q :: StorageKey(q) !in s)
                  && (k in storage && !(|STORAGE_KEY_PREFIX| <= |k| && k[..|STORAGE_KEY_PREFIX|] == STORAGE_KEY_PREFIX) ==> k in s))
  {
    if !(presentation.Some? && presentation.value != "") {
      forall q ensures StorageKey(q) !in ClearPersisted(storage, presentation) {
        assert StorageKey(q)[..|STORAGE_KEY_PREFIX|] == STORAGE_KEY_PREFIX;
      }
    }
  }

  // ---------------------------------------------------------------- auto-drill

  /**
   * `checkAutoDrillAtCurrentPosition` changes at most the staged drill. It stages the
   * target at (slide, step) exactly when no drill return is in progress, the viewer is
   * at that position, the target is not the drill just completed, and it is eligible.
   */
  lemma CheckAutoDrillStagesOnlyWhenDue(c: Context, slide: int, step: int)
    ensures var r := AfterCheckAutoDrill(c, slide, step);
            var key := (slide, step);
            var due := && !c.isReturningFromDrill
                       && c.current.slide == slide && c.current.fragment == step
                       && key in c.drillTargets
                       && c.lastCompletedDrill != Some(c.drillTargets[key].target)
                       && (c.autoDrillAll || c.drillTargets[key].autoDrill);
            && r == c.(pendingAutoDrill := r.pendingAutoDrill)
            && (due ==> r.pendingAutoDrill == Some(c.drillTargets[key]))
            && (!due ==> r == c)
  {
  }

  /**
   * Returning from a drill, re-initialising the presentation, re-registering the
   * target at the restored position and checking it does not stage the same drill again.
   */
  lemma NoRetriggerAfterReturn(c: Context, returnToOrigin: bool, counts: seq<int>, storage: map<string, Snapshot>,
                               returnHere: bool, autoDrill: bool)
    requires |c.stack| > 0
    ensures var r := AfterReturnFromDrill(c, returnToOrigin).ctx;
            var i := AfterInit(r, r.current.presentation, counts, storage).ctx;
            var g := AfterRegisterDrillTarget(i, r.current.slide, r.current.fragment,
                                              DrillTargetInfo(c.current.presentation, returnHere, autoDrill));
            AfterCheckAutoDrill(g, r.current.slide, r.current.fragment).pendingAutoDrill == None
  {
  }

  /** Moving on one fragment clears the completed drill, so a target at the previous position can be staged again. */
  lemma NextClearsCompletedDrill(c: Context)
    requires c.pendingAutoDrill.None? && (c.current.fragment < c.maxFragment || c.current.slide < c.maxSlide)
    ensures AfterNext(c).ctx.lastCompletedDrill == None
  {
  }

  // ---------------------------------------------------------------- settings and the target table

  /** Turning autoDrillAll off inside a drill first returns to the origin; otherwise only the flag changes. */
  lemma SetAutoDrillAllOff(c: Context)
    ensures var t := AfterSetAutoDrillAll(c, false);
            && !t.ctx.autoDrillAll
            && (|c.stack| > 0 ==> t.ctx.stack == [] && t.ctx.current == c.stack[0].at
                                  && t.route == Some(RouteForPresentation(c.stack[0].at.presentation)))
            && (|c.stack| == 0 ==> t.ctx == c.(autoDrillAll := false) && !t.persists && t.route == None)
  {
  }

  lemma SetAutoDrillAllOnOnlySetsFlag(c: Context)
    ensures AfterSetAutoDrillAll(c, true) == Transition(c.(autoDrillAll := true), false, None)
  {
  }

  /** `reset` starts over at the empty record but keeps the stored autoDrillAll preference (true when none is stored). */
  lemma ResetKeepsPreference(stored: Option<bool>)
    ensures var r := Initial(LoadAutoDrillAll(stored));
            && r.current == Position("", 0, 0) && r.stack == [] && r.drillTargets == map[]
            && (r.autoDrillAll <==> stored != Some(false))
  {
  }

  /** `registerDrillTarget` sets its own key and leaves every other key and field alone. */
  lemma RegisterTouchesOnlyItsKey(c: Context, slide: int, step: int, info: DrillTargetInfo, key: (int, int))
    ensures var r := AfterRegisterDrillTarget(c, slide, step, info);
            && r == c.(drillTargets := r.drillTargets)
            && (slide, step) in r.drillTargets && r.drillTargets[(slide, step)] == info
            && (key != (slide, step) ==> (key in r.drillTargets <==> key in c.drillTargets))
            && (key != (slide, step) && key in c.drillTargets ==> r.drillTargets[key] == c.drillTargets[key])
  {
  }

  /** `unregisterDrillTarget` removes its own key and leaves every other key and field alone. */
  lemma UnregisterTouchesOnlyItsKey(c: Context, slide: int, step: int, key: (int, int))
    ensures var r := AfterUnregisterDrillTarget(c, slide, step);
            && r == c.(drillTargets := r.drillTargets)
            && (slide, step) !in r.drillTargets
            && (key != (slide, step) ==> (key in r.drillTargets <==> key in c.drillTargets))
            && (key != (slide, step) && key in c.drillTargets ==> r.drillTargets[key] == c.drillTargets[key])
  {
  }

  lemma RegisterThenUnregister(c: Context, slide: int, step: int, info: DrillTargetInfo)
    requires (slide, step) !in c.drillTargets
    ensures AfterUnregisterDrillTarget(AfterRegisterDrillTarget(c, slide, step, info), slide, step) == c
  {
    assert c.drillTargets[(slide, step) := info] - {(slide, step)} == c.drillTargets;
  }

  /** `setMaxFragment` makes the drill one slide of `max` fragments and keeps the targets its Fragments registered. */
  lemma SetMaxFragmentMakesOneSlide(c: Context, max: int)
    ensures var r := AfterSetMaxFragment(c, max);
            && r.maxSlide == 0 && r.maxFragment == max && r.slideFragmentCounts == [max]
            && At(r.slideFragmentCounts, 0) == max
            && r.drillTargets == c.drillTargets && r.current == c.current && r.stack == c.stack
  {
  }
}
