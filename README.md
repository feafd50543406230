# mbs navigation core, in Dafny

A model of the client-side navigation logic of the mbs slide-presentation
library, with proofs of what its operations promise.

- **The navigation store** (`src/lib/stores/navigation.ts`). This is one mutable record: the current
  position (presentation, slide, fragment), the drill stack of saved positions with their
  per-slide fragments, the slide bounds, the drill-target table keyed by (slide, step), and the
  `returnHere`, `autoDrillAll`, `isReturningFromDrill`, `pendingAutoDrill` and `lastCompletedDrill`
  flags. Operations such as `next`, `prev`, `goToSlide`, `drillInto`, `returnFromDrill` and `init`
  replace the record and persist it to localStorage under the root presentation's key.
  - `navigation_context.dfy` holds the record as datatypes and each updater as a pure transition
    `AfterX`. A transition returns the new record, whether the operation persists it, and the route
    it navigates to.
  - `navigation_store.dfy` is the store as a class. It holds the record in a field, storage as a
    map, the stored autoDrillAll preference, and a ghost log of routes. Every method is proved to
    perform exactly its transition.
  - `navigation_properties.dfy` proves what the transitions promise. Examples: the three outcomes
    of `next` at the end of a drill; a drill staged by one `next` runs on the following one;
    drill-then-return restores the position; refresh restores the stored position or collapses a
    drill to its origin; a completed drill is not re-triggered.
- **The original-step registry** (`src/lib/stores/navigation.ts:695-733`). Slides register a
  lookup from normalized step back to the author's step here.
  `original_step_registry.dfy` models it as a class over a map keyed by
  (presentation, slide index).
- **Custom-show arithmetic** (`src/lib/components/customShowUtils.ts`). Each slide of a composite
  show takes `max(maxStep, 1)` global slots. Slide offsets are prefix sums of those widths, and a
  global fragment maps to the first slide whose closed interval contains it. A boundary fragment
  therefore belongs to the earlier slide. `custom_show_utils.dfy` holds the two loops as methods,
  proved against the prefix-sum definition.
- **Step helpers** (`src/lib/components/stepUtils.ts`). A step's integer part is its click number
  and its tenths are an animation delay. `step_utils.dfy` models these helpers over exact reals.
- **Step normalization** (`src/tests/step-normalization.test.ts:95-123`, the copy of the
  Slide component's algorithm). It maps the distinct click numbers of a slide, in ascending order,
  onto 1..N, keeps the decimal part, and looks up in reverse with an identity fallback.
  `step_normalization.dfy` proves the maps are an order-preserving bijection with their inverse,
  and that they depend only on the set of click numbers.

Conventions:
- A JavaScript read `arr[i] || 0` is `At(s, i)`: 0 outside the array.
- A write past the end of an array is `SetAt`, which pads with zeros. Holes read back as 0
  through `|| 0`.
- The string keys `"slide:step"` and `"presentation:slideIndex"` are pairs. Both string encodings
  are injective when the numeric parts are integers.

The code as written, where it differs from what a reader might expect:
- On a page refresh inside a drill, `init` collapses to the origin position but keeps the
  drill level's `slideFragments`, not the origin frame's (`navigation.ts:176-189`). The model
  follows the code, and `RefreshInsideDrillReturnsToOrigin` states this.
- Advancing to a new slide does not clear the drill-target table (`navigation.ts:382-405`).
  A test titled as if it did (`src/tests/navigation.test.ts:532-554`) would pass on a reading of
  the code only because a staged drill runs first, and drilling is what clears the table. The model follows the code, and
  `NextAdvancesSlide` states that the table is kept.

## Model

| member | source | states |
|---|---|---|
| StepUtils.GetEffectiveStep | src/lib/components/stepUtils.ts:23-25 | the click number is the greatest integer not above the step |
| StepUtils.EffectiveStepOfInteger | src/lib/components/stepUtils.ts:23-25 | an integer step is its own click number |
| StepUtils.Round | src/lib/components/stepUtils.ts:49 | `Math.round` gives the integer within half of its argument, halves rounding up |
| StepUtils.DecimalTenths | src/lib/components/stepUtils.ts:48-49 | the tenths count is in 0..10 and is the decimal part rounded to the nearest tenth |
| StepUtils.GetAnimationDelay | src/lib/components/stepUtils.ts:35-51 | an explicit delay is returned whenever one is given; with none, the rate defaults to 500 ms per tenth |
| StepUtils.IntegerStepHasNoDelay | src/lib/components/stepUtils.ts:48-50 | a whole-numbered step has delay 0 at any rate |
| StepUtils.TenthsStepDelay | src/lib/components/stepUtils.ts:48-50 | step n + k/10 has delay k times the per-decimal rate (5.1 gives 500, 5.2 gives 1000 at the default) |
| StepUtils.DelayIsLinearInRate | src/lib/components/stepUtils.ts:50 | the computed delay scales linearly with the per-decimal rate |
| StepUtils.ShouldBeVisible | src/lib/components/stepUtils.ts:60-65 | content without a step is always visible; otherwise visible exactly when the fragment has reached the step's click number |
| StepUtils.VisibilityIsMonotone | src/lib/components/stepUtils.ts:60-65 | content visible at a fragment stays visible at every later one |
| StepUtils.SlideContext.RegisterStep | src/lib/components/stepUtils.ts:76 | the context's registered steps gain the given click number |
| StepUtils.RegisterStepWithContext | src/lib/components/stepUtils.ts:74-78 | with both a step and a context, registers the step's click number; with no step, nothing changes |
| CustomShowUtils.EffectiveMaxStep | src/lib/components/customShowUtils.ts:70 | a slide spans at least one slot and never fewer than its max step; exactly its max step when that is positive, exactly one slot otherwise |
| CustomShowUtils.GetTotalFragments | src/lib/components/customShowUtils.ts:36-38 | the total is at least the number of slides |
| CustomShowUtils.TotalOfExample | src/lib/components/customShowUtils.ts:36-38 | [2, 0] totals 3, and no slides total 0 |
| CustomShowUtils.TotalOfConcat | src/lib/components/customShowUtils.ts:36-38 | the total of two shows placed end to end is the sum of their totals |
| CustomShowUtils.OffsetStep | src/lib/components/customShowUtils.ts:22-25 | each offset is the previous offset plus the previous slide's width |
| CustomShowUtils.OffsetGrows | src/lib/components/customShowUtils.ts:22-25 | offsets grow by at least one per slide |
| CustomShowUtils.TotalIsLastOffsetPlusWidth | src/lib/components/customShowUtils.ts:36-38 | for a non-empty show the total is the last offset plus the last slide's width |
| CustomShowUtils.Coverage | src/lib/components/customShowUtils.ts:67-80 | every global fragment in 0..total lies in some slide's closed interval |
| CustomShowUtils.NoOwnerOutsideRange | src/lib/components/customShowUtils.ts:67-80 | a global fragment below 0 or above the total lies in no slide's interval |
| CustomShowUtils.BoundaryBelongsToEarlierSlide | src/lib/components/customShowUtils.ts:73-74 | the last slot of slide i is owned first by slide i, never by slide i+1 |
| CustomShowUtils.GetSlideFragmentOffsets | src/lib/components/customShowUtils.ts:20-27 | the offsets have length max(n, 1), start at 0, and each adds the previous slide's width (they are the prefix sums) |
| CustomShowUtils.GetSlideForFragment | src/lib/components/customShowUtils.ts:60-88 | returns the first slide whose interval holds the fragment, with the fragment's distance from that slide's offset; otherwise the last slide, relative to its offset; for 0..total of a non-empty show the local fragment is within the slide's width |
| StepNormalization.UniqueFloors | src/tests/step-normalization.test.ts:99 | the click numbers without repeats, exactly the set of the steps' integer parts |
| StepNormalization.SortAscending | src/tests/step-normalization.test.ts:100 | sorting keeps the multiset of values |
| StepNormalization.SortAscendingIsAscending | src/tests/step-normalization.test.ts:100 | the sorted result is ascending, strictly when the input has no repeats |
| StepNormalization.NumberInOrder | src/tests/step-normalization.test.ts:105-109 | the i-th sorted click number maps to i+1, and i+1 maps back to it |
| StepNormalization.ForwardIsRank | src/tests/step-normalization.test.ts:105-109 | the numbering gives every click number its rank: one plus the count of smaller click numbers |
| StepNormalization.ReverseIsInverse | src/tests/step-normalization.test.ts:105-109 | the reverse map is the exact inverse of the forward map in both directions |
| StepNormalization.BuildStepMaps | src/tests/step-normalization.test.ts:95-112 | the maps send each distinct click number to its rank in 1..N and back |
| StepNormalization.RankInSorted | src/tests/step-normalization.test.ts:105-109 | in a strictly ascending list, the element at index j has rank j+1 |
| StepNormalization.RankBounds | src/tests/step-normalization.test.ts:139-149 | a registered click number's rank is within 1..N |
| StepNormalization.RankStrictlyMonotone | src/tests/step-normalization.test.ts:139-170 | a smaller click number gets a smaller dense number |
| StepNormalization.StepMapIsOrderedBijection | src/tests/step-normalization.test.ts:139-170 | the forward map's keys are the click numbers, its values are exactly 1..N, and it preserves order |
| StepNormalization.StepMapsDependOnlyOnFloors | src/tests/step-normalization.test.ts:151-192 | input order, duplicates and decimals sharing a click number do not change the maps |
| StepNormalization.GetNormalizedStep | src/tests/step-normalization.test.ts:114-119 | the integer part becomes its dense number (itself when unregistered), and the decimal part is kept |
| StepNormalization.GetOriginalStep | src/tests/step-normalization.test.ts:121-123 | an unmapped dense number is returned unchanged; a mapped one gives a registered click number |
| StepNormalization.OriginalOfNormalized | src/tests/step-normalization.test.ts:194-205 | normalizing an author step and looking it back up gives the author's click number |
| StepNormalization.OriginalOutsideRangeIsIdentity | src/tests/step-normalization.test.ts:207-212 | dense numbers outside 1..N (fragment 0 among them) are shown unchanged |
| StepNormalization.GapsAndDecimalsExample | src/tests/step-normalization.test.ts:172-181 | steps 1, 5, 5.1, 5.2, 19 give the map {1:1, 5:2, 19:3} and its inverse, and 19.1 normalizes to 3.1 |
| OriginalStepRegistry.Registry.constructor | src/lib/stores/navigation.ts:696 | the registry starts empty |
| OriginalStepRegistry.Registry.Register | src/lib/stores/navigation.ts:705-713 | the key (presentation, slide) now holds the lookup, and other keys are unchanged |
| OriginalStepRegistry.Registry.Unregister | src/lib/stores/navigation.ts:718-722 | the key is removed, and other keys are unchanged |
| OriginalStepRegistry.Registry.GetOriginalStep | src/lib/stores/navigation.ts:729-733 | applies the key's lookup, or returns the step itself when none is registered |
| OriginalStepRegistry.EmptyRegistryIsIdentity | src/tests/step-normalization.test.ts:299-302 | with nothing registered, every step is shown as itself |
| OriginalStepRegistry.RegisterAnswersOnlyItsKey | src/lib/stores/navigation.ts:705-713 | after registering, the key answers through the new lookup and every other key as before |
| OriginalStepRegistry.UnregisterRestoresIdentity | src/lib/stores/navigation.ts:718-722 | after unregistering, the key falls back to identity and every other key answers as before |
| OriginalStepRegistry.RegisteredStepMapsRoundTrip | src/tests/step-normalization.test.ts:304-318 | a slide that registers its reverse step map gets each author click number back from its dense number |
| NavigationContext.SetAt | src/lib/stores/navigation.ts:354-355 | an index write sets that index and leaves every other index's read as it was, growing the array when needed |
| NavigationContext.At | src/lib/stores/navigation.ts:456-457 | reading an array entry with a 0 default gives the element inside the array and 0 outside it |
| NavigationContext.Clamp | src/lib/stores/navigation.ts:482 | `Math.max(0, Math.min(v, hi))`: a value already in [0, hi] is kept, anything else lands on the nearer end, and the result is 0 when hi is not positive |
| NavigationContext.StorageKey | src/lib/stores/navigation.ts:13-15 | the key is the "mbs-nav-" prefix followed by the presentation id, which can be read back off the key |
| NavigationContext.RouteForPresentation | src/lib/stores/navigation.ts:619-621 | the route is "/" followed by the presentation id |
| NavigationContext.LoadAutoDrillAll | src/lib/stores/navigation.ts:18-29 | the preference is off exactly when false is stored; it defaults to on |
| NavigationContext.Persist | src/lib/stores/navigation.ts:81-99 | writes the record's snapshot under the root presentation's key and keeps every other key; writes nothing for an empty root |
| NavigationContext.ClearPersisted | src/lib/stores/navigation.ts:102-123 | only removes keys, never alters a kept value; a named presentation loses exactly its key, otherwise exactly the keys under the "mbs-nav-" prefix go |
| NavigationContext.Eligible | src/lib/stores/navigation.ts:360-362 | a target is eligible exactly when one is registered at (slide, step) and autoDrillAll or its own autoDrill flag is on; the answer is that target |
| NavigationContext.AfterInit | src/lib/stores/navigation.ts:144-227 | init always clears the returning flag, installs the given counts with maxSlide one below their number, and bounds the fragment by the landing slide's count; it keeps the target table, preference and staged drill; it skips the write only when restoring a stored record, whose stack it adopts |
| NavigationContext.AfterSetMaxFragment | src/lib/stores/navigation.ts:233-241 | the record becomes one slide of `max` fragments and nothing else changes |
| NavigationContext.AfterRegisterDrillTarget | src/lib/stores/navigation.ts:252-261 | the table gains the key with the given info, keeps every other entry, and nothing else changes |
| NavigationContext.AfterUnregisterDrillTarget | src/lib/stores/navigation.ts:306-315 | the table loses the key, keeps every other entry, and nothing else changes |
| NavigationContext.AfterClearDrillTargets | src/lib/stores/navigation.ts:320-325 | the table is emptied and nothing else changes |
| NavigationContext.AfterCheckAutoDrill | src/lib/stores/navigation.ts:268-301 | only the staged drill can change, and only to the eligible target at the current position |
| NavigationContext.AfterDrillInto | src/lib/stores/navigation.ts:514-547 | the current position and its slideFragments are pushed; the target is entered at the start fragment with its returnHere, no targets and nothing staged; the record is persisted and the route is "/target" |
| NavigationContext.AfterReturnFromDrill | src/lib/stores/navigation.ts:554-604 | on an empty stack nothing happens; otherwise the stack is cut to its prefix of the remaining depth (one less, or none for origin), the frame just above it is restored, the drill left is recorded as completed, the returning flag is set, and the record is persisted with the route to the restored presentation |
| NavigationContext.AfterNext | src/lib/stores/navigation.ts:337-431 | next never changes the preference; without a write it changes nothing; without a route it stays in the presentation on the same stack and moves exactly one fragment or one slide forward; with a route it either pushes one level or pops |
| NavigationContext.AfterPrev | src/lib/stores/navigation.ts:437-472 | prev always persists, never navigates, keeps the presentation, stack and targets, never moves to a later slide, and leaves the position unchanged exactly at slide 0, fragment 0 |
| NavigationContext.AfterGoToFragment | src/lib/stores/navigation.ts:477-486 | the fragment lands in [0, maxFragment] and on the request when it is in range; slide, slideFragments and stack are kept; nothing is staged; the record is persisted |
| NavigationContext.AfterGoToSlide | src/lib/stores/navigation.ts:491-508 | the slide lands within maxSlide and on the request when it is in range, at its remembered fragment and with its count as bound; the stack is kept; nothing is staged; the record is persisted |
| NavigationContext.AfterSetAutoDrillAll | src/lib/stores/navigation.ts:643-658 | the flag takes the value; turning it on, or off outside a drill, changes only the flag; turning it off inside a drill returns to the origin with an empty stack and persists |
| NavigationContext.Initial | src/lib/stores/navigation.ts:43-60 | the initial record is at ("", 0, 0) with an empty stack, no targets, nothing staged and the given autoDrillAll |
| NavigationStore.Store.constructor | src/lib/stores/navigation.ts:42-60 | a new store holds the initial record with the stored autoDrillAll preference, and remembers that record |
| NavigationStore.Store.PersistState | src/lib/stores/navigation.ts:81-99 | storage becomes the old storage with the record's snapshot written under the root key |
| NavigationStore.Store.Init | src/lib/stores/navigation.ts:144-227 | the record, storage and routes become those of the init transition on the stored snapshot |
| NavigationStore.Store.SetMaxFragment | src/lib/stores/navigation.ts:233-241 | the record becomes one slide of `max` fragments; nothing is persisted |
| NavigationStore.Store.RegisterDrillTarget | src/lib/stores/navigation.ts:252-261 | the target table gains (slide, step) with the given info; nothing is persisted |
| NavigationStore.Store.CheckAutoDrillAtCurrentPosition | src/lib/stores/navigation.ts:268-301 | the record becomes that of the check transition; nothing is persisted |
| NavigationStore.Store.UnregisterDrillTarget | src/lib/stores/navigation.ts:306-315 | the target table loses (slide, step); nothing is persisted |
| NavigationStore.Store.ClearDrillTargets | src/lib/stores/navigation.ts:320-325 | the target table is emptied; nothing is persisted |
| NavigationStore.Store.Next | src/lib/stores/navigation.ts:337-431 | the record, storage and routes become those of the next transition, including the nested drill or return |
| NavigationStore.Store.Prev | src/lib/stores/navigation.ts:437-472 | the record, storage and routes become those of the prev transition |
| NavigationStore.Store.GoToFragment | src/lib/stores/navigation.ts:477-486 | the record and storage become those of the clamped fragment jump |
| NavigationStore.Store.GoToSlide | src/lib/stores/navigation.ts:491-508 | the record and storage become those of the clamped slide jump |
| NavigationStore.Store.DrillInto | src/lib/stores/navigation.ts:514-547 | the record, storage and routes become those of the drill transition; the target's route is visited |
| NavigationStore.Store.ReturnFromDrill | src/lib/stores/navigation.ts:554-604 | the record, storage and routes become those of the return transition; an empty stack changes nothing |
| NavigationStore.Store.ClearPresentation | src/lib/stores/navigation.ts:610-614 | storage loses the named presentation's key (every prefixed key when none is named), and the record returns to the one the store was created with |
| NavigationStore.Store.CanReturn | src/lib/stores/navigation.ts:626-628 | one can return exactly when the stack depth is positive, which is exactly when `returnFromDrill` (to the parent or to the origin) changes anything |
| NavigationStore.Store.GetStackDepth | src/lib/stores/navigation.ts:633-635 | the depth is the number of saved positions; a single-level return lowers it by one and a return to origin brings it to 0 |
| NavigationStore.Store.GetAutoDrillAll | src/lib/stores/navigation.ts:663-665 | reads the flag; when it is on, every registered target is eligible to auto-drill |
| NavigationStore.Store.Goto | src/lib/stores/navigation.ts:546 | navigating appends the route to the route log and changes nothing else |
| NavigationStore.Store.SetAutoDrillAll | src/lib/stores/navigation.ts:643-658 | applies the return-to-origin when turning the flag off inside a drill, then sets the flag and stores the preference |
| NavigationStore.Store.Reset | src/lib/stores/navigation.ts:670-675 | the record becomes the initial one with the stored autoDrillAll preference |
| NavigationProperties.NextWithinSlide | src/lib/stores/navigation.ts:350-378 | inside a slide, next moves to fragment+1 and records it for the slide alone; it clears lastCompletedDrill; it stages the target at the new fragment exactly when that target is eligible; it persists without navigating |
| NavigationProperties.NextAdvancesSlide | src/lib/stores/navigation.ts:379-405 | at a slide's end, next opens slide+1 at fragment 0 with its fragment count as bound; it stages the eligible step-0 target and clears lastCompletedDrill; slideFragments and the target table are kept |
| NavigationProperties.PendingDrillRunsOnNext | src/lib/stores/navigation.ts:342-347 | with a staged drill, next only pushes the current position and enters the staged target at fragment 0 with its returnHere |
| NavigationProperties.StagedDrillRunsOnFollowingNext | src/tests/navigation.test.ts:931-980 | a next that stages a drill stays in the presentation on the new fragment; the following next drills into the target |
| NavigationProperties.NextAtEnd | src/lib/stores/navigation.ts:406-430 | at the end of the last slide, next drills at once into an eligible target; otherwise inside a drill it pops one level when returnHere is set and all levels when not; otherwise nothing changes |
| NavigationProperties.PrevWithinSlide | src/lib/stores/navigation.ts:439-452 | prev above fragment 0 moves back one fragment, records it for the slide alone and clears the staged drill |
| NavigationProperties.PrevToPreviousSlide | src/lib/stores/navigation.ts:453-468 | prev at fragment 0 opens the previous slide at its remembered fragment with its fragment count as bound |
| NavigationProperties.PrevAtStartKeepsRecord | src/lib/stores/navigation.ts:470 | prev at slide 0, fragment 0 leaves the record unchanged, the staged drill included, and still persists it |
| NavigationProperties.NextThenPrevWithinSlide | src/tests/navigation.test.ts:80-86 | prev after next inside a slide returns to the same position, with that fragment remembered for the slide |
| NavigationProperties.GoToFragmentClamps | src/lib/stores/navigation.ts:477-486 | the fragment lands in [0, maxFragment], exactly on the request when it is in range; slideFragments are untouched and the staged drill is cleared |
| NavigationProperties.GoToFragmentIdempotent | src/lib/stores/navigation.ts:477-486 | repeating a fragment jump changes nothing |
| NavigationProperties.GoToSlideClamps | src/lib/stores/navigation.ts:491-508 | the slide lands in [0, maxSlide], exactly on the request when it is in range, at its remembered fragment and with its count as bound |
| NavigationProperties.GoToSlideIdempotent | src/lib/stores/navigation.ts:491-508 | repeating a slide jump changes nothing |
| NavigationProperties.GoToSlideAndBackRestoresFragment | src/tests/navigation.test.ts:147-164 | jumping away and back returns to the fragment the slide was left at |
| NavigationProperties.DrillIntoPushes | src/lib/stores/navigation.ts:514-547 | drillInto pushes the position with its slideFragments onto the stack; it enters the target at the start fragment with zero bounds and no targets, and navigates to "/target" |
| NavigationProperties.ReturnFromDrillPops | src/lib/stores/navigation.ts:554-604 | returnFromDrill(false) pops one frame and returnFromDrill(true) empties the stack; the frame popped last is restored, the completed drill is recorded, and the route goes to its presentation |
| NavigationProperties.ReturnOnEmptyStackChangesNothing | src/lib/stores/navigation.ts:557-560 | with an empty stack, returnFromDrill neither changes, persists nor navigates |
| NavigationProperties.DrillThenReturnRestores | src/tests/navigation.test.ts:219-252 | drilling in and returning restores the exact position, slideFragments and stack, and records the drill as completed |
| NavigationProperties.DrillChainStack | src/lib/stores/navigation.ts:518-522 | a chain of drills keeps the caller's stack beneath and saves the starting position as its first frame |
| NavigationProperties.ReturnToOriginAfterDrillChain | src/tests/navigation.test.ts:629-655 | from any depth of nested drills, returning to origin lands on the starting position and slideFragments with an empty stack |
| NavigationProperties.InitAfterReturnKeepsPosition | src/lib/stores/navigation.ts:147-160 | back from a drill into the same presentation, init keeps the position and stack, clears the flag, recomputes the bounds and keeps lastCompletedDrill |
| NavigationProperties.InitCollapsesDrillToOrigin | src/lib/stores/navigation.ts:169-192 | a stored record whose origin is this presentation but whose position is in a drill is restored at the origin slide and fragment, with an empty stack, and persisted |
| NavigationProperties.InitRestoresStoredRecord | src/lib/stores/navigation.ts:194-206 | any other stored record with slideFragments is restored as it was, stack included, and not written back |
| NavigationProperties.InitFresh | src/lib/stores/navigation.ts:209-225 | with nothing usable stored, init starts at slide 0, fragment 0 with all-zero slideFragments, keeps the stack and persists |
| NavigationProperties.StorageKeyInjective | src/lib/stores/navigation.ts:13-15 | distinct presentations have distinct storage keys |
| NavigationProperties.PersistWritesOnlyRootKey | src/lib/stores/navigation.ts:81-99 | persisting writes the snapshot under the root presentation's key (the drill origin inside a drill), touches no other presentation's key, and writes nothing for an empty root |
| NavigationProperties.RefreshRestoresPosition | src/tests/navigation.test.ts:344-361 | re-initializing a persisted main presentation restores its position and slideFragments |
| NavigationProperties.RefreshInsideDrillReturnsToOrigin | src/lib/stores/navigation.ts:165-192 | re-initializing the origin after persisting inside a drill lands on the origin position with an empty stack and the drill's slideFragments |
| NavigationProperties.ClearPersistedRemoves | src/lib/stores/navigation.ts:102-123 | clearing one presentation removes only its key; clearing all removes every prefixed key and keeps the rest |
| NavigationProperties.CheckAutoDrillStagesOnlyWhenDue | src/lib/stores/navigation.ts:268-301 | the check changes at most the staged drill. It stages the target exactly when no return is in progress, the position matches, the target is not the drill just completed, and autoDrillAll or the target's autoDrill holds |
| NavigationProperties.NoRetriggerAfterReturn | src/tests/navigation.test.ts:1134-1185 | after returning from a drill, the sequence init, re-register, check does not stage that drill again |
| NavigationProperties.NextClearsCompletedDrill | src/tests/navigation.test.ts:1238-1290 | moving on by a fragment or a slide clears the completed drill |
| NavigationProperties.SetAutoDrillAllOff | src/lib/stores/navigation.ts:643-658 | turning autoDrillAll off inside a drill returns to the origin with an empty stack; outside a drill only the flag changes |
| NavigationProperties.SetAutoDrillAllOnOnlySetsFlag | src/lib/stores/navigation.ts:643-658 | turning autoDrillAll on only sets the flag |
| NavigationProperties.ResetKeepsPreference | src/lib/stores/navigation.ts:670-675 | reset gives the empty record with autoDrillAll false exactly when false is stored |
| NavigationProperties.RegisterTouchesOnlyItsKey | src/lib/stores/navigation.ts:252-261 | registering sets its own key and leaves every other key and field alone |
| NavigationProperties.UnregisterTouchesOnlyItsKey | src/lib/stores/navigation.ts:306-315 | unregistering removes its own key and leaves every other key and field alone |
| NavigationProperties.RegisterThenUnregister | src/lib/stores/navigation.ts:306-315 | unregistering a freshly registered key restores the record |
| NavigationProperties.SetMaxFragmentMakesOneSlide | src/lib/stores/navigation.ts:233-241 | a drill becomes one slide with `max` fragments; position, stack and registered targets are kept |

## Left out

- Svelte store machinery (`writable`, `derived`, `get`, subscriptions) and the `registryVersion` counter. The store is a class with a record field, and the derived stores are that record's fields.
- The `browser` guard, JSON serialization, `try`/`catch` and console logging. The model behaves as in a browser whose storage never fails. A stored preference that is not a boolean is not modelled.
- localStorage itself. It is a map from key to snapshot for the navigation records, plus a separate field for the "mbs-drillto" preference.
- The key scan in `clearPersistedState`. It is a filter over that map by the "mbs-nav-" prefix.
- The router call `goto`. Routes are recorded in a ghost sequence, and nothing models page loading or the component lifecycle that calls `init` and registers targets. Those are shown only as explicit sequences of transitions in the lemmas.
- The `savedSlideFragments || c.slideFragments` fallback in `returnFromDrill`. Every frame carries an array, and any array is truthy, so the fallback is never taken. Frames always carry their slideFragments.
- Array holes. A write past the end pads with zeros, which is how holes read back through `|| 0`. JSON's `null` for a hole is not modelled.
- Non-integer or NaN slide and fragment numbers. Slides are natural numbers and fragments integers. A JavaScript number is never fractional on these paths.
- IEEE double arithmetic. Step values are exact reals, and `Math.round` and `Math.floor` are exact. No claim is made about binary rounding artefacts.
- The Slide component and its SlideContext. They are not part of this model. Step registration is modelled as adding to a set, and the step-map algorithm is modelled from its copy in the tests.
- The sort in step normalization. It is an insertion sort on integers. Only its result is specified: an ascending permutation.
- CustomShowUtils.GetSlideForFragment: for a show with no slides the source computes NaN. The model returns `None` as the local fragment.
- OriginalStepRegistry.Registry: lookups are total functions on integers. Fractional normalized steps are not looked up.
- Fragment.svelte rendering, animation and layout, the SVG types, the barrel exports, the end-to-end browser specs and the route-file scan test. These are UI or tooling, not navigation logic.
