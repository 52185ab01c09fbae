# Global snap coordinator of the portfolio page

The page is a sequence of full-viewport sections. Some of them are *pinned*: they stay fixed while the user scrolls through them. Once the page has settled, `setupGlobalSnap` in `src/App.tsx` reads every registered scroll trigger and keeps the pinned ones, ordered by start offset. It turns each one into a normalised range `{start, end, center}`, a fraction of the maximum scroll. It then installs one snap rule. Its `snapTo(value)` leaves a scroll fraction alone when no pinned window padded by 0.02 holds it. Otherwise it moves the fraction to the nearest range centre.

This project models that coordinator as pure Dafny functions over `real` numbers and proves what it guarantees.

- `wrappers.dfy`, module `Wrappers`: `Option`. It stands for a trigger's possibly missing `end` and for "no rule installed".
- `pinned_triggers.dfy`, module `PinnedTriggers`: the `Trigger` record (`pin`, `start`, optional `end`) and the `filter(st => st.vars.pin)` step (`Pinned`). It also holds the `sort((a, b) => a.start - b.start)` step. JavaScript's `Array.prototype.sort` is stable, so this step is a stable insertion sort (`SortByStart`). It is proved sorted, a permutation of its input and stable. Any sorted, stable result is proved to equal it, so the model agrees with whichever stable algorithm the engine uses.
- `global_snap.dfy`, module `GlobalSnap`: `Range` and the normalisation of one trigger (`Normalize`). `Setup` is the whole of `setupGlobalSnap`: `None` when no rule is installed, otherwise the ranges. `SnapTo` is the `snapTo` callback. Its `reduce` is the left fold `NearestFold`, seeded like the source with `pinnedRanges[0]?.center ?? 0`. It replaces the running value only on a strict `<`.
- `snap_scenarios.dfy`, module `SnapScenarios`: a worked page with three pinned sections and one unpinned trigger, registered out of order. It also holds a concrete case showing that the nearest centre is chosen over all ranges.

Numbers are exact reals. `Math.abs(a - b)` is `Dist`. The padding is the constant `Padding = 0.02`, and both window bounds are inclusive.

## Model

| member | source | states |
|---|---|---|
| PinnedTriggers.PinnedCounts | src/App.tsx:23-24 | the pin filter keeps each pinned trigger exactly as often as it is registered and drops every unpinned one |
| PinnedTriggers.PinnedMembers | src/App.tsx:23-24 | a trigger survives the filter iff it is registered and marked `pin` |
| PinnedTriggers.SortByStart | src/App.tsx:25 | the sort by `a.start - b.start` yields a sequence ascending in `start` that is a permutation (same multiset) of its input |
| PinnedTriggers.SortByStartIsStable | src/App.tsx:25 | the sort is stable: for every start offset, the triggers with that start appear in the same relative order as before sorting |
| PinnedTriggers.StableSortIsUnique | src/App.tsx:25 | two sequences sorted by start that agree on every equal-start subsequence are equal |
| PinnedTriggers.SortByStartIsTheStableSort | src/App.tsx:25 | every sorted sequence that keeps each equal-start group of the input in order is exactly the modelled sort's result, so any stable sort gives the same order |
| PinnedTriggers.PinnedWithStartCommute | src/App.tsx:23-24 | filtering by `pin` preserves registration order: filtering by pin then by start equals filtering by start then by pin |
| PinnedTriggers.PinnedByStartKeepsRegistrationOrder | src/App.tsx:23-25 | after filter and sort, pinned triggers sharing a start offset are in registration order |
| GlobalSnap.Normalize | src/App.tsx:30-34 | a range's start and end times `maxScroll` give back the trigger's start and its end (its start when `end` is absent), the centre is the midpoint of start and end, and with `maxScroll > 0` and end ≥ start the centre lies within `[start, end]` |
| GlobalSnap.Setup | src/App.tsx:22-34 | no rule (`None`) exactly when `maxScroll` is 0 or no trigger is pinned; otherwise one range per pinned trigger, in sorted order, each the normalisation of that trigger |
| GlobalSnap.SetupRangesAscending | src/App.tsx:23-34 | with a positive `maxScroll` the installed ranges are ascending in `start` |
| GlobalSnap.SetupRangesFromPinned | src/App.tsx:23-34 | every installed range is the normalisation of a registered trigger marked `pin`, and the triggers behind the ranges are a permutation of the pinned triggers |
| GlobalSnap.SetupWellFormed | src/App.tsx:30-34 | with `maxScroll > 0` and no pinned trigger ending before it starts, every installed range has `start ≤ center ≤ end` |
| GlobalSnap.NearestFoldSpec | src/App.tsx:42-45 | the `reduce` ends at a value no farther from `value` than its seed or than any centre; it keeps the seed when the seed is already nearest, and otherwise ends at the centre of the first range strictly nearer than the seed and than every earlier range |
| GlobalSnap.SnapTo | src/App.tsx:38-47 | outside every padded window the value is returned unchanged; inside one, the result is the centre of the first range whose centre is nearest to the value among all ranges (minimal distance, ties to the earliest range) |
| GlobalSnap.CenterSnapsToItself | src/App.tsx:38-46 | a range whose centre lies in its window snaps that centre to itself |
| GlobalSnap.SnapToIdempotent | src/App.tsx:38-46 | when every range's centre lies within it, snapping a snap result again changes nothing |
| GlobalSnap.InstalledSnapIdempotent | src/App.tsx:22-47 | the rule installed for a positive `maxScroll` over pinned triggers that do not end before they start is idempotent |
| SnapScenarios.ThreeSectionsPinned | src/App.tsx:23-24 | on the worked page the filter drops the unpinned trigger and keeps the rest in registration order |
| SnapScenarios.ThreeSectionsSorted | src/App.tsx:23-25 | on the worked page the pinned triggers are read in ascending start order |
| SnapScenarios.ThreeSectionsSetup | src/App.tsx:22-34 | regions [0,1300], [1300,2700], [2700,4000] over 4000 pixels give centres 0.1625, 0.5 and 0.8375 |
| SnapScenarios.ThreeSectionsSnap | src/App.tsx:38-47 | on those ranges 0.30 snaps to 0.1625, 0.95 to 0.8375, 0.5 stays 0.5, and 1.03 (past every padded window) is left alone |
| SnapScenarios.NearestCentreMayLieOutsideTheWindow | src/App.tsx:39-45 | a value held only by the first padded window can snap to the second range's centre, because the nearest centre is taken over all ranges |

## How the code reads where a prose description might differ

- Nearest centre over all ranges. The `reduce` at src/App.tsx:42-45 runs over every pinned range, not only those whose padded window holds the value. The window test only decides whether snapping happens at all. The model follows the code. `NearestCentreMayLieOutsideTheWindow` shows a value inside exactly one window snapping to another range's centre.
- Guard on `maxScroll`. `!maxScroll` rejects only 0 (and NaN, which reals do not have). A negative `maxScroll` is not rejected, so `Setup` divides by it as the code does. The well-formedness and idempotence results therefore assume `maxScroll > 0`.
- Tie-break order. Ties go to the earliest range in the sorted order, because the fold replaces only on a strict `<`. Among pinned triggers with the same start, that is registration order (`PinnedByStartKeepsRegistrationOrder`).

## Left out

- `ScrollTrigger.getAll`, `ScrollTrigger.maxScroll` and `ScrollTrigger.create` are library calls. The trigger list and the maximum scroll are parameters of `Setup`, and the installed rule is the function `SnapTo` over the ranges `Setup` returns.
- The snap `duration`, `delay` and `ease` options (src/App.tsx:48-50) are library tuning. The engine's easing toward the target is not visible in the repository.
- The 500 ms `setTimeout` before setup and the cleanup that clears it and kills every trigger (src/App.tsx:55-61) are timing and lifecycle plumbing.
- Floating-point rounding and NaN are out of scope. All arithmetic is exact over `real`, so `0.5` multiplications and divisions are exact. Any trigger offset the engine reports as NaN is not modelled.
- A trigger's offsets come as numbers from the engine. The model does not bound them to the page (a trigger may start before 0 or end past `maxScroll`), just as the code does not.
- The per-section scroll timelines, the Hero `onLeaveBack` reset and the one-shot reveal animations in `src/sections/` configure the animation library. Interpolation, easing, pinning and scrubbing happen inside it and are not part of this model.
- The contact form, the navigation scroll listener, the mobile menu, anchor jumps and all markup and styling are user-interface plumbing outside the snap coordinator.
- A registry with register/unregister by id does not exist in the code. The coordinator reads the engine's list once, so the model takes that list as given.
