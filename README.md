# Arrow lifecycle of the WebGL globe

`globe.js` draws a globe with arrows between points on its surface. The caller
repeatedly hands the globe a whole replacement set of arrows (`updateArrows`). The globe
reconciles that set with the live arrows:

- a new name grows in with an enter animation, staggered by its place in key order;
- an updated name keeps what is drawn and fades to its new score, or, if it was leaving,
  grows back from where its exit stopped;
- a live name missing from the set shrinks away and is deleted when its exit completes.

Animations are step functions kept in a table (`startAnimation`). The counter
`num_animation_functions` tells `render` whether a frame must be drawn; each drawn frame runs
every pending step function once (`runAnimationFunctions`). Each arrow also has an invisible
"mousemap" twin, painted in a colour that encodes a picking index. `arrowAtCoordinate` reads
one pixel of that picture back and turns it into an arrow name.

The model consists of:

- **Value layer.** The lifecycle state is one value `LifecycleState.GlobeState`, holding:
  - `arrows`;
  - `arrow_by_mousemap_index` and `next_unused_mousemap_index`;
  - `arrows_being_created` and `arrows_being_removed`;
  - the animation table.
- **Pure functions.** Reconciliation, one step function, one frame, easing, picking, the
  clamps, the camera damping and the picking-mesh geometry are pure functions over that value.
- **Class `GlobeModel.Globe`.** It holds the closure's variables as fields. Its methods follow
  the source's loops and are proved to leave `State()` equal to the value-level function
  applied to the state they started from. Where the source is wrong (see "## Findings"), the
  class runs the corrected behaviour; the as-written behaviour is modelled only by value-level
  functions and lemmas.
- **Invariant.** `LifecycleState.Inv` states the bookkeeping the source relies on:
  - every live arrow holds a handed-out picking index;
  - the reverse map is exactly the inverse of those indices;
  - the two flag sets mirror the kinds of pending animations;
  - animation positions stay in [0, 1];
  - meshes carry their arrow's name.

  Reconciliation and frames are proved to keep it.

Modelling choices:

- The replacement object is a sequence of `(name, arrow)` entries with distinct names, in the
  object's key order.
- A step function's closure is the datatype `Scheduling.Animation`: kind, duration, delay and
  first timestamp. One call of it is `Scheduling.Step`.
- Reals stand for JavaScript numbers, without rounding.
- A mesh is a name plus a serial standing for object identity.
- The picking pixel and the scene's children are parameters.

## Model

| member | source | states |
|---|---|---|
| Easing.Ease | globe.js:482-485 | the in-out cubic easing curve as the source writes it; its properties are stated by `EaseFixedPoints`, `EaseStaysInUnitInterval` and `EaseMonotone` |
| Easing.EaseFixedPoints | globe.js:482-485 | the curve maps 0, 1/2 and 1 to themselves, and its two cubic branches agree at 1/2 |
| Easing.EaseStaysInUnitInterval | globe.js:482-485 | progress in [0, 1] is eased into [0, 1]; the first half stays at or below 1/2, the second at or above |
| Easing.EaseMonotone | globe.js:482-485 | the eased progress never decreases as the raw progress grows |
| Scheduling.Step | globe.js:380-391 | a step keeps the animation's kind, duration and delay; it fixes the first timestamp at the first call and never changes it after; a finished step has reported progress |
| Scheduling.StepTiming | globe.js:381-390 | inside the delay a step reports nothing and does not finish; after it, the step finishes exactly when the elapsed time past the delay reaches the duration (a zero duration finishes at once) |
| Scheduling.StepProgressInUnitInterval | globe.js:386-390 | the reported progress is in [0, 1], and a finished step reports exactly 1 |
| Scheduling.StepProgressMonotone | globe.js:381-387 | once the first timestamp is fixed, a later frame never reports less progress |
| Scheduling.StartAsWritten | globe.js:378-393 | as written: the entry is set and the counter rises by one, even when an entry of that name is replaced |
| Scheduling.Start | globe.js:378-393 | corrected: the entry is set and a counter equal to the table size stays equal to it |
| Scheduling.Finish | globe.js:397-403 | deleting a finished entry removes exactly that name and keeps the counter equal to the table size |
| Scheduling.StartAsWrittenOverwriteOvercounts | globe.js:378-393 | as written, starting a name twice leaves the counter one above the table size, and one above even after that entry finishes |
| Scheduling.AsWrittenSurplusNeverShrinks | globe.js:378-404 | as written, after any sequence of starts and deletions of held entries, the counter's surplus over the table size is at least what it was |
| Scheduling.StartOverwriteThenFinishRestoresCount | globe.js:378-403 | corrected, start-start-finish under one name returns the counter to its starting value |
| Scheduling.ApplyAsWritten | globe.js:378-404 | a sequence of as-written starts and deletions of held entries applied to the table and counter; its property is stated by `AsWrittenSurplusNeverShrinks` |
| GlobeModel.Globe.StartAnimation | globe.js:378-393 | the table and counter become `Start` of the old ones |
| GlobeModel.Globe.RunAnimationEntry | globe.js:398-402 | one iteration: the state becomes `RunEntry` of the old state, and the counter stays equal to the table size |
| GlobeModel.Globe.RunAnimationFunctions | globe.js:395-404 | every entry pending at the start runs once; the state becomes `Tick` of the old state, and the counter equals the table size |
| Ticking.RunEntry | globe.js:395-404 | one pending entry run in a frame, with the `onEnd` completions of globe.js:622-680: its step advances its arrow, and a finished entry leaves the table and, for an exit, deletes its arrow; stated by `StepArrowsExit`, `StepArrowsStay`, `StepReverseExit`, `StepAnimationsFinished`, `StepAnimationsPending` and `TickingProperties.AdvancedInRange` |
| Ticking.RunEntries | globe.js:395-404 | the closed form of running a set of pending entries once each; stated by `RunEntriesNone` and `RunEntriesStep`, and by `GlobeModel.Globe.RunAnimationFunctions`, whose loop reaches it |
| Ticking.Tick | globe.js:395-404 | one frame: every entry pending at its start runs once, with the completions of globe.js:622-680; stated by `TickingProperties.TickPreservesInv`, `TickRemovesOnlyCompletedExits`, `FinishedAnimationReachesTarget` and the other `Tick…` lemmas |
| Ticking.Advance | globe.js:624-667 | the `action` closures change only the drawn position and the displayed score, and keep the index, meshes, endpoints and score. A fade keeps the position, and an enter or exit keeps the displayed score. At progress 0 each starts from its start values; at progress 1 an enter or re-enter is fully drawn, a re-enter or fade shows the arrow's score, and an exit is at 0 |
| Ticking.RunEntriesNone | globe.js:395-404 | before any entry runs, the frame's closed form is the starting state |
| Ticking.RunEntriesStep | globe.js:395-404 | running one more entry extends the closed form by that entry, whatever order the loop takes |
| Ticking.StepArrowsExit | globe.js:670-676 | a finished exit deletes its arrow and nothing else from the live set |
| Ticking.StepArrowsStay | globe.js:386-387 | any other step replaces only its own arrow with the advanced one |
| Ticking.StepReverseExit | globe.js:673-674 | a finished exit deletes exactly its own index from the reverse map |
| Ticking.StepAnimationsFinished | globe.js:398-402 | a finished entry leaves the table |
| Ticking.StepAnimationsPending | globe.js:380-391 | an unfinished entry stays, with its first timestamp recorded |
| TickingProperties.AdvanceInRange | globe.js:626-667 | every `action` closure of a well-formed animation keeps the drawn fraction in [0, 1] |
| TickingProperties.AdvancedInRange | globe.js:386-387 | the arrow an entry moves keeps its drawn fraction in [0, 1] |
| TickingProperties.TickKeepsReverseAgreeing | globe.js:395-404 | after a frame the reverse map is still the exact inverse of the live arrows' indices |
| TickingProperties.TickKeepsPositionsInRange | globe.js:395-404 | after a frame every drawn fraction is still in [0, 1] |
| TickingProperties.TickKeepsFlagsMirrored | globe.js:629-676 | after a frame the flag sets still mirror the pending animation kinds |
| TickingProperties.TickPreservesInv | globe.js:395-404 | a frame keeps the whole lifecycle invariant |
| TickingProperties.TickRemovesOnlyCompletedExits | globe.js:670-676 | an arrow leaves the live set in a frame iff its own exit finishes in it; an arrow with no animation is untouched |
| TickingProperties.FinishedAnimationReachesTarget | globe.js:624-667 | a finished animation leaves the table and its arrow at its target: fully drawn and no longer being created after an enter or re-enter, showing its own score after a re-enter or fade, deleted with its reverse entry and flag after an exit |
| Reconcile.NewEntries | globe.js:594-599 | the new group holds exactly the entries whose names are not live |
| Reconcile.UpdatedEntries | globe.js:594-599 | the updated group holds exactly the entries whose names are live |
| Reconcile.NewEntriesAppend | globe.js:596-601 | the new group keeps key order: for a concatenated replacement it is the first part's new entries followed by the second's |
| Reconcile.UpdatedEntriesAppend | globe.js:596-607 | the updated group keeps key order in the same sense |
| Reconcile.FilteredNames | globe.js:594-599 | the new names are the replacement's names minus the live ones, and the updated names are their intersection with the live ones |
| Reconcile.FilteredEntriesDistinct | globe.js:596-599 | both groups keep distinct names |
| GlobeModel.SplitNames | globe.js:592-599 | the split yields the new group, the updated group and the live names left out of the replacement |
| Reconcile.NewArrow | globe.js:601-626 | the record of a new arrow: the caller's data, a fresh index, undrawn, showing its own score, two fresh meshes; stated by `ReconcileProperties.AddNewArrowsOutcome` and `NewArrowOutcome` |
| Reconcile.EnterAnimation | globe.js:628-632 | the enter animation of the i-th new arrow: 2000 ms, delayed by 40 ms per place; stated by `ReconcileProperties.AddNewArrowsOutcome` |
| Reconcile.AddNewArrow | globe.js:601-636 | one iteration of the new-arrow loop; stated by `ReconcileProperties.AddNewArrowPreservesInv`, `AddNewArrowKeepsReverse`, `AddNewArrowKeepsFlags` and `GlobeModel.Globe.AddNewArrow` |
| Reconcile.AddNewArrows | globe.js:601-636 | every new name becomes live; the index counter and the mesh count advance by one and by two per new arrow; nothing is being removed that was not before |
| Reconcile.UpdatedRecord | globe.js:607-619 | corrected: the caller's data with the stored position, displayed score, meshes and picking index kept; stated by `ReconcileProperties.UpdatedArrowOutcome` and `UpdateThenExitRemovesEntry` |
| Reconcile.UpdatedRecordAsWritten | globe.js:607-619 | as written: the stored record keeps position, displayed score and meshes, but its picking index is whatever the caller's object carries |
| Reconcile.ReverseAfterExit | globe.js:673-674 | deleting under an index removes that index only; deleting under `undefined` leaves the reverse map as it was |
| Reconcile.ReEnterAnimation | globe.js:639-650 | the re-enter animation of a leaving arrow: from where its exit stopped, staggered by the counter; stated by `ReconcileProperties.UpdatedArrowOutcome` and `ReEnterPreservesInv` |
| Reconcile.ScoreFadeAnimation | globe.js:652-657 | the fade from the displayed score to the new one; stated by `ReconcileProperties.UpdatedArrowOutcome` and `ScoreFadePreservesInv` |
| Reconcile.UpdateExistingArrow | globe.js:607-658 | one iteration of the update loop, in its three branches; stated by `ReconcileProperties.UpdateExistingArrowPreservesInv`, `UpdateExistingArrowActs`, `UpdateExistingArrowKeeps` and `GlobeModel.Globe.UpdateExistingArrow` |
| Reconcile.UpdateExistingArrows | globe.js:607-658 | updates keep the live set, the index counter and the reverse map, and never lower the stagger counter |
| Reconcile.ExitAnimation | globe.js:666-668 | the exit animation: from the current position (0 counts as 1), lasting 2000 ms times that position, no delay; stated by `ReconcileProperties.RemovedArrowOutcome` |
| Reconcile.RemoveArrow | globe.js:662-680 | one iteration of the removal loop: skipped when already leaving, else flagged and given an exit; stated by `GlobeModel.Globe.RemoveArrow` and `ReconcileProperties.RemovedArrowOutcome` |
| Reconcile.RemoveArrows | globe.js:661-681 | the closed form of the removal loop over a set of names; stated by `RemoveArrowsNone`, `RemoveArrowsStep`, `RemoveArrowsInAnyOrder`, `RemoveArrowsListed` and `ReconcileProperties.RemoveArrowsPreservesInv` |
| Reconcile.RemoveArrowsNone | globe.js:661-681 | removing no names changes nothing |
| Reconcile.RemoveArrowsStep | globe.js:661-681 | removing one more name extends the closed form by that name's iteration |
| Reconcile.RemoveArrowsInOrder | globe.js:661-681 | the removal loop keeps every record (deletion waits for the exit) |
| Reconcile.RemoveArrowsInAnyOrder | globe.js:661-681 | handling distinct removed names one at a time gives the same state in every order |
| Reconcile.RemoveArrowsListed | globe.js:661-681 | any order that lists the removed set once each gives the closed form |
| Reconcile.UpdateArrows | globe.js:590-683 | reconciliation: split, add, update, remove; stated by `ReconcileProperties.UpdateArrowsPreservesInv`, `UpdateArrowsKeys`, `NewArrowOutcome`, `UpdatedArrowOutcome` and `RemovedArrowOutcome` |
| GlobeModel.Globe.UpdateArrows | globe.js:590-683 | the state becomes `Reconcile.UpdateArrows` of the old state, and the invariant and the counter are kept |
| GlobeModel.Globe.AddNewArrows | globe.js:601-636 | the loop over new names leaves the state of `Reconcile.AddNewArrows` |
| GlobeModel.Globe.AddNewArrow | globe.js:601-636 | one new arrow: record, fresh index, reverse entry, two meshes, staggered enter animation, created flag |
| GlobeModel.Globe.UpdateExistingArrows | globe.js:607-658 | the loop over updated names leaves the state of `Reconcile.UpdateExistingArrows` |
| GlobeModel.Globe.UpdateExistingArrow | globe.js:607-658 | one updated name: new data with kept drawing state, then a re-enter, a score fade or nothing; the stagger counter as the source advances it |
| GlobeModel.Globe.RemoveArrows | globe.js:661-681 | the loop over removed names, in any order, leaves the state of `Reconcile.RemoveArrows` |
| GlobeModel.Globe.RemoveArrow | globe.js:662-680 | one removed name: skipped when already leaving, else flagged as leaving and given an exit |
| ReconcileProperties.AddNewArrowPreservesInv | globe.js:601-636 | adding one new name keeps the invariant |
| ReconcileProperties.AddNewArrowKeepsReverse | globe.js:603-605 | the fresh index collides with no live index, so the reverse map stays the exact inverse |
| ReconcileProperties.AddNewArrowKeepsFlags | globe.js:629-634 | the new enter animation and the created flag keep the flags mirrored |
| ReconcileProperties.AddNewArrowsPreservesInv | globe.js:601-636 | adding all new names keeps the invariant |
| ReconcileProperties.UpdateExistingArrowPreservesInv | globe.js:607-658 | one update keeps the invariant, in each of its three branches |
| ReconcileProperties.ReEnterPreservesInv | globe.js:639-650 | turning a pending exit into a re-enter keeps the invariant |
| ReconcileProperties.ScoreFadePreservesInv | globe.js:652-657 | starting a score fade keeps the invariant |
| ReconcileProperties.RecordOnlyPreservesInv | globe.js:607-619 | updating an arrow still being created keeps the invariant |
| ReconcileProperties.UpdateExistingArrowsPreservesInv | globe.js:607-658 | all updates keep the invariant |
| ReconcileProperties.RemoveArrowsPreservesInv | globe.js:661-681 | starting all exits keeps the invariant |
| ReconcileProperties.UpdateArrowsPreservesInv | globe.js:590-683 | reconciliation keeps the invariant |
| ReconcileProperties.AddNewArrowsFrame | globe.js:601-636 | adding new names leaves every other name's record, animation and flags alone |
| ReconcileProperties.UpdateExistingArrowsFrame | globe.js:607-658 | updating names leaves every other name alone |
| ReconcileProperties.RemoveArrowsFrame | globe.js:661-681 | removing names leaves every other name alone |
| ReconcileProperties.AddNewArrowsOutcome | globe.js:601-636 | the j-th new name gets the j-th index from the counter, meshes numbered 2j and 2j+1, position 0, its own score as displayed score, and an enter animation with delay 40j |
| ReconcileProperties.NewArrowOutcome | globe.js:590-683 | after reconciliation, each new arrow is live, undrawn and being created, and its index maps back to it |
| ReconcileProperties.NewArrowPlaced | globe.js:590-683 | after reconciliation the j-th new arrow is as `AddNewArrowsOutcome` placed it, and whether its name is being removed is as before |
| ReconcileProperties.NewArrowSurvivesLaterPhases | globe.js:607-681 | the update and removal loops leave a placed new arrow as it is |
| ReconcileProperties.ReEntries | globe.js:639-650 | the re-entries among some entries are at most their number, and none when no name is leaving |
| ReconcileProperties.StaggerCountsReEntries | globe.js:622-658 | after the update loop, the stagger counter is the number of new arrows plus the number of re-entries |
| ReconcileProperties.UpdateExistingArrowActs | globe.js:607-658 | an update does to its own name what the source prescribes, given a state that agrees under that name |
| ReconcileProperties.UpdateExistingArrowKeeps | globe.js:607-658 | updating another name keeps what an earlier update did |
| ReconcileProperties.UpdateExistingArrowsOutcome | globe.js:607-658 | the j-th updated name ends as prescribed, with stagger equal to the start value plus the re-entries before it |
| ReconcileProperties.UpdatedArrowOutcome | globe.js:590-683 | after reconciliation, each updated arrow carries the caller's data with its old position, displayed score, meshes and index; a leaving one re-enters with the right stagger; a steady one fades to its new score; one still being created is left to its enter |
| ReconcileProperties.UpdatedAsBefore | globe.js:607-658 | the outcome of an update depends on the start state only under the updated name |
| ReconcileProperties.UpdatedAsAfter | globe.js:661-681 | later loops that leave that name alone keep the outcome |
| ReconcileProperties.RemovedArrowOutcome | globe.js:661-681 | a live name missing from the replacement keeps its record and is being removed; its exit runs from the current position (0 counts as 1) with zero delay, unless it was already leaving |
| ReconcileProperties.AddNewArrowsKeys | globe.js:601-606 | adding new names makes exactly those names live in addition |
| ReconcileProperties.UpdateArrowsKeys | globe.js:590-683 | reconciliation makes the live set the old live names plus the replacement's names, and hands out exactly one index per new name |
| ReconcileProperties.ResupplyCancelsPendingExit | globe.js:639-650 | supplying a leaving name again cancels its exit: the invariant holds after reconciliation and the next frame does not delete the arrow, whatever its timestamp |
| ReconcileProperties.UpdateThenExitLeavesStaleEntry | globe.js:607-619 | as written, an arrow updated with a fresh object and then removed leaves its reverse entry behind, pointing at a deleted name |
| ReconcileProperties.UpdateThenExitRemovesEntry | globe.js:670-676 | with the index kept, the exit removes exactly the arrow's own reverse entry and every other live arrow stays pickable |
| LifecycleState.Initial | globe.js:76-78 | the empty lifecycle state with index counter 1; stated by `InitialInv` and `GlobeModel.Globe.constructor` |
| LifecycleState.InitialInv | globe.js:76-78 | the initial state satisfies the lifecycle invariant |
| LifecycleState.LiveIndicesUnique | globe.js:603-605 | two live arrows never share a picking index |
| Picking.EncodeIndex | globe.js:554-556 | the colour a picking mesh is painted in, its index split into three bytes; stated by `DecodeEncode` and `EncodeDecode` |
| Picking.PickingEnabled | globe.js:738-741 | picking is open when the zoom has settled and no drag or touch is active; stated by `PickingDisabledGivesNothing` and `View.SkippedFrameIsIdle` |
| Picking.ArrowAtCoordinate | globe.js:738-750 | the decoded pixel looked up through the gate; stated by `PickingDisabledGivesNothing`, `BackgroundPicksNothing`, `PickingFindsIndexedArrow` and `GlobeModel.Globe.ArrowAtCoordinate` |
| Picking.BitOrOfDisjoint | globe.js:745 | or-ing a shifted value with one that fits below the shift adds them |
| Picking.DecodeIndex | globe.js:745 | the three bytes read as one 24-bit number, below 2^24 |
| Picking.DecodeEncode | globe.js:554-556 | every index below 2^24 comes back from its picking colour |
| Picking.EncodeDecode | globe.js:745 | every pixel is the colour of the index it decodes to |
| Picking.PickingDisabledGivesNothing | globe.js:738-741 | while the zoom has not settled or a drag or touch is active, nothing is picked |
| Picking.BackgroundPicksNothing | globe.js:747 | the background colour, index 0, picks nothing |
| Picking.PickingFindsIndexedArrow | globe.js:738-750 | with picking enabled, an indexed arrow's colour picks exactly that arrow, and an index with no entry is a lookup fault |
| GlobeModel.Globe.ArrowAtCoordinate | globe.js:738-750 | nothing is picked while the gate is closed or on the background; with the gate open, a live arrow holding the decoded index is exactly what is picked, and a non-zero index always gives a hit or a fault; a hit names the live arrow holding the index; a lookup fault names an index no live arrow holds |
| View.ClampDistance | globe.js:782-788 | the target is in [350, 1000]; in range it is kept; below it becomes 350 and above it becomes 1000 |
| View.ClampLatitude | globe.js:765-769 | the latitude is in [-π/2, π/2]; in range it is kept; outside it becomes the nearer bound |
| View.ClampsAreIdempotent | globe.js:782-788 | clamping twice is clamping once, for both clamps |
| View.ClampsAreMonotone | globe.js:765-788 | a larger request never gives a smaller target, for both clamps |
| View.GeographicLongitude | globe.js:762-764 | the rotation target read as a geographic longitude; stated by `GeographicRoundTrip` |
| View.RotationFromLongitude | globe.js:775-776 | a geographic longitude turned into a rotation target; stated by `GeographicRoundTrip` |
| View.GeographicRoundTrip | globe.js:762-776 | the geographic longitude and the rotation target convert into each other without loss |
| View.Damp | globe.js:720-722 | one damping step closes the fixed share of the gap to the target without overshooting |
| View.DampCamera | globe.js:720-722 | damping moves the camera and leaves its targets alone |
| View.DampingApproachesTargets | globe.js:720-722 | rotation and distance each get no farther from their targets, strictly closer when not already there, and end between where they were and the target (no overshoot) |
| View.Converged | globe.js:710-717 | every coordinate is within the tolerance of its target; stated by `DampingKeepsConvergence` |
| View.RenderSkips | globe.js:711-717 | the frame is skipped when no redraw is requested, the camera has converged and the counter is 0; stated by `SkippedFrameIsIdle`, `AsWrittenCounterNeverLetsRenderSkip`, `CorrectedCounterLetsIdleFrameSkip` and `GlobeModel.Globe.Render` |
| View.DampingKeepsConvergence | globe.js:710-722 | a converged camera stays converged |
| View.SkippedFrameIsIdle | globe.js:711-717 | with a counter never below the table size (as written it only runs ahead, corrected it is equal), a skipped frame has an empty animation table, and picking is then enabled iff no drag or touch is active |
| View.AsWrittenCounterNeverLetsRenderSkip | globe.js:378-404 | as written, after a name is started twice and finished, the table is as before, yet after any later sequence of starts and finishes the counter is not 0, so no frame is ever skipped |
| View.CorrectedCounterLetsIdleFrameSkip | globe.js:378-404 | corrected, the same sequence lets an idle, converged frame be skipped |
| GlobeModel.Globe.Render | globe.js:711-727 | a skipped frame changes nothing; otherwise the frame is drawn as `DrawFrame` states; the invariant and the counter consistency are kept |
| GlobeModel.Globe.DrawFrame | globe.js:718-727 | the redraw request is consumed, the camera takes one damping step, and the lifecycle state becomes `Tick` of the old one |
| GlobeModel.Globe.StepCamera | globe.js:720-722 | the camera becomes `DampCamera` of the old camera |
| GlobeModel.Globe.RunPendingAnimations | globe.js:724-727 | a positive counter runs the frame; a zero counter means an empty table, which the frame leaves as it is |
| GlobeModel.Globe.SetDistanceTarget | globe.js:782-788 | the target becomes the clamped argument, and the notification carries the raw argument |
| GlobeModel.Globe.Zoom | globe.js:360-362 | the target moves by `-delta` within the clamp, never the wrong way |
| GlobeModel.Globe.SetRotationTarget | globe.js:765-773 | x is taken as given and y is clamped; two notifications in geographic terms, in order |
| GlobeModel.Globe.SetRotationTargetGeographic | globe.js:775-776 | the geographic longitude given is the one reported back; the latitude is clamped |
| GlobeModel.Globe.WhenTextureLoaded | globe.js:166-169 | a callback runs at once once the texture is in, and is queued before that |
| GlobeModel.Globe.OnTextureLoaded | globe.js:157-163 | the queue runs in order, is emptied, and the flag is set; every callback ever registered has run exactly once, in order |
| GlobeModel.Globe.constructor | globe.js:76-105 | the initial state: no arrows, index counter 1, empty table, initial camera and targets, no texture, default colours |
| ArrowGeometry.MousemapScore | globe.js:508-511 | the picking mesh's minimum score; stated by `MousemapScoreBounds` and `MousemapScoreMonotone` |
| ArrowGeometry.MousemapScoreBounds | globe.js:508-511 | a positive score below `distance_target / 500` is raised to it; other scores are kept; the result is never below the score |
| ArrowGeometry.MousemapScoreMonotone | globe.js:508-511 | a larger score never gives a thinner picking mesh, and raising twice is raising once |
| ArrowGeometry.SurfaceAt | globe.js:515-521 | the surface point at one grid parameter: scale of the arc's centre-line point and signed offset along the tangent; stated by `ArcStaysAboveGlobe`, `ArrowWidthBounded` and `VertexDistanceBounded` |
| ArrowGeometry.ArrowSurfaceAt | globe.js:503-527 | an arrow's surface, with the score raised for the picking mesh; stated by `UndrawnArrowCollapses` and `RecomputeVertices` |
| ArrowGeometry.EnvelopeBounds | globe.js:516-520 | the `4u(1-u)` envelope is in [0, 1], zero at the ends and 1 in the middle |
| ArrowGeometry.ArcStaysAboveGlobe | globe.js:503-527 | the arc's centre line (the scale of its unit centre-line point) stays between the globe's surface and 30 units above it |
| ArrowGeometry.ArrowWidthBounded | globe.js:503-527 | the arrow is no wider than its scaled score, and has no width at its ends |
| ArrowGeometry.DistanceSquared | globe.js:515-521 | the squared distance from the centre of a vertex whose unit tangent is orthogonal to its unit centre-line point; stated by `VertexDistanceBounded` |
| ArrowGeometry.VertexDistanceBounded | globe.js:515-521 | with the unit tangent orthogonal to the unit centre-line point, every vertex lies on or outside the globe's surface and within sqrt(230² + (score·scale)²) of the centre |
| ArrowGeometry.UndrawnArrowCollapses | globe.js:505-506 | an undrawn visible arrow is a single point on the globe |
| ArrowGeometry.GridIndex | globe.js:687-693 | row-major numbering of grid points is a bijection onto the vertex indices |
| ArrowGeometry.GridParameters | globe.js:689-690 | each vertex is evaluated at `slice / slices` and `stack / stacks` |
| ArrowGeometry.RecomputeVertices | globe.js:685-700 | every vertex holds the surface at its own grid parameters |
| ArrowGeometry.FillStack | globe.js:688-694 | one stack's vertices are filled, and the index ends at the next stack |
| Appearance.Recolored | globe.js:578-586 | one child of the scene after recolouring; stated by `RecoloredIsExact`, `RecoloredIsIdempotent` and `OnlyHighlightedNameStandsOut` |
| Appearance.RecoloredIsExact | globe.js:578-586 | a child without a colour uniform is untouched; one with it gets the highlight colour iff its name is the highlighted one, else the arrow colour |
| Appearance.RecoloredIsIdempotent | globe.js:578-586 | recolouring twice is recolouring once, and the result does not depend on the old colour |
| Appearance.OnlyHighlightedNameStandsOut | globe.js:572-586 | after highlighting, exactly the coloured children of that name show the highlight colour |
| GlobeModel.Globe.HighlightArrow | globe.js:572-576 | the name is recorded, every child is recoloured for it, and a redraw is requested |
| GlobeModel.Globe.RecomputeArrowColors | globe.js:578-586 | every child of the scene becomes its recoloured self |

## Left out

- Shaders, the DOM, mouse and touch handlers, `init`, `begin` and the animation-frame loop are not modelled. The input flags `dragging` and `touch_started` are fields that only the picking gate reads.
- The trigonometry of the arc (`computeVectors`, `slerpXyz`, the coordinate matrix) is not modelled. `ArrowGeometry.SurfaceAt` keeps the scale of the arc's unit centre-line point and the signed offset along the unit tangent and reduces the direction to the arc fraction `u`. That the unit tangent is orthogonal to the unit centre-line point, which places a vertex at distance `ArrowGeometry.DistanceSquared` from the centre, is taken from the construction in globe.js:449-457 and not derived.
- Camera placement, `lookAt` and the draw calls of `render` are not modelled; the camera is only the rotation, the distance and their targets.
- `recomputeArrowGeometry`, `addArrow`, `addMousemapArrow` and the scenes themselves are not modelled. A mesh is a name plus a serial; the scene passed to `recomputeArrowColors` is an array parameter.
- Loading the texture and building the globe mesh are not modelled. The loader's completion is the method `OnTextureLoaded`, and callbacks are identities recorded in the order they run.
- The handlers reached by `notifyStateChange` are not modelled; notifications are recorded in order.
- Floating-point rounding is not modelled: the model uses exact reals, and `Math.PI / 2` is the decimal literal `PI_HALF`.
- The getters are not modelled. The setters `setArrowScale`, `setArrowColor`, `setArrowHighlightColor` and `setTextureUrl` are not modelled either. Each returns early when the value is unchanged. Otherwise it assigns its field and requests a redraw, and then:
  - `setArrowScale` recomputes the geometry of both scenes;
  - the two colour setters call `recomputeArrowColors`;
  - `setTextureUrl` removes the globe mesh and calls `addGlobe`.
- Re-entrancy is not modelled: an `onEnd` or `action` closure that calls back into the globe. The closures are the fixed kinds of `Scheduling.AnimationKind`.
- The removed names of `updateArrows` are a set, handled in any order. JavaScript key order is not modelled there; the model proves every order gives the same state.
- `runAnimationFunctions` runs the entries pending at the start of the frame, in any order. JavaScript's `for-in` visits keys added during the loop only in some engines. The model's closures start no new animations, so none are added.
- GlobeModel.Globe.StartAnimation: implements the corrected counter `Scheduling.Start`, not the source's unconditional increment. That increment is modelled by `Scheduling.StartAsWritten`, `Scheduling.AsWrittenSurplusNeverShrinks` and `View.AsWrittenCounterNeverLetsRenderSkip`. `Render` and `RunAnimationFunctions` therefore run with the corrected counter too.
- GlobeModel.Globe.UpdateArrows: stores the corrected record `Reconcile.UpdatedRecord`, which keeps the arrow's picking index. The source's record, which takes the index from the caller's object, is modelled by `Reconcile.UpdatedRecordAsWritten` and `ReconcileProperties.UpdateThenExitLeavesStaleEntry`.
- Reconcile.NewEntries: a replacement name counts as live only when it is an own key of `arrows`. In the source, `name in arrows` also finds names inherited from `Object.prototype`, such as `constructor` or `toString`. Such a name would be treated as an update of a prototype member; the model treats it as new.
- Reconcile.AddNewArrows: assumes every entry of the replacement is a distinct object. Records are values, so aliasing is not modelled. In the source, one object supplied under two names is a single record, and the second index written into it overwrites the first, while the reverse map keeps both indices.
- GlobeModel.Globe.Render: states invariant preservation as `old(Inv(State())) ==> Inv(State())` rather than requiring it. Its only precondition is the scheduler consistency it needs.
- GlobeModel.Globe.RunPendingAnimations: states invariant preservation in the same implication form.
- GlobeModel.Globe.ArrowAtCoordinate: the pixel is a parameter. The picking render and `readRenderTargetPixels` are not modelled.

## Findings

| source | as written | input that shows it | evidently intended | confidence | as-written member | corrected member |
|---|---|---|---|---|---|---|
| globe.js:378-393 | `startAnimation` adds 1 to `num_animation_functions` even when it replaces a pending entry, but the entry is deleted, and the counter lowered, only once | update a steady arrow twice before its score fade finishes; both calls start a fade under the same name | the counter equals the number of table entries, so `render` skips idle frames once every animation is done | medium, not executed | Scheduling.StartAsWritten, Scheduling.StartAsWrittenOverwriteOvercounts, View.AsWrittenCounterNeverLetsRenderSkip | Scheduling.Start, Scheduling.StartOverwriteThenFinishRestoresCount, View.CorrectedCounterLetsIdleFrameSkip |
| globe.js:607-619 | an updated name stores the caller's new object and copies back position, displayed score and meshes, but not `mousemap_index` | update a live arrow with a fresh object, then omit it until its exit finishes; the exit deletes under `undefined` | the updated arrow keeps its picking index, so its exit clears its reverse entry | medium, not executed (depends on callers passing fresh objects) | Reconcile.UpdatedRecordAsWritten, ReconcileProperties.UpdateThenExitLeavesStaleEntry | Reconcile.UpdatedRecord, ReconcileProperties.UpdateThenExitRemovesEntry |
