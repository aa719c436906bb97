# Verified model of the SDK's protocols, overlay geometry and image plumbing

Dafny 4.11. `dafny verify dfyconfig.toml` checks the whole project. Source paths below are relative
to the repository root.

## What is modelled

**Overlay rendering** (`Pixels`, `Draw`, `DrawColors`, `DrawMeaning`, `DrawGeometry`, `DrawRender`). An annotation is drawn either
onto one union canvas or as up to 64 thin windows: four strips a box and one extent a line, else one
extent a shape, else the union. `Draw` says what each rendering is, as functions; `DrawRender` holds
the loops, proved against them; `DrawColors` says from the masks which colour and alpha a pixel of either
rendering has, `DrawGeometry` which pixels its rectangles hold; `DrawMeaning` proves that blending
either rendering leaves the same picture.
The rasteriser is a parameter: a coverage of 0 to 255 for each shape and frame position that is zero
outside the stroke band (`InBand`), whatever canvas it is drawn into; the band is that of upright boxes. `PicturePixel` gives the exact
effect of both renderings for any such coverage; `SamePicture` follows for hard edges, and
`SoftEdgesBlendTwice` shows what half-covered edges do.

**PipelineRunner** (`Queue`, `Runner`, `RunnerSafety`, `RunnerWedge`, `RunnerErrors`). Reader, worker and any number
of `stop()` calls, the destructor's included, share a bounded queue. One step is one critical section; a reachable state is the end of any
interleaving. Evicted sentinels are counted apart from evicted frames, as both raise `dropped`.

**Resident DSP client** (`Resident`, `ResidentSafety`, `ResidentState`). Threads inside
`shared_dsp_call`, one resident, retired clients and their deferred close. Fetching the client and
counting the call are separate steps. What a call risks is settled as it is counted: a client is
gone beneath it if and only if a drain had taken it by then (`CountedCallExactly`,
`CallIsSafeExactly`), so a call counted on the resident, or on a client retired but not yet drained,
is never cut off; pools likewise. Ownership is Python's: the retired set is weak, so an unreferenced
client may vanish from it. `ResidentState` is the C++ slot with its erasing loop.

**NMS and the YOLO finish** (`Nms`, `NmsLaws`, `NmsFinish`, `NmsCode`). Scores, boxes and IoU are exact
reals.
The matrix form with its suppressed flags is proved to compute the recursive greedy rule, and the
laws are proved of the rule; `KeptIsRight` and `FinishedIsRight` tell the result from scores and coordinates
alone. `ChosenIsGreedy` and `GreedyIsChosen` pin the rule to a reading without
any loop.

**Write lease** (`Rotation`, `Lease`, `LeaseSafety`, `LeaseReservation`, `LeaseLost`, `LeaseClient`,
`LeaseRuns`, `LeaseStreams`). The publisher's in-flight set against a daemon that takes pushes and releases buffers
when it likes. A state tears when the buffer about to be rewritten is one the daemon still holds, one
of a stream request still to be sent, or one reserved by `acquire_slot`. A call is paced when the
rotation does not come back to a reserved slot and, for a stream, when it builds no more frames than
are free. A push may reach the daemon and its answer be lost, which leaves the client taking the buffer
for free (`LeaseLost`). `LeaseClient` is the object; `LeaseRuns` shows that publish, publish_rgb, acquire_slot and
push_slot calls are runs of the machine, whatever their outcome.

**NV12 geometry** (`Letterbox`, `LetterboxImage`), **strided pools** (`StridedPool`), **message
framing** (`Framing`), **multi-crop slots** (`Slots`), **stream pipeline** (`StreamPipeline`,
`StreamRuns`) and the **run-length mask** (`Rle`). `Division` holds the arithmetic of rows and columns
they share, `Sequences` and `Wrappers` what else is common.

## What the proofs found

- Fragments of a box that reaches above or below the frame keep side strips as tall as the box, so
  `blend_hw` refuses them: `FragmentsFitOneJob` gives the exact condition, `TallBoxIsRefused` a case.
- The comment at `cpp/src/draw.cpp:341-342` calls the extents of the two renderings identical. Once a
  line follows other shapes they need not be: the union canvas adds a stroke margin to the extent
  reached so far. `ExtentsAgreeExactly` says when they are the same, `ExtentsDiffer` shows a box with
  a line inside it. The pixels (`SamePicture`) and the refusals (`SameRefusal`) are the same either way.
- A runner whose source ends naturally can stand still for ever: the reader passes its stop check,
  the worker leaves, and sentinels of stop() calls fill the queue before the reader puts its own.
  Nothing else stands still (`StandstillExactly`). It takes exactly one call for every place of the
  queue, and one more when no error limit can send the worker away (`WedgeExactly`); with fewer calls
  a runner that stands still has finished (`BelowTheBudget`). At the defaults (queue_size 1, ten
  consecutive errors; cpp/include/neoruntime_ipc_sdk/runner.hpp:83-87) that budget is one call, and
  the destructor makes it.
- A call that fetched the resident but was counted only after another thread retired it and a drain
  took it runs on a closed client (`LateCallMeetsClosedClient`); that is the only such case.
- `publish_stream` is safe against every daemon exactly when it has at most one frame or no more
  frames than free slots (`StreamSafeExactly`).
- A slot from `acquire_slot` survives m further acquisitions before its push exactly when m is below
  the number of slots free at the reservation (`ReservationExactly`). A `publish_rgb` in between puts
  the rotation back to slot 0, and the next acquisition may hand out the reserved slot
  (`RgbResetsRotation`).
- After a push that reached the daemon but whose answer was lost, the client can come to rewrite the
  buffer exactly when the daemon still holds it (`LostAnswerExactly`). What the client can count on:
  as long as it is told nothing, it has as many acquisitions as the rotation passes free slots before
  the lost buffer, or before one reserved at the time, even if more answers are lost
  (`LostAnswerBudget`); an answered push or a reporting status call within them ends the danger
  (`ReportEndsTheDanger`).
- An nv12 letterbox of a very thin picture has no content at all (`ContentVanishes`,
  `ThinPictureVanishes`).

`scale_crop` to an odd nv12 size would ask for a window larger than the scaled image
(`WindowInsideExactly`, `OddWindowIsNot`), but `resize_hw` refuses odd nv12 destinations first
(cpp/src/dsp.cpp:1345), so no caller meets it; for every even one the window is inside
(`EvenWindowIsInside`).

## Model

| member | source | states |
|---|---|---|
| Pixels.Mix | cpp/src/dsp_format.cpp:284-286 | the integer alpha formula: alpha 0 keeps the background, 255 replaces it, every other alpha stays between the two and in 0..255 |
| Pixels.CpuBlend | cpp/src/dsp_format.cpp:270-292 | on an rgb24 base every result pixel is the list-order blend of the overlays landing on it, the base untouched |
| Pixels.PixelExactly | cpp/src/dsp_format.cpp:273-289 | each overlay of the list leaves every channel of the pixels it reaches less than one below the exact blend of its own channel over what was there, never above, and no other pixel changed |
| Pixels.BlendOne | cpp/src/dsp_format.cpp:273-289 | one overlay in place: overhang clipped, negative or off-frame origins skipped |
| Pixels.PixelAfterConcat | cpp/src/dsp_format.cpp:273-289 | blending two lists one after the other is blending their concatenation |
| Pixels.DisjointOverlaysCommute | cpp/src/dsp_format.cpp:270-292 | overlays over disjoint rectangles commute anywhere in a list |
| Pixels.Padded | cpp/src/dsp.cpp:1684-1704 | padding makes both sides at least 16 and the height even, and leaves an overlay that is so alone |
| Pixels.PaddingIsInvisible | cpp/src/dsp.cpp:1671-1704 | the transparent padding of blend_hw never changes a blended pixel, for any overlay list |
| Draw.Frags | cpp/src/draw.cpp:386-439 | per edge, else per shape, else the union: at most 64 rectangles |
| Draw.Window | cpp/src/draw.cpp:443-465 | a fragment's window: at least 16 wide, floored, raised for captions, of even height, slid back to the frame's start |
| DrawRender.Colorize | cpp/src/draw.cpp:115-133 | every canvas pixel is the painter's fold of its coverages, and so has the colour of the last mask that covers it and the largest coverage, or is clear |
| DrawRender.CoatAll | cpp/src/draw.cpp:118-131 | one mask's turn in place: its colour and the larger coverage where it covers, nothing elsewhere |
| DrawRender.DrawMasks | cpp/src/draw.cpp:85-110 | one mask a shape, boxes first, each holding the shape's coverage at frame positions |
| DrawRender.RenderWindow | cpp/src/draw.cpp:85-133 | masks then colours: the canvas of a window |
| DrawRender.RenderOverlayRgba | cpp/src/draw.cpp:235-305 | the union canvas or the error of the specification, in the source's order of checks; each pixel of the canvas painted from what every shape covers there |
| DrawRender.Extents | cpp/src/draw.cpp:341-371 | every shape's stroke extent and the running union |
| DrawRender.PushEdges | cpp/src/draw.cpp:387-405 | the non-empty strips of one box, in order |
| DrawRender.CutEdges | cpp/src/draw.cpp:386-412 | the first tier |
| DrawRender.CutShapes | cpp/src/draw.cpp:421-435 | the second tier |
| DrawRender.CutFragments | cpp/src/draw.cpp:386-439 | the tier that is taken and its rectangles |
| DrawRender.PlaceWindow | cpp/src/draw.cpp:443-465 | the window of a fragment |
| DrawRender.SelectShapes | cpp/src/draw.cpp:466-477 | exactly the shapes whose extent meets the window, with their own colours |
| DrawRender.RenderTile | cpp/src/draw.cpp:443-480 | nothing when no shape meets the window, else its canvas |
| DrawRender.RenderOverlayFragments | cpp/src/draw.cpp:307-481 | the fragment list or the error of the specification; each pixel of each canvas painted from what the shapes that meet it cover there |
| DrawColors.PaintIsPainted | cpp/src/draw.cpp:115-133 | the fold, told from the masks: red, green and blue of the last covering one, for alpha a mask's value that none exceeds, clear where none covers |
| DrawColors.MaskExactly | cpp/src/draw.cpp:46-110 | a mask holds the shape's stroke, and a caption's ink at the box's left edge on one row of the frame, six above its top, whatever canvas it is drawn on; where the rows are clamped and when a fragment has no caption |
| DrawColors.OneCanvasShows | cpp/src/draw.cpp:235-305 | the canvas of the first rendering: its window, and every pixel painted so |
| DrawColors.FragmentsShow | cpp/src/draw.cpp:440-481 | every canvas of the second is a fragment's window with every pixel painted so |
| DrawColors.OverlapsExactly | cpp/src/draw.cpp:135-140 | rectangles overlap exactly when some pixel is in both |
| DrawGeometry.BBoxExactly | cpp/src/draw.cpp:343-371 | a shape's extent in its own coordinates |
| DrawGeometry.ExtentsTight | cpp/src/draw.cpp:341-371 | each side of the joint extents is some shape's |
| DrawGeometry.RefusedExactly | cpp/src/draw.cpp:240-299 | which lists are refused, with which error: no shape, a short line, no pixel of the frame |
| DrawGeometry.StripsAreTheRing | cpp/src/draw.cpp:387-405 | the strips of a box hold exactly its ring within the union, as wide as its caption, and none of its inside |
| DrawGeometry.FragmentsHold | cpp/src/draw.cpp:386-439 | while four strips a box and one a line make at most 64, the fragments hold exactly the rings and the lines' extents; beyond, for up to 64 shapes, their extents |
| DrawGeometry.WindowMovesOnlyToFit | cpp/src/draw.cpp:457-465 | a window starts where its fragment does, or as near as the frame lets it |
| DrawGeometry.CaptionsHaveRoom | cpp/src/draw.cpp:443-452 | every caption in a fragment has its rows in the window, which is no taller than captions and floor ask for |
| DrawMeaning.StrokeInBBox | cpp/src/draw.cpp:343-371 | a shape's stroke lies in its extent |
| DrawMeaning.EdgesCover | cpp/src/draw.cpp:379-412 | a box's strips cover its stroke within the union |
| DrawMeaning.FragsCover | cpp/src/draw.cpp:379-439 | in every tier, every stroke pixel of the frame lies in a fragment |
| DrawMeaning.WindowHolds | cpp/src/draw.cpp:459-465 | flooring, evening and sliding never lose a frame pixel of the fragment |
| DrawMeaning.SelectionPaintsAll | cpp/src/draw.cpp:466-480 | painting only the shapes that meet a window paints every frame pixel of it as painting all of them would |
| DrawMeaning.PicturePixel | cpp/src/draw.cpp:235-481 | for any coverage in the stroke band: the canvas blends a pixel's ink once, the fragments once per window holding it, and inked pixels are in at least one |
| DrawMeaning.SamePicture | cpp/src/draw.cpp:235-481 | uncaptioned hard-edged shapes: both renderings succeed or neither, and fragments and union canvas leave the same picture, in all three tiers |
| DrawMeaning.SoftEdgesBlendTwice | cpp/src/draw.cpp:386-412 | with half coverage the two differ, on a named box and pixel |
| DrawMeaning.SameRefusal | cpp/src/draw.cpp:240-299 | both renderings accept and refuse the same annotations with the same error, captions included |
| DrawMeaning.ExtentsAgreeExactly | cpp/src/draw.cpp:341-371 | the two renderings' extents are the same exactly when there is no line or the last one reaches on every side as far as the union canvas did before it; clamped, side by side |
| DrawMeaning.ExtentsDiffer | cpp/src/draw.cpp:341-342 | a box with a line inside it has different clamped extents |
| DrawMeaning.EdgesBounded | cpp/src/draw.cpp:387-405 | a strip outgrows the frame exactly when it is a side strip taller than it |
| DrawMeaning.WindowInFrame | cpp/src/draw.cpp:459-465 | a window is inside the frame exactly when it is no larger |
| DrawMeaning.FragmentsFitOneJob | cpp/src/draw.cpp:414-439 | never more than 64 fragments; uncaptioned on a legal even frame all pass blend_hw unpadded exactly when no box overshoots |
| DrawMeaning.BoxesInFrameFit | cpp/src/draw.cpp:386-465 | boxes whose strokes stay within the frame's rows never overshoot |
| DrawMeaning.AcceptedNeedsNoPadding | cpp/src/dsp.cpp:1682-1714 | padding leaves accepted fragments as they are |
| DrawMeaning.TallBoxIsRefused | cpp/src/dsp.cpp:1705-1712 | a box of rows 10 to 200 on a 64x64 frame yields a fragment blend_hw refuses |
| Queue.FrameQueue.Put | cpp/src/runner.cpp:35-45 | appends unless the queue stays full, then leaves it alone |
| Queue.FrameQueue.TryPutSentinel | cpp/src/runner.cpp:47-55 | appends the sentinel unless full |
| Queue.FrameQueue.Get | cpp/src/runner.cpp:68-75 | takes the oldest item |
| Queue.FrameQueue.TryGet | cpp/src/runner.cpp:77-84 | takes the oldest item if there is one |
| Queue.FrameQueue.EnqueueTerminal | cpp/src/runner.cpp:266-278 | alone at the queue it terminates with the sentinel last, at the cost of at most the oldest item |
| RunnerSafety.KeepsSignalled | cpp/src/runner.cpp:182-278 | every step keeps that a worker in its loop with the reader gone is or will be signalled |
| RunnerSafety.KeepsConserved | cpp/src/runner.cpp:182-278 | every step keeps each pulled frame in exactly one place |
| RunnerSafety.KeepsCounted | cpp/src/runner.cpp:182-300 | every step keeps the counters equal to what happened, the consecutive errors included |
| RunnerSafety.KeepsOrdered | cpp/src/runner.cpp:182-278 | every step keeps the queue the newest contiguous run and processing in source order |
| RunnerSafety.ReachableInv | cpp/src/runner.cpp:131-278 | the whole invariant holds in every reachable state |
| RunnerSafety.NoLostTerminal | cpp/src/runner.cpp:131-148 | worker in its take loop and reader done: a sentinel is queued or a stopper is still enqueuing one |
| RunnerSafety.FramesAccounted | cpp/src/runner.cpp:182-278 | every pulled frame is in exactly one place; dropped is evicted frames plus evicted sentinels; capacity, order and contiguity |
| RunnerSafety.StandstillExactly | cpp/src/runner.cpp:212-217 | no thread can move exactly when all are finished or the reader is wedged in put_sentinel |
| RunnerWedge.KeepsOwed | cpp/src/runner.cpp:182-278 | until the reader is done, every step keeps that sentinels queued, stoppers inside and the one that sent the worker away are no more than the stop() calls so far, that nothing is signalled before the flag is up, and that no frame comes behind a worker that left past the reader's check |
| RunnerWedge.WedgeExactly | cpp/src/runner.cpp:109-148 | some run with at most n calls to stop() or the destructor wedges if and only if n is at least the capacity, plus one without an error limit |
| RunnerWedge.BelowTheBudget | cpp/src/runner.cpp:109-148 | with fewer calls no thread can move exactly when all have finished |
| RunnerWedge.WedgeIsReachable | cpp/src/runner.cpp:212-213 | for every capacity and limit the wedge can happen; at the defaults with a single call |
| RunnerErrors.ConsecutiveExactly | cpp/src/runner.cpp:280-300 | in every reachable state the consecutive errors are the failures since the last success |
| RunnerErrors.FlagExactly | cpp/src/runner.cpp:218-258 | without a stop() call the flag is up exactly when the worker, after a failure, found the last max_consecutive_errors outcomes all failures |
| ResidentSafety.KeepsCounter | python/neoruntime_ipc_sdk/accel.py:202-214 | every step keeps the counter equal to the calls inside |
| ResidentSafety.GoneStep | python/neoruntime_ipc_sdk/accel.py:153-174 | a client is marked for closing by a drain and nothing else |
| ResidentSafety.DrainTakesAll | python/neoruntime_ipc_sdk/accel.py:164-174 | a drain with no call counted leaves only retired clients with a live pool, the others are on their way to be closed; with a call counted it takes none |
| ResidentSafety.ReachableInv | python/neoruntime_ipc_sdk/accel.py:118-214 | the whole invariant holds in every reachable state |
| ResidentSafety.GoneBeneathExactly | python/neoruntime_ipc_sdk/accel.py:135-174 | in every reachable state a client is closed or closing beneath a counted call exactly when the call was counted after a drain took it; beneath a live pool, exactly when such a call made it |
| ResidentSafety.NeverClosedBeneathACall | python/neoruntime_ipc_sdk/accel.py:135-174 | no client is closed or closing under a call counted on it while resident or undrained, nor under a live pool such a call made |
| ResidentSafety.CountedCallExactly | python/neoruntime_ipc_sdk/accel.py:202-214 | over every run until a counted call leaves, its client is gone if and only if it was gone when the call was counted, that is, neither resident nor in the retired set |
| ResidentSafety.CallIsSafeExactly | python/neoruntime_ipc_sdk/accel.py:202-214 | some continuation closes the client beneath the call exactly when, as it is counted, the client is neither resident nor in the retired set |
| ResidentSafety.ResidentCallIsSafe | python/neoruntime_ipc_sdk/accel.py:192-200 | a call counted on the resident never has it closed beneath it |
| ResidentSafety.LivePoolExactly | python/neoruntime_ipc_sdk/accel.py:153-174 | over every run while a pool lives, its client is gone if and only if it was when the pool was made |
| ResidentSafety.ClosedAtMostOnce | python/neoruntime_ipc_sdk/accel.py:164-174 | closed at most once, only after retirement, only after a call on it failed, never while resident |
| ResidentSafety.RetirementIsFinal | python/neoruntime_ipc_sdk/accel.py:127-150 | only a failing call's drop retires, and a step that installs a resident installs a new client |
| ResidentSafety.LateCallMeetsClosedClient | python/neoruntime_ipc_sdk/accel.py:203-207 | a call counted too late can run on a closed client |
| ResidentState.SieveIsIdle | cpp/src/accel.cpp:406-421 | what the erasing loop takes and leaves is what a drain step takes and leaves |
| ResidentState.Slot.LazyClient | cpp/src/accel.cpp:385-393 | the resident if there is one, else a new client made resident |
| ResidentState.Slot.Drop | cpp/src/accel.cpp:395-402 | only the current resident is retired, once |
| ResidentState.Slot.CallLeave | cpp/src/accel.cpp:142-149 | the last call out takes every retired client without pools, any other nothing |
| ResidentState.Slot.TakeIdle | cpp/src/accel.cpp:406-421 | nothing while a call is counted; else every retired client without pools, order kept |
| Nms.IouLaws | cpp/src/postprocess.cpp:83-102 | in 0..1 and symmetric for all boxes, 0 for degenerate ones, 1 for a proper box against itself |
| Nms.IouExactly | cpp/src/postprocess.cpp:83-102 | in side products: the overlap is above a threshold exactly when the shared rectangle is more than that part of both areas less the shared one |
| Nms.SortedDescends | cpp/src/postprocess.cpp:113-119 | the visiting order is a permutation by descending score, ties by index |
| Nms.ChosenIsGreedy | cpp/src/postprocess.cpp:121-131 | any set in which an index is chosen exactly when no earlier chosen one hits it is what the greedy rule keeps |
| Nms.GreedyIsChosen | cpp/src/postprocess.cpp:121-131 | the greedy rule is such a set |
| NmsLaws.KeptExactly | cpp/src/postprocess.cpp:71-131 | order of the kept; no two of one class above the threshold; a box is left out exactly when an earlier kept one of its class overlaps it above the threshold |
| NmsLaws.KeptIsRight | cpp/src/postprocess.cpp:71-131 | the kept list told in scores and coordinates: its order, and for every index whether and why it is missing |
| NmsLaws.ThresholdCommutes | cpp/src/postprocess.cpp:149-162 | filtering by score first leaves what suppressing first and filtering after would leave, in order |
| NmsLaws.ClassesDecompose | cpp/src/postprocess.cpp:103-111 | the kept of each class are what suppression returns on that class alone |
| NmsLaws.SuppressTwice | cpp/src/postprocess.cpp:71-131 | suppressing the kept boxes keeps all of them, in place |
| NmsLaws.GreedyFilter | cpp/src/postprocess.cpp:121-131 | selection commutes with the greedy rule when strikers of the selected are selected |
| NmsLaws.SortedFilter | cpp/src/postprocess.cpp:113-119 | selection commutes with the stable sort |
| NmsCode.FillOverlaps | cpp/src/postprocess.cpp:82-102 | the matrix holds every pair's IoU, both ways round, and a zero diagonal |
| NmsCode.ZeroAcrossClasses | cpp/src/postprocess.cpp:103-111 | pairs of different classes become zero and nothing else changes |
| NmsCode.Visit | cpp/src/postprocess.cpp:121-131 | the suppressed-flag loop computes the greedy rule |
| NmsCode.RunNms | cpp/src/postprocess.cpp:71-132 | the whole function: errors in the source's order, an empty list before the threshold check, else the list KeptIsRight describes |
| NmsCode.KeepHighScores | cpp/src/postprocess.cpp:152-161 | boxes, scores and classes of the indices that pass, in order |
| NmsCode.CollectObjects | cpp/src/postprocess.cpp:164-194 | one object per kept index that survives clipping, in order |
| NmsFinish.PlacedExactly | cpp/src/postprocess.cpp:166-194 | an object's corners are those of its mapped box, cut to the picture when clipping; it is left out exactly when clipping leaves no width or no height |
| NmsFinish.FinishedIsRight | cpp/src/postprocess.cpp:149-195 | the objects told from the inputs: those kept, of at least the score threshold and showing, best score first; or the threshold error, or none |
| NmsCode.Finish | cpp/src/postprocess.cpp:149-195 | the objects are those of suppressing everything and dropping low scores afterwards |
| Rotation.PickSlot | cpp/src/detail/injection_logic.hpp:193-201 | the slot picked is not in flight |
| Rotation.PickExactly | cpp/src/detail/injection_logic.hpp:190-201 | refused exactly when every buffer is in flight; otherwise the first free slot of the rotation |
| Rotation.PickPasses | cpp/src/injection.cpp:339-344 | one acquisition passes exactly one free slot of those before any given free one, or takes that one |
| LeaseSafety.KeepsKnown | cpp/src/injection.cpp:152-371 | every step but the loss of an answer keeps what the daemon holds inside the in-flight set, up to exchanges under way |
| LeaseSafety.KeepsReserved | cpp/src/injection.cpp:312-326 | every step keeps reserved buffers out of everybody else's hands |
| LeaseSafety.KeepsRoom | cpp/src/injection.cpp:181-203 | a paced stream with frames built never has to wait for a slot, and no paced call comes to a reserved one |
| LeaseSafety.NeverTorn | cpp/src/injection.cpp:152-371 | in every run of publish, publish_rgb, acquire_slot, push_slot and streams, paced but in any order and every push that arrives answered, no buffer still to be read or reserved is rewritten; between calls the daemon's set is inside the client's |
| LeaseSafety.StreamSafeExactly | cpp/src/injection.cpp:181-221 | a stream is safe against every daemon exactly when it has at most one frame or at most as many as free slots |
| LeaseSafety.StreamOverBudget | cpp/src/injection.cpp:189-196 | for any longer stream, a daemon and a run that rewrites a frame still to be sent |
| LeaseReservation.SurvivesExactly | cpp/src/injection.cpp:335-351 | with the cursor anywhere, a reserved slot is handed out again by some daemon within m acquisitions exactly when m exceeds the free slots before it |
| LeaseReservation.ReservationExactly | cpp/include/neoruntime_ipc_sdk/injection.hpp:165-169 | a slot just acquired survives m further acquisitions exactly when m is below the slots free at the reservation |
| LeaseReservation.RgbResetsRotation | cpp/src/injection.cpp:250-254 | publish_rgb's wait puts the cursor to 0, so a reserved slot 0 is handed out by the next acquisition |
| LeaseReservation.RotateTo | cpp/src/injection.cpp:335-351 | failing publish calls bring the rotation to any free slot in one more acquisition than there are free ones before it |
| LeaseLost.LostAnswerExactly | cpp/src/injection.cpp:164-179 | after any push that arrived and was taken for failed, a paced continuation rewrites a buffer still to be read if and only if the daemon still holds the pushed one |
| LeaseLost.LostAnswerTears | cpp/src/injection.cpp:241-277 | it happens to the first publish_rgb |
| LeaseLost.LostAnswerBudget | cpp/src/injection.cpp:164-179 | uninformed, m further acquisitions by calls of any outcome rewrite nothing still to be read if m free slots lie before the lost buffer and before every reserved one; and only if, when the daemon still holds it |
| LeaseLost.ReportEndsTheDanger | cpp/src/injection.cpp:335-371 | after an answered push or a reporting status call within those acquisitions, nothing paced and answered ever rewrites a buffer still to be read |
| LeaseClient.PickFreeSlot | cpp/src/detail/injection_logic.hpp:193-201 | the rotation loop computes the pick |
| LeaseClient.Acquire | cpp/src/injection.cpp:335-351 | an acquired slot is free in the set it leaves and the cursor moves past it; a timeout leaves the cursor |
| LeaseClient.FramePublisher.AcquireSlotIds | cpp/src/injection.cpp:335-351 | the polling loop computes the acquisition over the daemon's answers |
| LeaseClient.FramePublisher.PushSlotRequest | cpp/src/injection.cpp:164-179 | a failed push leaves the set; an answered one replaces it |
| LeaseClient.FramePublisher.Publish | cpp/src/injection.cpp:152-179 | outcome and full new state: closed, exhausted, failed or answered |
| LeaseClient.FramePublisher.PublishRgb | cpp/src/injection.cpp:241-277 | the same for the one-deep staging buffer, which the first call does not wait for |
| LeaseClient.FramePublisher.AcquireSlot | cpp/src/injection.cpp:312-316 | outcome and new state of reserving a slot |
| LeaseClient.FramePublisher.PushSlot | cpp/src/injection.cpp:318-326 | outcome and new state of pushing a reserved slot, bad slots refused |
| LeaseClient.FramePublisher.PublishStream | cpp/src/injection.cpp:181-221 | outcome and full new state: closed, exhausted part-way, or the requests in order carried or refused by the one streaming call |
| LeaseClient.FramePublisher.PublishEos | cpp/src/injection.cpp:292-296 | the end-of-stream flag is set only when the push goes through |
| LeaseClient.FramePublisher.Destroy | cpp/src/injection.cpp:122-137 | one end-of-stream is sent exactly when frames were published and none was, and the publisher is closed whatever comes of it |
| LeaseRuns.AcquireRuns | cpp/src/injection.cpp:335-351 | the polling loop is a run of the machine with the same outcome |
| LeaseRuns.PublishRuns | cpp/src/injection.cpp:152-179 | a publish or publish_rgb call, served or timed out, answered or failed, is a run of the machine with the same cursor and in-flight set |
| LeaseRuns.AcquireSlotRuns | cpp/src/injection.cpp:312-316 | so is acquire_slot, which leaves its slot reserved |
| LeaseRuns.PushSlotRuns | cpp/src/injection.cpp:318-326 | so is push_slot of a reserved slot |
| LeaseStreams.BlindTurns | cpp/src/injection.cpp:353-357 | without the lease, publish k of a row takes the slot k places on, whatever is in flight |
| LeaseStreams.BlindUsesAll | cpp/src/injection.cpp:353-357 | as many publishes as buffers use every buffer once |
| LeaseStreams.StreamCarriesFrames | cpp/src/injection.cpp:181-221 | a stream has one request a frame, and if no buffer is used twice each buffer still holds its request's frame |
| LeaseStreams.StreamTakesFree | cpp/src/injection.cpp:189-203 | a leased stream of no more frames than free buffers is built at once, from free buffers, none twice |
| LeaseStreams.AbsorbedExactly | cpp/src/injection.cpp:359-371 | only a leasing client takes the daemon's answer, and only when there is one |
| Letterbox.HalfEvenIsNearest | cpp/src/dsp_format.cpp:17-18 | rounds to the nearest integer, ties to even |
| Letterbox.ScaleMeets | cpp/src/dsp_format.cpp:141-144 | the common scale keeps both sides within (or beyond) the destination and meets one of them |
| Letterbox.ContentFits | cpp/src/dsp_format.cpp:141-156 | letterboxed content lies inside the canvas; in nv12 all offsets and sizes are even and the chroma rows fit |
| Letterbox.ContentFillsAndCentres | cpp/src/dsp_format.cpp:141-155 | outside nv12 one side is the canvas's; in the middle the margins differ by at most one pixel, nv12 three |
| Letterbox.ContentKeepsShape | cpp/src/dsp_format.cpp:141-168 | the side that decides the scale becomes the destination's, the other the sizes' proportion of it, up to rounding |
| Letterbox.UpLeftIsCornered | cpp/src/dsp_format.cpp:150-151 | in the upper-left position the same content starts at the corner |
| Letterbox.ContentVanishes | cpp/src/dsp_format.cpp:141-148 | nv12 content is empty exactly when a destination side is 1, 2*src.w*dst.h < 3*src.h or 2*src.h*dst.w < 3*src.w; otherwise never |
| Letterbox.ThinPictureVanishes | cpp/src/dsp_format.cpp:141-149 | 8192x16 letterboxed to 16x16 keeps no row |
| Letterbox.WindowInsideExactly | cpp/src/dsp_format.cpp:158-169 | the scale_crop window is inside the scaled image exactly when nv12 asks for no odd side that is met to the half pixel, 2*src.w*dst.h < (2*dst.w+1)*src.h or the same for the height |
| Letterbox.WindowIsCentred | cpp/src/dsp_format.cpp:169 | the window has the destination's size; what is cut off on two sides differs by at most three pixels |
| Letterbox.EvenWindowIsInside | cpp/src/detail/dsp_wire.hpp:246-256 | for the even destinations nv12 callers are held to, the window is always inside |
| Letterbox.OddWindowIsNot | cpp/src/dsp_format.cpp:158-169 | covering 3x3 with an nv12 2x2 asks for more than there is |
| Letterbox.AcceptedIsCroppable | cpp/src/dsp_format.cpp:106-123 | a validated rectangle lies in the picture, luma and chroma |
| Letterbox.AcceptedExactly | cpp/src/dsp_format.cpp:106-123 | and nothing else is refused |
| Letterbox.WindowIsCroppable | cpp/src/dsp_format.cpp:158-169 | so does the scale_crop window when it is inside |
| LetterboxImage.CopyRegion | cpp/src/dsp_format.cpp:194-208 | copies one rectangle of cells and nothing else |
| LetterboxImage.Place | cpp/src/dsp_format.cpp:187-210 | content cells inside the frame, black and neutral chroma elsewhere |
| LetterboxImage.CpuCrop | cpp/src/dsp_format.cpp:212-223 | every cell of the crop, luma and chroma, from its place in the picture |
| LetterboxImage.PlaceAndCrop | cpp/src/dsp_format.cpp:187-223 | cropping a placed canvas at the frame returns the content cell for cell |
| LetterboxImage.LetterboxAndBack | cpp/src/dsp_format.cpp:138-223 | with the computed geometry: letterboxing then cropping returns the stretched content |
| StridedPool.RowsReadBack | cpp/src/dsp.cpp:156-173 | rows laid out at any stride gather back to the same bytes |
| StridedPool.PaddingUntouched | cpp/src/dsp.cpp:165-172 | bytes outside the rows are not written |
| StridedPool.TightRows | cpp/src/dsp.cpp:160-164 | without padding the row loop and the single copy agree |
| StridedPool.Memcpy | cpp/src/dsp.cpp:160-172 | a byte copy replaces one stretch and nothing else |
| StridedPool.CopyRows | cpp/src/dsp.cpp:156-173 | both directions and both paths against the row functions |
| StridedPool.PackedRows | cpp/src/dsp.cpp:156-173 | byte b of row r of the packed bytes is at stride * r + b of the memory |
| StridedPool.ShapedExactly | cpp/src/dsp.cpp:481-507 | the shape an image of each format has |
| StridedPool.PlanesFillImage | cpp/src/detail/dsp_wire.hpp:232-244 | the planes' rows take up exactly the packed image |
| StridedPool.DspBufferPool.WritePlane | cpp/src/dsp.cpp:509-525 | one plane's rows hold its part of the image, its padding as before |
| StridedPool.DspBufferPool.Write | cpp/src/dsp.cpp:475-533 | errors in order; every byte of the image at its row and column of the slot's planes, padding and other slots untouched |
| StridedPool.DspBufferPool.Read | cpp/src/dsp.cpp:535-571 | the slot's bytes, row by row from its planes, in the format's shape, nothing changed |
| StridedPool.DspBufferPool.WriteThenRead | cpp/src/dsp.cpp:475-571 | read after write returns the written image, four formats, any strides |
| Slots.OrderDistinct | cpp/src/dsp.cpp:1438-1444 | one pool per distinct size |
| Slots.OrderOfAppearance | cpp/src/dsp.cpp:1438-1446 | sizes come in the order they first appear |
| Slots.CountExactly | cpp/src/dsp.cpp:1438-1446 | a size counts as often as there are windows of it |
| Slots.PlacesFitAndDiffer | cpp/src/dsp.cpp:1438-1470 | every window's slot is below its pool's count and no two windows share a place |
| Slots.Group | cpp/src/dsp.cpp:1438-1446 | sizes in order of first appearance with their multiplicities |
| Slots.DestinationIds | cpp/src/dsp.cpp:1452-1463 | the submit loop gives window i the buffer of its place |
| Slots.PendingReads | cpp/src/dsp.cpp:1470-1481 | the asynchronous read-back loop computes the same places |
| Slots.ReadBack | cpp/src/dsp.cpp:1485-1496 | the synchronous read-back loop reads the same buffers |
| Slots.MultiCrop | cpp/src/dsp.cpp:1438-1499 | output i is the crop submitted as destination i, for every window list |
| Framing.Socket.Recv | cpp/src/detail/raw_socket.hpp:82-113 | some of the bytes asked for, at least one, with their descriptors up to the control buffer's 64; or end, timeout, error |
| Framing.Fill | cpp/src/dsp.cpp:87-106 | a buffer is filled from the front of the stream whatever the split, descriptors in order and none lost unless there are more than 64 |
| Framing.RecvOneMsg | cpp/src/dsp.cpp:82-131 | undisturbed, the message and rest that parsing the whole stream gives, descriptors included unless it carries more than 64; disturbed, it stops short of the next message |
| Framing.RecvAll | cpp/src/dsp.cpp:82-131 | repeated receives give the messages of the whole stream in order, a disturbed run the first of them |
| Framing.FramesReadBack | cpp/src/dsp.cpp:107-130 | framed messages sent one after another come back as exactly those, then the end of the stream |
| Framing.SentIsReceived | cpp/src/dsp.cpp:82-131 | messages laid out byte by byte, low bytes first, of any kinds, payloads and descriptors come back with exactly those |
| Framing.NotAMessage | cpp/src/dsp.cpp:107-112 | a size below the header's or above 1 MiB is corrupt with only the header read; a stream that ends early is closed waiting or mid-message |
| Framing.FramesAreCarried | cpp/src/detail/dsp_wire.hpp:38 | with at most 64 descriptors a message none is lost |
| StreamPipeline.ResultQueue.EvictUntilFits | cpp/src/stream_pipeline.cpp:20-25 | drops from the front until one more fits and no further, counting each |
| StreamPipeline.ResultQueue.Offer | cpp/src/stream_pipeline.cpp:27-35 | the result goes last, behind as much of the old queue's end as fits; a drop counted exactly when it was full |
| StreamPipeline.ResultQueue.OfferStop | cpp/src/stream_pipeline.cpp:37-45 | the terminal item goes last, likewise |
| StreamPipeline.ResultQueue.Get | cpp/src/stream_pipeline.cpp:47-59 | the oldest result, or nothing at and after the terminal item |
| StreamPipeline.Handler.Handle | cpp/src/stream_pipeline.cpp:259-280 | the counters and the queue after one result, hook and drawing outcomes included |
| StreamPipeline.Accounting | cpp/src/stream_pipeline.cpp:227-316 | between results: seen is discarded plus offered; drawing, offered is annotated plus errors; offered is delivered plus dropped plus queued |
| StreamPipeline.OfferDropsOne | cpp/src/stream_pipeline.cpp:20-45 | over every run an offer drops at most one item, the oldest, and only from a full queue |
| StreamPipeline.DeliveredInOrder | cpp/src/stream_pipeline.cpp:20-59 | delivery in pull order, each once; the queue is the latest run of what was offered |
| StreamPipeline.StopIsNeverLost | cpp/src/stream_pipeline.cpp:37-59 | the terminal item is offered at most once and stays last in the queue until taken |
| StreamPipeline.AfterTheStop | cpp/src/stream_pipeline.cpp:48-59 | once taken, only gets remain possible and each returns nothing |
| StreamRuns.HandleRuns | cpp/src/stream_pipeline.cpp:259-280 | handling one result is a run of the machine from pulling to pulling with the counters and queue of Handler.Handle |
| StreamRuns.Serve | cpp/src/stream_pipeline.cpp:227-257 | the worker loop to its terminal item, with any hook and drawing outcomes and consumers' gets between results, is a run of the machine: same counters, queue and drops |
| Rle.ReadVarint | cpp/src/inference.cpp:142-153 | the 64-bit value of the varint at a position and where it ends, cut-off ones included |
| Rle.ToMask | cpp/src/inference.cpp:138-166 | a pixel is 255 exactly when some decoded run covers its index |
| Rle.FillRun | cpp/src/inference.cpp:158-163 | one run sets exactly its indices inside the mask |
| Rle.CoveredBySome | cpp/src/inference.cpp:155-164 | covered means covered by one of the runs |
| Rle.RunsReadBack | cpp/src/inference.cpp:142-157 | LEB128-encoded 64-bit runs (section 7.6 of DWARF version 5) decode to the same runs |
| Rle.CutOffReads | cpp/src/inference.cpp:142-153 | a varint the data cuts off reads as its low bits |
| Rle.DecodeEncoded | cpp/src/inference.cpp:138-166 | encoding a run list and decoding it sets exactly the pixels the runs cover |

## Left out

- Rasterising (anti-aliased lines and text, OpenCV): coverage is a parameter, assumed zero outside the stroke band and to depend only on the frame position.
- Captions in the pixel theorems: text extents leave the shape's extent, so `SamePicture` and the acceptance half of `FragmentsFitOneJob` are for uncaptioned shapes; the window and refusal results cover captioned ones.
- Boxes with x1 > x2 or y1 > y2 in the pixel theorems: the source accepts them, but a rasteriser that sorts corners, as cv::rectangle does, paints them outside the band, where `InBand` does not hold and `SamePicture` says nothing.
- Resize kernels, colour matrices and JPEG: stretched content is an input of the letterbox results, and blending is proved on an rgb24 base.
- IEEE rounding: scores, IoU and scales are exact; half-even rounding itself is modelled.
- Wall clocks, latency averages and grace periods: a timeout is a step, or a given number of polls.
- mmap, dma-buf sync, memfd, ioctl and gRPC: only the bytes, descriptors and answers they produce.
- NMS label text and the letterbox inverse `to_source_box`: the inverse is a function parameter.
- `draw_boxes`, `draw_text` and `draw_polygons`: drawing straight onto a picture, without any decomposition.
- The C++ resident's `owned` slot, which is overwritten while retired clients may still use the old object (cpp/src/accel.cpp:389): Python's ownership is taken instead.
- `install_dsp_dispatch` and the accelerator's route table.
- Retired clients that nothing references any more leave the weak retired set unclosed, as Python's do; the C++ vector keeps them.
- Lease machine: a stream whose call fails is taken to leave no request on its way to the daemon; push_slot of a slot that is not reserved is not a step.
- Lease machine, streams: `LeaseRuns` does not derive the streaming call's run from the object's method.
- Frame shape and length checks of the publisher (`to_pool_array`), which come before everything else.
- `FramePublisher` construction: the capability probe and the stream's geometry are constructor arguments.
- Slots.MultiCrop: pools the caller passes are taken to be one per distinct size, large enough and distinct, which the source leaves to the caller.
- StridedPool.DspBufferPool.Write: plane memory is taken to be large enough for its rows at its stride, as the daemon's allocation answer promises.
- Framing.RecvOneMsg: after a timeout inside a message the bytes read so far are lost, as in the source; only how far it read is stated.
- Rle.ToMask: varints of more than ten bytes, whose shift C++ leaves undefined, are excluded; joining seven-bit groups is addition, as they fill disjoint bits.
- Letterbox: the 2-plane repack for heights not divisible by four, and the Python nv12 letterbox, which the C++ code leaves on purpose.
- StreamRuns.Serve: consumers take between results there; that they may also take while one is handled is the machine's business.
- `StreamPipeline` start, stop and teardown calls, `InferenceStream` and its pump thread: one-shot flags around the worker and a second instance of the same kind of queue.
- Exceptional-path resource release of the `*_hw` calls.
- Thin gRPC wrappers (`app.cpp`, `audio.cpp`, `camera.cpp`, `device.cpp`, `events.cpp`, `overlay.cpp`, `config.cpp`, `plugin.cpp`): no algorithm of their own.
