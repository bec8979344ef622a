# A model of the hard parts of Ginga, with proofs

Ginga is a digital-television middleware in C++.  This project models the pieces of it whose
correctness is not visible from any one function, in Dafny, and proves what they are there for:

* **The dirty-region repaint engine** (`Geometry`, `DirtyRegions`, `DirtyTermination`, `DirtyPairs`,
  `DirtyLocality`, `Compositing`, `CanvasEngine`).  A canvas stores dirty rectangles, merging and cutting them recursively, and a flush
  repaints only those rectangles from only the surfaces flagged dirty.  The main theorem
  (`CanvasEngine.Canvas.FlushImpl`) is that the picture is then the full repaint: every pixel of the layer is the
  stable z-order composite of all surfaces that show.  It rests on `CanvasEngine.Canvas.Valid`, which every
  operation keeps: outside the stored regions the layer already is that picture, and each auto-flush
  surface over a stored region is flagged.
* **The timeline timer and the player** (`TimerHeap`, `TimerHistory`, `PropertyTrees`, `Properties`,
  `Playback`).  Two classes that call each other: timers that fire may stop the player from inside
  the timeline's own loop.  Whatever happens, the two agree, no timer fires early or twice, the system
  timer is armed for exactly what is left, earlier deadlines fire first, no timer is lost, a timer
  stops the player exactly if it asks to, and uptime lags the true running time by less than a
  millisecond per measurement.  While playing no property stays flagged, and every batch calls the
  function that a group of properties shares once if a member is flagged and not otherwise.
* **Threaded protocols** (`TaskQueue`, `LogShutdown`, `ResourcePool`) as state machines over single
  actions of any number of threads, with an invariant over every interleaving: what was accepted
  before a shutdown is done exactly once and in order, nothing is used after it is deleted, nothing
  is lost or handed out twice, no wake-up is lost, and a shutdown is neither blocked nor put off for ever.
* **The CRCs** (`PolynomialDivision`, `WordBits`, `TableCrc`, `Crc32`, `Crc16`): both table-driven loops
  equal bit-by-bit polynomial division, and what follows about the errors they detect.
* **Removing an interface** of a document node (`Interfaces`): as it is meant, exactly the ports and
  links that depend on it go, up the composition tree, and no reference dangles; and for which
  documents the code as it is written does that.
* **The configuration tree at start-up** (`TreePath`, `ConfigInit`) and the **focus frame**
  (`FocusFrame`).

Code that updates objects is modelled with classes and loops, and proved against specification
functions; the properties are then lemmas about those functions.  `dafny verify dfyconfig.toml`
checks everything.

## What the code does that its design does not promise

Where a property fails of the code, the code is modelled as it is, the failure is proved on concrete
inputs, and the condition under which the property holds is proved beside it.

* `invalidateRegion` need not return.  With the default join percentage of 0.2, invalidating
  (1,5,5,1), (1,0,5,3), (4,2,2,3) and then (4,1,1,5), as x, y, width and height, recurs without end
  (`DirtyTermination.DefaultJoinCanRecurForever`): three regions are stored when the last of these is
  called.  With at most two it always returns, after at most five nested calls and under any join
  rule (`DirtyPairs.TwoRegionsEnd`), so that the first three calls after a flush are safe, and so is
  any call with at most two stored regions close by (`DirtyLocality.DefaultEndsNearby`).  It also
  returns whenever the join percentage is at least one.
* `CompositeProperty::loopAssign` returns false as soon as one member does not take a value, after
  earlier members may have taken it; those stay flagged and are not applied while playing.  This
  happens exactly when the first variable takes the value and a later one does not
  (`PropertyTrees.LiveAssignmentSettles`); it cannot happen to variables that start equal and have
  the same check.
* `Player::initialize` registers the properties again when it is called again, also after
  `finalize`.  Two properties of one variable then share a name, and an assignment is accepted and
  changes the variable, but is not applied by the assignment while playing
  (`Playback.InitializedTwiceIsNeverTaken`, `Playback.Player.SetDurationAgain`); it waits until the
  player resumes after a pause or plays again.  That happens exactly
  to properties two of whose parts share a variable (`PropertyTrees.NeverTakenWhenShared`).
* `finStatics` throws with the mutex of the log held.  After a second `finStatics` every later
  message blocks its thread for good (`LogShutdown.FinishingTwiceThrows`, `LogShutdown.ThrownLocksOut`).
* `ResourcePool::free` with `locked` set notifies nobody, so that a waiting `alloc` may sleep on with
  a buffer in the queue (`ResourcePool.QuietFreeLosesWakeUp`); `ResourcePool.QuietFreeLoses` says
  exactly when.
* `Surface::autoFlush(false)` marks nothing, so that what the surface showed stays on the layer,
  unless it was going to be repainted anyway (`CanvasEngine.AutoFlushOffIsSafe`).
* `CompositeNode::removePort` in lib/ncl30 starts its loop from an iterator that is never
  initialised; `removeInterface` reads the ports of the parent without asking if there is one, and
  asks a parent that is a link composition for its links through a `CompositeNode` pointer cast to
  `LinkComposition`, although neither class derives from the other.  So removing an interface is
  defined exactly for an anchor of a child of a composition without links, in effect a switch, none of
  whose ports maps to it (`Interfaces.RemoveInterfaceAsWritten`); `Interfaces.MappedAnchorIsUndefined`
  and `Interfaces.AnchorInContextIsUndefined` are documents where it is not.  The cascade is modelled
  and proved as it is meant beside it.
* `ContextNode::removeLink` compares identifiers, which links without `id` share, and goes on after it
  has erased a link that is not the last, with an iterator that erasing has invalidated.  By the letter
  of the language that is defined only if no link before the last has the identifier
  (`Interfaces.RemoveLinkAsWritten`).  Where iterators are addresses, the link after an erased one is
  passed over, and the removal is right exactly if no other but the next link has the identifier
  (`Interfaces.RemovesOnlyThatLink`); of three links without one, removing the first takes the third
  away as well (`Interfaces.ThreeUnnamedLinks`).
* The four strips of the focus frame overlap at its corners, which get the colour twice.

## Model

| member | source | states |
|---|---|---|
| `Geometry.IncludesIsSubset` | lib/dtv-canvas/src/rect.cpp:70-79 | `includes` is inclusion of cells, in both directions, whenever the inner rectangle has cells |
| `Geometry.IntersectsIsSharedCell` | lib/dtv-canvas/src/rect.cpp:81-90 | `intersects` holds of two proper rectangles exactly when they share a cell |
| `Geometry.IntersectionIsCommonCells` | lib/dtv-canvas/src/rect.cpp:92-98 | `intersection` is the set of common cells of any two rectangles; it reports an overlap exactly when its area is positive |
| `Geometry.EncompassIsLeastBound` | lib/dtv-canvas/src/rect.cpp:119-125 | `encompass` is the least rectangle that includes both |
| `Geometry.CutIsAllowed` | lib/dtv-canvas/src/rect.cpp:131-152 | the assertion at the head of `cut` holds wherever `invalidateRegion` calls it |
| `Geometry.CutPartitions` | lib/dtv-canvas/src/rect.cpp:142-152 | the piece and the overlap split the cells of the cut rectangle, the piece is not empty and shares nothing with the other rectangle, and the areas add up |
| `Geometry.CutKeepsBoundingBox` | lib/dtv-canvas/src/rect.cpp:142-174 | a cut piece has the same bounding box with the region as the whole rectangle had |
| `Geometry.AsideMeans` | lib/dtv-canvas/src/rect.cpp:131-140 | the assertion at the head of `cut` holds exactly of a part of the rectangle without which that is a rectangle again |
| `Geometry.AreaCountsCells` | lib/dtv-canvas/src/rect.cpp:127-129 | `area` is the number of cells |
| `Geometry.GoesIntoIffOnePiece` | lib/dtv-canvas/src/rect.cpp:169-174 | `goesInto` holds of an overlapping rectangle that is not included exactly when what is left of it without the other is one rectangle |
| `DirtyRegions.DefaultJoinRounds` | lib/dtv-canvas/src/canvas.cpp:202-202 | the default rule allows exactly the whole number nearest to a fifth of the joined area |
| `DirtyRegions.ExtraAreaIsWaste` | lib/dtv-canvas/src/canvas.cpp:198-201 | the extra area of a join is the number of cells that neither rectangle has |
| `DirtyRegions.VerdictMeans` | lib/dtv-canvas/src/canvas.cpp:190-219 | which branch is taken, and with what result, in terms of cells alone: covered, absorbed, joined if the waste is allowed, else cut exactly if they share a cell and what is left of the one, or else of the other, is a rectangle |
| `DirtyRegions.PassOfOne` | lib/dtv-canvas/src/canvas.cpp:190-219 | what each verdict puts into the two lists, and in which order |
| `DirtyRegions.PassOfMany` | lib/dtv-canvas/src/canvas.cpp:190-190 | the regions are looked at one after another |
| `DirtyRegions.TrimmedPiece` | lib/dtv-canvas/src/canvas.cpp:208-210 | what the branch that cuts the new rectangle leaves: a proper piece, apart from the region, that with it covers the rectangle |
| `DirtyRegions.SplitPiece` | lib/dtv-canvas/src/canvas.cpp:211-215 | the same for the branch that cuts the stored region |
| `DirtyRegions.OnePassKeepsCell` | lib/dtv-canvas/src/canvas.cpp:190-231 | one pass of the two loops loses no cell between what it keeps and what it adds |
| `DirtyRegions.InvalidateCovers` | lib/dtv-canvas/src/canvas.cpp:185-241 | no coverage is lost: after any call that returns, every cell of the old regions and of the rectangle is in a stored region, whatever the join rule |
| `DirtyRegions.InvalidateStaysWithin` | lib/dtv-canvas/src/canvas.cpp:185-241 | every stored region stays non-empty and inside any box around the old regions and the rectangle |
| `DirtyRegions.InvalidateOrigin` | lib/dtv-canvas/src/canvas.cpp:175-241 | a stored region is an old one or was handed to `addDirtyRegion`, which is what flags the surfaces |
| `DirtyTermination.InvalidateMonotone` | lib/dtv-canvas/src/canvas.cpp:185-241 | more stack never changes an answer, so that the depth is only a bound |
| `DirtyTermination.CutIsFinal` | lib/dtv-canvas/src/canvas.cpp:198-218 | after a cut the pair is never joined or cut again, in either order: the rejected join stays rejected |
| `DirtyTermination.SingleRegionEnds` | lib/dtv-canvas/src/canvas.cpp:185-241 | with one stored region the recursion ends after two nested calls under any join rule, in the list that `PairResult` says |
| `DirtyTermination.AlwaysJoinsEnds` | lib/dtv-canvas/src/canvas.cpp:198-206 | with a join percentage of one or more it ends whatever is stored, and what was not covered collapses into a single region |
| `DirtyTermination.CycleNeverEnds` | lib/dtv-canvas/src/canvas.cpp:185-241 | for three regions and a rectangle whose pieces lead back to themselves no amount of stack is enough |
| `DirtyTermination.CycleIsReached` | lib/dtv-canvas/src/canvas.cpp:185-241 | such a list is what three calls leave on an empty one |
| `DirtyTermination.DefaultJoinCanRecurForever` | lib/dtv-canvas/src/canvas.cpp:37-37 | with the default join percentage there are four rectangles that, invalidated one after another, recur without end |
| `DirtyPairs.PassErases` | lib/dtv-canvas/src/canvas.cpp:190-229 | erasing by value, one match at a time, leaves exactly the regions that were not judged to go, in their order, equal ones included |
| `DirtyPairs.InsideStays` | lib/dtv-canvas/src/canvas.cpp:185-241 | what lies in one of two rectangles and outside the other stays in one region, or they combine to a single one |
| `DirtyPairs.TwoStrips` | lib/dtv-canvas/src/rect.cpp:169-174 | a rectangle that two others cover, neither of them alone, goes into both of them and overlaps both |
| `DirtyPairs.FilledByTwo` | lib/dtv-canvas/src/canvas.cpp:185-241 | a rectangle that two stored regions cover between them ends, and never leaves more than two regions |
| `DirtyPairs.FreeOfSecond` | lib/dtv-canvas/src/canvas.cpp:185-241 | a rectangle clear of one of two regions ends; if they are clear of each other too, that region survives or at most two are left |
| `DirtyPairs.Forgotten` | lib/dtv-canvas/src/canvas.cpp:194-196 | a region that the rectangle includes has no influence on whether the call returns |
| `DirtyPairs.TwoRegionsEnd` | lib/dtv-canvas/src/canvas.cpp:185-241 | with at most two stored regions the recursion ends within five nested calls under any join rule; three may be too many, by `DefaultJoinCanRecurForever` |
| `DirtyPairs.FirstThreeCallsEnd` | lib/dtv-canvas/src/canvas.cpp:185-241 | the first three calls after a flush always return; the fourth need not |
| `DirtyLocality.RemoteRegionsStay` | lib/dtv-canvas/src/canvas.cpp:185-241 | regions that are left alone by every rectangle of a box take no part in a call inside the box, nor in its nested calls: the others become what they would become on their own |
| `DirtyLocality.TwoNearRegionsEnd` | lib/dtv-canvas/src/canvas.cpp:185-241 | so the recursion ends for a list of any length of which at most two regions are not remote |
| `DirtyLocality.DistantIsRemote` | lib/dtv-canvas/src/canvas.cpp:198-206 | under the default join percentage a region is remote from a box when four times the gap between them is at least their joint width, or height, and three more |
| `DirtyLocality.DefaultEndsNearby` | lib/dtv-canvas/src/canvas.cpp:185-241 | so that then the call returns whenever at most two stored regions are not that far away |
| `Sorting.StableSortIsStable` | lib/dtv-canvas/src/canvas.cpp:307-307 | the sort gives a sorted permutation in which elements of one key keep their order |
| `Compositing.CompositeIsLocal` | lib/dtv-canvas/src/canvas.cpp:289-340 | the full repaint of a cell depends only on what the shown surfaces have there |
| `Compositing.PartialRepaint` | lib/dtv-canvas/src/canvas.cpp:289-307 | repainting a cell from some surfaces is the full repaint as long as every shown surface with that cell is among them: sorting and filtering commute |
| `Compositing.HiddenSprite` | lib/dtv-canvas/src/surface.cpp:454-456 | a surface that is not shown changes nothing |
| `Compositing.HidingIsSeen` | lib/dtv-canvas/src/surface.cpp:454-456 | hiding a shown surface changes every cell that it has, as a blend that counts layers can tell |
| `Compositing.TopmostIsOver` | lib/dtv-canvas/src/canvas.cpp:165-169 | a cell of the picture is the pixel of the topmost surface put on the picture of the others, for any blend; topmost is the one with the greatest z-index of those that are visible, on auto-flush and have the cell, and of several the one created last |
| `Compositing.TopmostShows` | lib/dtv-canvas/src/canvas.cpp:320-336 | so that where colors cover what is under them the topmost one is seen |
| `Compositing.NothingShows` | lib/dtv-canvas/src/canvas.cpp:309-318 | and where there is none the picture is transparent |
| `CanvasEngine.StaysCurrent` | lib/dtv-canvas/src/surface.cpp:42-51 | the layer still shows the full repaint outside the regions when one surface changed only inside them |
| `CanvasEngine.RepaintIsFull` | lib/dtv-canvas/src/canvas.cpp:268-347 | a layer right outside the regions, repainted inside them from flagged surfaces only, is the full repaint everywhere |
| `CanvasEngine.AutoFlushOffIsSafe` | lib/dtv-canvas/src/surface.cpp:445-449 | turning auto-flush off marks nothing: for every scene, surface and region list, the picture survives it under every blend and from every current layer exactly when the surface did not show or each layer cell in its bounds is in a stored region |
| `CanvasEngine.AutoFlushOffGoesStale` | lib/dtv-canvas/src/surface.cpp:445-449 | the simplest failing case: one opaque pixel with nothing stored |
| `CanvasEngine.BlittedPixel` | lib/dtv-canvas/src/surface.cpp:652-673 | which pixel a blit puts where, in each mode |
| `CanvasEngine.Surface.InvalidateRegion` | lib/dtv-canvas/src/surface.cpp:486-493 | raises the flag exactly of auto-flush surfaces that the region meets |
| `CanvasEngine.Surface.MarkDirty` | lib/dtv-canvas/src/surface.cpp:471-477 | an auto-flush surface is flagged and its rectangle covered; another one changes nothing |
| `CanvasEngine.Surface.MarkDirtySurface` | lib/dtv-canvas/src/surface.cpp:42-51 | every pixel that was drawn is covered in canvas coordinates, although the rectangle is cut at two edges only |
| `CanvasEngine.Surface.FillRect` | lib/dtv-canvas/src/surface.cpp:143-160 | accepts exactly the rectangles with both corners inside, fills their pixels in the mode of the surface, marks them, and keeps the canvas invariant; it fails only if marking needs too much stack |
| `CanvasEngine.Surface.SetPixelColor` | lib/dtv-canvas/src/surface.cpp:425-437 | sets one pixel if it is inside, and keeps the canvas invariant |
| `CanvasEngine.Surface.Clear` | lib/dtv-canvas/src/surface.cpp:537-554 | clears the pixels of a proper rectangle inside, and keeps the canvas invariant |
| `CanvasEngine.Surface.Blit` | lib/dtv-canvas/src/surface.cpp:652-673 | draws the source rectangle clipped to the surface, and keeps the canvas invariant |
| `CanvasEngine.Surface.SetLocation` | lib/dtv-canvas/src/surface.cpp:571-577 | moving marks the old and the new bounds, and keeps the canvas invariant |
| `CanvasEngine.Surface.SetZIndex` | lib/dtv-canvas/src/surface.cpp:504-510 | a new z-index marks the bounds, and keeps the canvas invariant |
| `CanvasEngine.Surface.SetVisible` | lib/dtv-canvas/src/surface.cpp:556-562 | showing and hiding mark the bounds, and keep the canvas invariant |
| `CanvasEngine.Surface.SetAutoFlush` | lib/dtv-canvas/src/surface.cpp:445-449 | keeps the canvas invariant when turned on, when turned off for a surface that did not show, and when all of it that is on the layer is in a stored region |
| `CanvasEngine.Canvas.AddDirtyRegion` | lib/dtv-canvas/src/canvas.cpp:175-183 | stores the rectangle and flags exactly the auto-flush surfaces that it meets |
| `CanvasEngine.Canvas.Inspect` | lib/dtv-canvas/src/canvas.cpp:190-219 | the first loop decides for every stored region what `Judge` says |
| `CanvasEngine.Canvas.EraseRegions` | lib/dtv-canvas/src/canvas.cpp:221-231 | the second loop erases one element for each rectangle |
| `CanvasEngine.Canvas.InvalidateRegionWithin` | lib/dtv-canvas/src/canvas.cpp:185-241 | the recursion computes `Invalidate`, and flags exactly the surfaces that an added rectangle meets |
| `CanvasEngine.Canvas.InvalidateAll` | lib/dtv-canvas/src/canvas.cpp:233-235 | the same for the loop over the rectangles to add |
| `CanvasEngine.Canvas.InvalidateRegion` | lib/dtv-canvas/src/canvas.cpp:185-241 | covers the rectangle, loses nothing, and keeps every auto-flush surface over a stored region flagged |
| `CanvasEngine.Canvas.CreateSurface` | lib/dtv-canvas/src/canvas.cpp:121-151 | a new surface does not show, and a rectangle without cells gives none |
| `CanvasEngine.Canvas.Flush` | lib/dtv-canvas/src/canvas.cpp:243-255 | outside a transaction, with the layer locked, the layer is the full repaint afterwards; otherwise nothing changes |
| `CanvasEngine.Canvas.BeginDraw` | lib/dtv-canvas/src/canvas.cpp:257-259 | one more transaction, and the invariant is kept |
| `CanvasEngine.Canvas.EndDraw` | lib/dtv-canvas/src/canvas.cpp:261-266 | the flush happens at the end of the outermost transaction, and only there |
| `CanvasEngine.Canvas.CollectDirty` | lib/dtv-canvas/src/canvas.cpp:289-300 | takes every flag down and keeps the flagged surfaces that show, in order |
| `CanvasEngine.Canvas.SortByZ` | lib/dtv-canvas/src/canvas.cpp:307-307 | the surfaces to blit, the same ones, by ascending z-index, and those of one z-index in the order of the list |
| `CanvasEngine.Canvas.ClearRegion` | lib/dtv-canvas/src/canvas.cpp:309-318 | makes transparent exactly the pixels of the region |
| `CanvasEngine.Canvas.BlitOnto` | lib/dtv-canvas/src/canvas.cpp:320-336 | puts a surface on the pixels of the region that it has, and on no others |
| `CanvasEngine.Canvas.RepaintRegion` | lib/dtv-canvas/src/canvas.cpp:309-340 | repaints the pixels of one region from the surfaces to blit, and no others |
| `CanvasEngine.Canvas.FlushImpl` | lib/dtv-canvas/src/canvas.cpp:268-347 | from any valid state every pixel of the layer becomes the full repaint of all surfaces that show, which `TopmostIsOver` and `NothingShows` describe; nothing is pending, and the scene is untouched |
| `TimerHeap.FrontIsEarliest` | lib/dtv-gingaplayer/src/player/timelinetimer.cpp:26-28 | the front of a heap has the least deadline |
| `TimerHeap.PushHeap` | lib/dtv-gingaplayer/src/player/timelinetimer.cpp:51-52 | adding keeps the heap and the timers in it |
| `TimerHeap.PopHeap` | lib/dtv-gingaplayer/src/player/timelinetimer.cpp:160-162 | the front goes to the end, and the others are a heap |
| `TimerHistory.AddStep` | lib/dtv-gingaplayer/src/player/timelinetimer.cpp:47-55 | adding a timer keeps what every history satisfies: conservation, order and punctuality |
| `TimerHistory.DispatchStep` | lib/dtv-gingaplayer/src/player/timelinetimer.cpp:157-171 | so does dispatching the front timer when it is due |
| `TimerHistory.DropStep` | lib/dtv-gingaplayer/src/player/timelinetimer.cpp:111-115 | so does dropping a timer |
| `TimerHistory.RunIsSane` | lib/dtv-gingaplayer/src/player/timelinetimer.cpp:47-185 | so does every sequence of these steps |
| `TimerHistory.ReachedIsSane` | lib/dtv-gingaplayer/src/player/timelinetimer.cpp:47-185 | and so what follows holds in every state of a timeline, whose methods keep its history one that such a run reaches (`TimeLineTimer.Sound`) |
| `TimerHistory.NeverEarly` | lib/dtv-gingaplayer/src/player/timelinetimer.cpp:123-185 | no timer is ever dispatched before its deadline, by the uptime or by the running time then |
| `TimerHistory.NumbersAgree` | lib/dtv-gingaplayer/src/player/timelinetimer.cpp:47-72 | timers added are as many as those dispatched, pending and dropped, also when a callback stops |
| `TimerHistory.FiresOnce` | lib/dtv-gingaplayer/src/player/timelinetimer.cpp:157-171 | no timer fires twice |
| `TimerHistory.FiredIsGone` | lib/dtv-gingaplayer/src/player/timelinetimer.cpp:157-171 | a timer that has fired is neither pending nor dropped |
| `TimerHistory.EarlierFirst` | lib/dtv-gingaplayer/src/player/timelinetimer.cpp:123-185 | whatever a timeline has done, of two timers pending together the one with the smaller deadline fired first |
| `TimerHistory.PendingIsLater` | lib/dtv-gingaplayer/src/player/timelinetimer.cpp:123-185 | whatever a timeline has done, what fired while a timer was pending was due no later than it |
| `Playback.LagOfCut` | lib/dtv-gingaplayer/src/player/timelinetimer.cpp:146-155 | one measurement loses less than a millisecond of running time |
| `Playback.TimeLineTimer.UptimeLags` | lib/dtv-gingaplayer/src/player/timelinetimer.cpp:93-108 | uptime never exceeds the true unpaused running time, and lags it, but for the time between paired clock readings, by less than k+1 ms after k cancellations |
| `Playback.TimeLineTimer.ExpiresInTime` | lib/dtv-gingaplayer/src/player/timelinetimer.cpp:133-138 | at the instant when the system timer expires the uptime is the front timer's deadline, plus the milliseconds between the reading and the registration |
| `Playback.TimeLineTimer.Uptime` | lib/dtv-gingaplayer/src/player/timelinetimer.cpp:93-108 | returns the uptime of the instant it reads, with that bound |
| `Playback.TimeLineTimer.AddTimer` | lib/dtv-gingaplayer/src/player/timelinetimer.cpp:47-55 | adds the timer; uptime goes on from its value at the reading, one truncation later; timers that fire may only stop the player |
| `Playback.TimeLineTimer.Start` | lib/dtv-gingaplayer/src/player/timelinetimer.cpp:57-63 | starts from uptime zero, with nothing lost but the time until the first reading, and fires nothing |
| `Playback.TimeLineTimer.Stop` | lib/dtv-gingaplayer/src/player/timelinetimer.cpp:65-72 | drops every pending timer and disarms the system timer, also in the middle of a dispatch |
| `Playback.TimeLineTimer.Pause` | lib/dtv-gingaplayer/src/player/timelinetimer.cpp:74-79 | freezes uptime at its value, keeps every timer |
| `Playback.TimeLineTimer.Unpause` | lib/dtv-gingaplayer/src/player/timelinetimer.cpp:81-86 | runs again from the uptime at which it was paused, unless a timer that fires asks to stop the player |
| `Playback.TimeLineTimer.Restart` | lib/dtv-gingaplayer/src/player/timelinetimer.cpp:117-144 | measures from now on, fires the timers that are overdue and arms the system timer for what is left to the front one; it is registered exactly when the timeline runs with timers pending |
| `Playback.TimeLineTimer.Drain` | lib/dtv-gingaplayer/src/player/timelinetimer.cpp:123-141 | the loop of `startTimer`: it ends with the system timer armed for what is left to the front timer, or with no timer left; a timer that asks to stop ends it, and no other does |
| `Playback.TimeLineTimer.CancelTimer` | lib/dtv-gingaplayer/src/player/timelinetimer.cpp:146-155 | disarms the system timer and banks the whole milliseconds of the measurement |
| `Playback.TimeLineTimer.RemoveAndDispatch` | lib/dtv-gingaplayer/src/player/timelinetimer.cpp:157-171 | the front timer fires, not before its deadline, and its callback runs: the player is stopped exactly if the duration that expires is the current one, or the call stops it |
| `Playback.TimeLineTimer.OnExpired` | lib/dtv-gingaplayer/src/player/timelinetimer.cpp:173-185 | an expiry fires the front timer and leaves the timeline valid, stopped from inside if that timer asks to; otherwise the uptime goes on from its value at the next reading |
| `Playback.Player.Stop` | lib/dtv-gingaplayer/src/player.cpp:165-178 | a playing player and its timeline stop together |
| `Playback.Player.OnDurationExpired` | lib/dtv-gingaplayer/src/player.cpp:367-371 | stops exactly when the duration is still the current one |
| `Playback.Player.Play` | lib/dtv-gingaplayer/src/player.cpp:99-124 | plays exactly when the value of every leaf passes its check and it starts; player and timeline agree; each group is applied once if a member is flagged and not otherwise; the explicit duration, when applied, adds its timer |
| `Playback.Player.PlayBase` | lib/dtv-gingaplayer/src/player.cpp:99-124 | a player with the properties that a first `initialize` registers, flagged or not, plays exactly if it starts, its source passes its check and its duration is not negative; exactly one timer of that duration is then added if it is positive, and one refresh is done |
| `Playback.FirstPlay` | lib/dtv-gingaplayer/src/player.cpp:42-124 | so it is for a player that is made, initialised and played |
| `Playback.Player.SetBase` | lib/dtv-gingaplayer/src/player.h:124-156 | setting one of those properties: a valid value that differs is taken; while playing a new duration adds its timer if it is positive, and a new source or type refreshes the player, once, with one notice |
| `Playback.Player.Pause` | lib/dtv-gingaplayer/src/player.cpp:147-163 | player and timeline agree afterwards; no timer is dropped, pausing freezes the uptime, and a call that asks for what is so already changes nothing; resuming applies what is flagged, which is nothing |
| `Playback.Player.Resume` | lib/dtv-gingaplayer/src/player.cpp:151-154 | resuming applies what is flagged and goes on from the uptime of the pause; the player is stopped only by a timer that asks to |
| `Playback.Player.Abort` | lib/dtv-gingaplayer/src/player.cpp:180-187 | player and timeline agree afterwards, for players that abort by stopping |
| `Playback.Player.Finalize` | lib/dtv-gingaplayer/src/player.cpp:62-69 | stops and finalizes |
| `Playback.Player.CreateTimer` | lib/dtv-gingaplayer/src/player.cpp:75-77 | adds the timer; the player is stopped exactly if a timer that fires asks to |
| `Playback.Player.SystemTimerExpires` | lib/dtv-gingaplayer/src/player/timelinetimer.cpp:173-185 | the agreement survives an expiry that stops the player from inside the dispatch, and the player is stopped if the front timer asks to |
| `Playback.Player.SetProperty` | lib/dtv-gingaplayer/src/player.h:124-156 | assigns, and applies while playing or paused if the assignment returns true; keeps the properties in order, and calls each group once exactly if a member was flagged |
| `Playback.Player.Set` | lib/dtv-gingaplayer/src/player.h:142-146 | the new property and variables, the shared flags, the functions run, the timers added, the refresh and the notice, whatever the variables hold |
| `Playback.Player.AddProperty` | lib/dtv-gingaplayer/src/player.cpp:335-346 | a second property under a name makes a composite with the first; the others are untouched; the order is kept if the new property brings its own variables |
| `Playback.Player.Initialize` | lib/dtv-gingaplayer/src/player.cpp:42-56 | any call: registers the three properties of every player on top of what is registered, `init` being asked only the first time; the order is kept the first time |
| `Playback.Player.SetShared` | lib/dtv-gingaplayer/src/player.h:124-156 | a property registered twice for one variable is set: accepted, the variable changes, and the assignment runs, announces and schedules nothing |
| `Playback.Player.SetDurationAgain` | lib/dtv-gingaplayer/src/player.cpp:42-56 | so a new explicit duration after a second `initialize` is accepted and adds no timer, while a timer that is pending for the former one will then stop nothing (`OnDurationExpired`); a later `play`, or resuming after a pause, applies it |
| `Playback.InitializedTwiceIsNeverTaken` | lib/dtv-gingaplayer/src/player.cpp:42-56 | from the registry that a second `initialize` leaves, whatever was registered before, no assignment to a property of every player ever returns true, so that the assignment itself applies none |
| `Playback.InitializedOnceIsTaken` | lib/dtv-gingaplayer/src/player.cpp:42-56 | from the one that a first call leaves, some assignment does, unless no source is valid |
| `Playback.Player.ApplyChanges` | lib/dtv-gingaplayer/src/player.cpp:195-234 | applies every flagged property in order, its own function within the loop, calls each due group once, and refreshes and announces once if it must |
| `Playback.Player.ApplyProperty` | lib/dtv-gingaplayer/src/property/property.cpp:90-98 | applies a flagged property or the members of a composite, calling its own function and that of each due group once, and adding the timers of explicit durations |
| `Playback.Player.RunHook` | lib/dtv-gingaplayer/src/player.cpp:361-365 | the function of the explicit duration adds the timer that ends the player, if the duration is positive |
| `Playback.TimersForMore` | lib/dtv-gingaplayer/src/player.cpp:361-365 | a batch adds one such timer for each time that it runs that function |
| `Playback.Player.ApplyDuration` | lib/dtv-gingaplayer/src/player.cpp:361-365 | a positive duration adds a timer with that deadline |
| `Playback.PlayOrder` | lib/dtv-gingaplayer/src/player.cpp:99-124 | playing leaves nothing flagged, and the groups with a flagged member are exactly those it applies |
| `Playback.SetOrder` | lib/dtv-gingaplayer/src/player.h:124-156 | assigning keeps the properties in order, and leaves nothing flagged while playing |
| `Playback.SetIsDue` | lib/dtv-gingaplayer/src/player.h:142-146 | an assignment while playing makes due exactly the groups with a flagged member, and their flag is clear |
| `PropertyTrees.ApplySettles` | lib/dtv-gingaplayer/src/property/property.cpp:90-98 | applying a property whose flagged members are reached leaves nothing flagged |
| `PropertyTrees.DueIsPending` | lib/dtv-gingaplayer/src/property/propertyimpl.h:76-81 | a group is due exactly when one of its members is flagged |
| `PropertyTrees.TakenWhenAllTake` | lib/dtv-gingaplayer/src/property/compositeproperty.h:29-43 | an assignment returns true exactly when every leaf takes the value and no two share a variable |
| `PropertyTrees.FirstRefuses` | lib/dtv-gingaplayer/src/property/compositeproperty.h:29-43 | an assignment that stops at the first variable changes nothing |
| `PropertyTrees.LiveAssignmentSettles` | lib/dtv-gingaplayer/src/property/compositeproperty.h:29-43 | exactly when an assignment while playing leaves nothing flagged: every leaf takes the value and no two share a variable, or the first does not take it |
| `PropertyTrees.MembersThatDifferGetStuck` | lib/dtv-gingaplayer/src/property/compositeproperty.h:29-43 | two variables that differ, assigned one of their values, stay flagged while playing |
| `PropertyTrees.NeverTakenWhenShared` | lib/dtv-gingaplayer/src/player.cpp:335-346 | no assignment ever returns true exactly when two leaves share a variable, or no value passes every check |
| `PropertyTrees.SharedAssignment` | lib/dtv-gingaplayer/src/property/compositeproperty.h:29-43 | two leaves of one variable: the variable takes the value, only the first leaf is flagged, and the assignment does not return true |
| `PropertyTrees.UniformAssignment` | lib/dtv-gingaplayer/src/property/propertyimpl.h:19-27 | different variables that start equal with one check never diverge: an assignment sets all or none |
| `PropertyTrees.AssignWritesOwn` | lib/dtv-gingaplayer/src/property/propertyimpl.h:19-27 | an assignment writes no variable but those of the property |
| `PropertyTrees.ApplyKeepsUniform` | lib/dtv-gingaplayer/src/property/property.cpp:90-98 | applying changes no variable |
| `PropertyTrees.AssignKeepsAlert` | lib/dtv-gingaplayer/src/property/propertyimpl.h:70-74 | a flagged member is never forgotten by its group |
| `PropertyTrees.RefreshesIff` | lib/dtv-gingaplayer/src/player.cpp:195-212 | a batch asks for a refresh exactly if a flagged property has a leaf that wants one |
| `PropertyTrees.HooksAreOfFlagged` | lib/dtv-gingaplayer/src/property/propertyimpl.h:37-41 | the functions that a batch runs are exactly those of the flagged leaves, as long as applying reaches them |
| `Properties.Assign` | lib/dtv-gingaplayer/src/property/propertyimpl.h:19-27 | one assignment does to values, flags and shared flags what the specification says |
| `Properties.LoopAssign` | lib/dtv-gingaplayer/src/property/compositeproperty.h:29-43 | the loop stops at the first member that does not take the value, and marks the composite for those that did |
| `Properties.MarkEach` | lib/dtv-gingaplayer/src/player.cpp:189-193 | marks every property but not the members of composites, and clears the shared flags |
| `Properties.ApplyGroup` | lib/dtv-gingaplayer/src/property/propertyimpl.h:76-81 | the common function of a group is called unless its flag is set |
| `Properties.CanStartIff` | lib/dtv-gingaplayer/src/property/compositeproperty.cpp:16-22 | properties can start exactly if every leaf's value passes its check |
| `PolynomialDivision.RunIsLongDivision` | lib/dtv-util/src/functions.cpp:104-107 | the shift register computes the remainder of the textbook long division |
| `PolynomialDivision.RunConcat` | lib/dtv-util/src/functions.cpp:104-107 | the register over a concatenation is the composition |
| `PolynomialDivision.RunIsLinear` | lib/dtv-util/src/functions.cpp:104-107 | remainders are linear |
| `PolynomialDivision.RunIsBijective` | lib/dtv-util/src/functions.cpp:104-107 | for a fixed message the register is a bijection of its initial state |
| `PolynomialDivision.AppendedRemainderVanishes` | lib/dtv-util/src/functions.cpp:104-107 | a remainder appended to its message leaves zero |
| `PolynomialDivision.BurstIsDetected` | lib/dtv-util/src/functions.cpp:104-107 | an error burst no longer than the degree always changes the remainder |
| `WordBits.DivisionStep` | lib/dtv-util/src/functions.cpp:104-107 | a shift and a conditional exclusive or on a word is one step of the register on its bits |
| `WordBits.TopWithByte` | lib/dtv-util/src/functions.cpp:104-107 | a byte added at the head of a word adds its bits to the first eight |
| `WordBits.ByteBitsDiffer` | lib/dtv-util/src/functions.cpp:104-107 | different bytes have different bits |
| `TableCrc.RowsMakeTable` | lib/dtv-util/src/functions.cpp:58-102 | for any table of sixteen rows: with the sums along the rows and the first row and column right, every entry is eight division steps of its index |
| `TableCrc.NextIsDivide8` | lib/dtv-util/src/functions.cpp:104-107 | for any such table, one round of the loop is eight division steps of the word with the byte added |
| `TableCrc.CalcIsLongDivision` | lib/dtv-util/src/functions.cpp:104-107 | the table-driven result is the remainder of bit-by-bit polynomial division, for a degree of 16 or 32 |
| `TableCrc.CalcOfConcat` | lib/dtv-util/src/functions.cpp:104-107 | the result over a concatenation is the composition of the results |
| `TableCrc.CalcIsBijective` | lib/dtv-util/src/functions.cpp:104-107 | for a fixed buffer the CRC is a bijection of the initial value |
| `TableCrc.BurstIsNoticed` | lib/dtv-util/src/functions.cpp:104-107 | no error burst of up to as many bits as the degree goes unnoticed |
| `TableCrc.OneByteIsBurst` | lib/dtv-util/src/functions.cpp:104-107 | a change of one byte, at any position, is such a burst |
| `TableCrc.AppendedCrcVanishes` | lib/dtv-util/src/functions.cpp:104-107 | a buffer followed by its CRC, most significant byte first, has CRC zero |
| `Crc32.EntryIsEightSteps` | lib/dtv-util/src/functions.cpp:58-102 | every one of the 256 table entries is eight division steps of its index |
| `Crc32.Calculate` | lib/dtv-util/src/functions.cpp:104-107 | the loop over the buffer computes `Calc` |
| `Crc32.NextIsDivide8` | lib/dtv-util/src/functions.cpp:104-107 | one round of the loop is eight division steps of the word with the byte added |
| `Crc32.CalcIsDivision` | lib/dtv-util/src/functions.cpp:104-107 | the loop with this table is the one that `TableCrc` is about |
| `Crc32.CalcIsLongDivision` | lib/dtv-util/src/functions.cpp:57-107 | for every initial value and buffer the result is the remainder of bit-by-bit polynomial division |
| `Crc32.CalcIsBijective` | lib/dtv-util/src/functions.cpp:104-107 | for a fixed buffer the CRC is a bijection of the initial value |
| `Crc32.BurstIsNoticed` | lib/dtv-util/src/functions.cpp:104-107 | no error burst of up to 32 bits goes unnoticed |
| `Crc32.OneByteIsNoticed` | lib/dtv-util/src/functions.cpp:104-107 | buffers of one length that differ in exactly one byte have different CRCs |
| `Crc32.AppendedCrcVanishes` | lib/dtv-util/src/functions.cpp:104-107 | a buffer followed by its CRC, most significant byte first, has CRC zero |
| `Crc16.EntryIsEightSteps` | lib/dtv-util/src/functions.cpp:111-128 | every one of the 256 table entries is eight division steps of its index |
| `Crc16.Calculate` | lib/dtv-util/src/functions.cpp:129-132 | the loop over the buffer computes `Calc` |
| `Crc16.NextIsDivide8` | lib/dtv-util/src/functions.cpp:129-132 | one round of the loop is eight division steps of the word with the byte added |
| `Crc16.CalcIsDivision` | lib/dtv-util/src/functions.cpp:129-132 | the loop with this table is the one that `TableCrc` is about |
| `Crc16.CalcIsLongDivision` | lib/dtv-util/src/functions.cpp:110-132 | for every initial value and buffer the result is the remainder of bit-by-bit polynomial division |
| `Crc16.CalcIsBijective` | lib/dtv-util/src/functions.cpp:129-132 | for a fixed buffer the CRC is a bijection of the initial value |
| `Crc16.BurstIsNoticed` | lib/dtv-util/src/functions.cpp:129-132 | no error burst of up to 16 bits goes unnoticed |
| `Crc16.OneByteIsNoticed` | lib/dtv-util/src/functions.cpp:129-132 | buffers of one length that differ in exactly one byte have different CRCs |
| `Crc16.AppendedCrcVanishes` | lib/dtv-util/src/functions.cpp:129-132 | a buffer followed by its CRC, most significant byte first, has CRC zero |
| `TaskQueue.StepKeepsExclusion` | lib/dtv-util/src/taskqueue.cpp:66-101 | no step breaks mutual exclusion |
| `TaskQueue.RunKeepsInvariant` | lib/dtv-util/src/taskqueue.cpp:66-172 | every reachable state of every interleaving satisfies the invariant |
| `TaskQueue.RunInOrder` | lib/dtv-util/src/taskqueue.cpp:159-172 | the tasks run so far are the first ones pushed, each once and in order |
| `TaskQueue.ShutdownLosesNothing` | lib/dtv-util/src/taskqueue.cpp:87-157 | every task pushed before the exit flag was set has been run when the loop ends |
| `TaskQueue.EndsOnlyWhenStopped` | lib/dtv-util/src/taskqueue.cpp:87-101 | the loop ends only after the flag is set, and `stop` returns only after the loop has ended |
| `TaskQueue.WaitingIsNoticed` | lib/dtv-util/src/taskqueue.cpp:66-76 | a thread that waits while tasks are queued is about to be notified, spurious wake-ups or not |
| `TaskQueue.NeverWaitsAgain` | lib/dtv-util/src/taskqueue.cpp:87-138 | once `stop` has set the flag and notified, the loop never waits again |
| `TaskQueue.LoopGetsCloser` | lib/dtv-util/src/taskqueue.cpp:120-172 | after that every step of the loop brings it closer to its end |
| `TaskQueue.LoopStepsAreBounded` | lib/dtv-util/src/taskqueue.cpp:87-172 | in every run, once `stop` has notified and if nobody pushes any more, the loop takes no more steps than it has left, spurious wake-ups included |
| `TaskQueue.LoopIsNotBlocked` | lib/dtv-util/src/taskqueue.cpp:120-157 | and it can always take a step, or the holder of the mutex can |
| `TaskQueue.SomebodyGetsOn` | lib/dtv-util/src/taskqueue.cpp:66-130 | in every state of every run, while there are tasks or the flag is set and the loop has not ended, the loop, the holder of the mutex or the one who notifies can step; waiting with nothing to do is the only exception |
| `LogShutdown.RunKeepsInv` | lib/dtv-util/src/log/statics.cpp:37-98 | every interleaving of transmits, finishing threads and loggers keeps the invariant |
| `LogShutdown.NoUseAfterDelete` | lib/dtv-util/src/log/statics.cpp:90-92 | a target that receives a line has not been ended or deleted |
| `LogShutdown.DeletesAlone` | lib/dtv-util/src/log/statics.cpp:37-57 | targets are deleted while nothing is being transmitted and nothing can be admitted |
| `LogShutdown.ShutdownWritesEverything` | lib/dtv-util/src/log/target.cpp:40-87 | when `finStatics` has returned every target has written every transmitted line once, in queue order, and no other |
| `LogShutdown.MessageReachesTargets` | lib/dtv-util/src/log/statics.cpp:78-98 | a message that nobody disturbs is handed to every target of an open log, once, and the call returns |
| `LogShutdown.MessageIsDropped` | lib/dtv-util/src/log/statics.cpp:78-83 | and one to a closed log is dropped |
| `LogShutdown.LoggerWritesAll` | lib/dtv-util/src/log/target.cpp:40-87 | a logger that is left alone writes all queued lines in their order and looks at the flag again |
| `LogShutdown.EndedLoggerWritesAll` | lib/dtv-util/src/log/target.cpp:40-87 | and once its target has been ended it writes them and is done |
| `LogShutdown.WaitingIsNoticed` | lib/dtv-util/src/log/statics.cpp:37-44 | a finisher that waits is not forgotten |
| `LogShutdown.ThrowsWhenFinished` | lib/dtv-util/src/log/statics.cpp:45-47 | `finStatics` throws exactly when another call has finished |
| `LogShutdown.ThrownLocksOut` | lib/dtv-util/src/log/statics.cpp:37-47 | after it has thrown the mutex stays locked: no message not yet admitted ever gets further |
| `LogShutdown.NoDeadlock` | lib/dtv-util/src/log/statics.cpp:37-98 | in every state that can be reached, while a finisher has not returned and none has thrown, a finisher, a sender that has begun or the logger of an ended target can step |
| `LogShutdown.FinisherIsNotDelayed` | lib/dtv-util/src/log/statics.cpp:37-98 | in every interleaving while a finisher holds the mutex, such steps are no more than the work there is and two for each unasked wake-up, and one of them is possible until it returns or throws |
| `LogShutdown.FinishReturns` | lib/dtv-util/src/log/statics.cpp:37-57 | an undisturbed call ends and deletes every target and returns, however many there are |
| `LogShutdown.FinishingTwiceThrows` | lib/dtv-util/src/log/statics.cpp:37-47 | and calling it twice leads to the throw, whatever targets there are |
| `ResourcePool.BlocksIsLeast` | lib/dtv-util/src/resourcepool.cpp:115-121 | the number of blocks is the least with room for the bytes |
| `ResourcePool.StepConserves` | lib/dtv-util/src/resourcepool.cpp:134-191 | no step loses a buffer, gives it two holders or makes too many |
| `ResourcePool.StepLocksReserved` | lib/dtv-util/src/resourcepool.cpp:76-109 | the locked count follows the reservations |
| `ResourcePool.Conservation` | lib/dtv-util/src/resourcepool.cpp:71-191 | in every run made equals queued plus held and never exceeds the maximum, no buffer is in two places, locked is the sum of the reservations, and an untimed `alloc` never returns null |
| `ResourcePool.AllocServes` | lib/dtv-util/src/resourcepool.cpp:134-164 | in every run `alloc` waits exactly if clients hold as many buffers as there may be, and otherwise returns the one queued longest, or a new one |
| `ResourcePool.RetryServes` | lib/dtv-util/src/resourcepool.cpp:134-164 | so does a woken one, except that it returns null instead of waiting again if it has a timeout |
| `ResourcePool.LocksIfThereIsRoom` | lib/dtv-util/src/resourcepool.cpp:71-90 | in every run blocks are locked exactly if they, those locked and the buffers held are together fewer than the maximum |
| `ResourcePool.UnlocksWhatWasLocked` | lib/dtv-util/src/resourcepool.cpp:92-109 | unlocking releases as many as locking took, and notifies everybody |
| `ResourcePool.FreeQueues` | lib/dtv-util/src/resourcepool.cpp:166-191 | freed buffers go behind the others, in their order |
| `ResourcePool.QuietFreeKeepsAwake` | lib/dtv-util/src/resourcepool.cpp:166-191 | a quiet free keeps enough threads awake exactly when nobody sleeps, all are being notified, or as many threads are being woken as buffers are queued then |
| `ResourcePool.QuietFreeLoses` | lib/dtv-util/src/resourcepool.cpp:166-191 | it loses a wake-up there and then exactly when a thread sleeps, nothing is on its way to any, and a buffer was freed |
| `ResourcePool.NoWakeUpIsLost` | lib/dtv-util/src/resourcepool.cpp:134-191 | in every run whose quiet frees do no harm in that sense, when a thread sleeps while a buffer is queued some thread is about to be woken |
| `ResourcePool.QuietFreeLosesWakeUp` | lib/dtv-util/src/resourcepool.cpp:176-191 | a run with a quiet free that leaves a thread asleep with a buffer queued and nobody notifying |
| `Interfaces.DoomedIsClosed` | lib/ncl30-presenter/src/FormatterMediator.cpp:741-788 | the ports that go include every port that maps to one that goes |
| `Interfaces.DoomedIsLeast` | lib/ncl30-presenter/src/FormatterMediator.cpp:741-788 | and nothing else goes: they are the least such set |
| `Interfaces.DoomedForAReason` | lib/ncl30-presenter/src/FormatterMediator.cpp:741-788 | in terms of the references alone: what goes is the point, or a port of a parent that refers, directly or in one mapping of a switch port, to a point of a child that goes |
| `Interfaces.ReferringPortIsDoomed` | lib/ncl30-presenter/src/FormatterMediator.cpp:741-788 | and every port that so refers goes |
| `Interfaces.LinkStays` | lib/ncl30-presenter/src/FormatterMediator.cpp:790-831 | a link stays exactly if no bind of it is to a point that goes of a child of its composition |
| `Interfaces.DoomedLater` | lib/ncl30-presenter/src/FormatterMediator.cpp:782-787 | removing some of them first changes nothing about what goes in the end |
| `Interfaces.StaysIntact` | lib/ncl30-presenter/src/FormatterMediator.cpp:833-851 | if no port or bind dangled before, none does afterwards |
| `Interfaces.NobodyMaps` | lib/ncl30-presenter/src/FormatterMediator.cpp:741-788 | no port of the parent maps to the removed point any more |
| `Interfaces.RemoveInterface` | lib/ncl30-presenter/src/FormatterMediator.cpp:833-851 | as it is meant: exactly the ports and links that depend on the point go, in one cascade bounded by the depth of the tree; no reference dangles afterwards if none did before |
| `Interfaces.RemoveInterfaceAsWritten` | lib/ncl30-presenter/src/FormatterMediator.cpp:833-851 | as it is written: it completes exactly for an anchor of a child of a composition without links, none of whose ports maps to it, and does then what it should |
| `Interfaces.RemoveInterfaceMappingsAsWritten` | lib/ncl30-presenter/src/FormatterMediator.cpp:741-788 | as it is written: completes exactly when there is a parent and none of its ports maps to the point |
| `Interfaces.RemovePortAsWritten` | lib/ncl30/src/components/CompositeNode.cpp:179-188 | a reading of the source, not a result: the loop compares an iterator that nothing has set, so that every call is undefined |
| `Interfaces.RemoveInterfaceByIdAsWritten` | lib/ncl30-presenter/src/FormatterMediator.cpp:853-885 | as it is written: completes exactly if nothing has the name, or what has it, found in the same order, is such an anchor |
| `Interfaces.FreeMeansDoomedAlone` | lib/ncl30-presenter/src/FormatterMediator.cpp:833-851 | that is to say exactly for an anchor of such a child on which nothing else depends |
| `Interfaces.MappedAnchorIsUndefined` | lib/ncl30-presenter/src/FormatterMediator.cpp:833-851 | a document with one port that maps to an anchor, whose removal is undefined |
| `Interfaces.AnchorInContextIsUndefined` | lib/ncl30-presenter/src/FormatterMediator.cpp:840-842 | a document with an anchor in a context: its removal is undefined, whether a port maps to it or not |
| `Interfaces.AnchorInSwitchGoes` | lib/ncl30-presenter/src/FormatterMediator.cpp:833-851 | a document with an anchor in a switch to which no port maps: it goes |
| `Interfaces.MappedAnchorIsMeantToGo` | lib/ncl30-presenter/src/FormatterMediator.cpp:833-851 | as it is meant, the only port of the parent goes with an anchor that it maps to |
| `Interfaces.RemoveInterfaceMappings` | lib/ncl30-presenter/src/FormatterMediator.cpp:741-788 | the same for the ports of the parent that map to the point |
| `Interfaces.FindMappings` | lib/ncl30-presenter/src/FormatterMediator.cpp:757-779 | collects exactly the ports that map to the point, switch ports with one such mapping whole |
| `Interfaces.RemoveInterfaceLinks` | lib/ncl30-presenter/src/FormatterMediator.cpp:790-831 | as it is meant: exactly the links that bind the point go |
| `Interfaces.FindLinks` | lib/ncl30-presenter/src/FormatterMediator.cpp:803-824 | as it is meant: collects exactly those links, in their order |
| `Interfaces.TakeLink` | lib/ncl30/src/components/ContextNode.cpp:175-186 | as it is meant: the link leaves the list, and no other does |
| `Interfaces.RemoveLink` | lib/ncl30/src/components/ContextNode.cpp:175-186 | the loop where iterators are addresses: every link of that identifier goes but the one after an erased link, and the answer is whether the last one went |
| `Interfaces.RemovesOnlyThatLink` | lib/ncl30/src/components/ContextNode.cpp:175-186 | that takes out the link alone exactly if no other but the next one has its identifier, or the one before it is the same link |
| `Interfaces.ReportsOnlyTheLast` | lib/ncl30/src/components/ContextNode.cpp:175-186 | and then the answer is true only for the last link |
| `Interfaces.RemoveLinkAsWritten` | lib/ncl30/src/components/ContextNode.cpp:175-186 | by the letter of the language: defined exactly if no link before the last has the identifier, and then right |
| `Interfaces.ThreeUnnamedLinks` | lib/ncl30/src/components/ContextNode.cpp:175-186 | three links without an identifier: removing the first removes the third too |
| `Interfaces.RemovePort` | lib/ncl30/src/components/CompositeNode.cpp:179-188 | as it is meant: the port leaves the list |
| `Interfaces.RemoveAnchor` | lib/ncl30/src/components/Node.cpp:184-195 | the anchor leaves the list, unless it is the first one of an entity |
| `Interfaces.RemoveInterfaceById` | lib/ncl30-presenter/src/FormatterMediator.cpp:853-885 | the first anchor of the name, or else the first port if the node is a composite, goes with its cascade; if there is none nothing changes |
| `TreePath.JoinComponents` | lib/dtv-util/src/cfg/treepath.cpp:18-32 | taking a name apart at its dots loses nothing |
| `TreePath.DotsAndComponents` | lib/dtv-util/src/registrator.cpp:69-71 | a name has one part more than dots |
| `TreePath.PathAndProperty` | lib/dtv-util/src/cfg/treepath.cpp:18-29 | splitting at the last dot takes off the last part, as repeated splitting at the first one sees it |
| `ConfigInit.Config.GetChildOrNull` | lib/dtv-util/src/cfg/propertynode.cpp:136-138 | finds the child of that name exactly if there is one |
| `ConfigInit.Config.GetNodeRecursively` | lib/dtv-util/src/cfg/propertynode.cpp:140-152 | finds the node at the parts of the name exactly if there is one |
| `ConfigInit.Config.Lookup` | lib/dtv-util/src/cfg/propertynode.cpp:20-26 | returns that node, or throws |
| `ConfigInit.Config.AddNode` | lib/dtv-util/src/cfg/propertynode.cpp:28-36 | adds the child and keeps the tree, or throws if there is one of that name |
| `ConfigInit.Config.RootOf` | lib/dtv-util/src/cfg/configregistrator.cpp:16-23 | the node of all but the last part of the name |
| `ConfigInit.Config.Call` | lib/dtv-util/src/cfg/configregistrator.cpp:16-23 | a callback succeeds exactly when the node above is there and its own is not |
| `ConfigInit.SensibleCanAdd` | lib/dtv-util/src/registrator.cpp:9-11 | in the order of dots every callback finds its parent |
| `ConfigInit.AddedIsSensible` | lib/dtv-util/src/registrator.cpp:23-31 | names that could all be added are distinct and closed |
| `ConfigInit.CallEach` | lib/dtv-util/src/registrator.cpp:23-31 | the loop adds every path, or stops at one that cannot be added |
| `ConfigInit.Registry.Register` | lib/dtv-util/src/registrator.cpp:36-38 | a registrator goes to the front, with dots for underscores |
| `ConfigInit.Registry.Init` | lib/dtv-util/src/registrator.cpp:23-47 | init throws nothing exactly when the names are distinct and closed under removing the last part, in any order of registration; then every name leads to a node |
| `FocusFrame.CalculateBounds` | lib/dtv-gingaplayer/src/player/focusproperties.cpp:193-216 | the original grown by the width on every side and clipped to the canvas; it contains the original and stays inside |
| `FocusFrame.StripsCoverFrame` | lib/dtv-gingaplayer/src/player/focusproperties.cpp:137-181 | the four strips fill exactly the cells of the frame outside the original, those at the corners twice |
| `FocusFrame.BorderPaintsFrame` | lib/dtv-gingaplayer/src/player/focusproperties.cpp:137-181 | the pixels over the original stay as they are, and all the others are painted |
| `FocusFrame.DrawBorder` | lib/dtv-gingaplayer/src/player/focusproperties.cpp:137-181 | draws those strips through the surface's own `fillRect`, empty ones included |

## Left out

- CanvasEngine.Canvas.InvalidateRegion: the depth of the C++ call stack is a parameter, because the recursion need not end; the drawing operations report `ok == false` when it does not suffice, and promise the invariant when it does. It always suffices from five nested calls on when at most two regions are stored (`DirtyPairs.TwoRegionsEnd`) or are close by (`DirtyLocality.TwoNearRegionsEnd`); for which lists of three or more regions close to each other the recursion ends is not characterised.
- JoinRule: the extra area that a join may waste is an arbitrary function of the joined area; the floating-point product and rounding of canvas.cpp:202 appear only as the integer function that they are for the default 0.2.
- CanvasEngine: `destroy`, `resize`, `flushCompositionMode`, opacity, rotation, scaling, text and shapes other than rectangles, the overlay that shows blitted regions, and the window that renders the layer; a surface that changes by them is outside the flush theorem.
- CanvasEngine.Surface: pixels are a map from cells to colours and source-over is an arbitrary function; coordinates are mathematical integers.
- CanvasEngine.Canvas.Valid: a surface keeps its size, and every surface of the list is created through the canvas.
- TimeLineTimer: the system timer never expires before its time, and the clock that `local_time` reads never goes back; the theorem that no timer fires early relies on both. Milliseconds are mathematical integers, where the code wraps after 2^32 of them; registering a system timer always succeeds; callbacks may stop the player and do nothing else to the timeline, so that a callback that adds a timer while `startTimer` drains is not covered.
- Player: the file system, network, media back ends and the listeners for started, stopped and paused are parameters or have no effect; `LuaPlayer::abortPlay`, which stops without clearing the playing flag, is not covered.
- Playback.Player.SetProperty: properties that forward to a function, which may be refused while the player is stopped and which only the Lua player has.
- Properties: property objects are values held by the player, the variables that they refer to are one store, and only the flags that several properties share are objects; a property's need to refresh does not change, and checking a source does not replace it.
- PropertyTrees.Mark: marking a composite as modified does not reach its members, so nothing is claimed about a second `play` applying them again.
- TaskQueue: `processTasks` and `clear` called by other threads, and starting the queue again after it has stopped.
- LogShutdown.FinisherIsNotDelayed: that a thread which can step does so in the end, and that a finisher which waits for the mutex gets it, are up to the scheduler.
- LogShutdown: `initStatics`, which begins the runs and is not called again, adding targets while messages are transmitted, flushing, and the formatter's buffer; a formatted line is one value, and putting it into a target's queue is one step.
- ResourcePool: `clear` and the destructor.
- Crc32.Calculate: lengths and addresses of buffers; a buffer is a sequence of bytes.
- Interfaces.RemoveInterface: the removal that is meant, also for a node without a parent; `RemoveInterfaceAsWritten` is the code's. The execution objects of the scheduler are not modelled.
- Interfaces.RemoveInterfaceMappings: the cascade that is meant; `RemoveInterfaceMappingsAsWritten` is the code's.
- Interfaces.RemovePort: the search that is meant; `RemovePortAsWritten` is the code's.
- Interfaces.RemoveInterfaceLinks: the removal that is meant, of the links themselves; the code asks for them through a pointer of another class, which `RemoveInterfaceAsWritten` says.
- Interfaces.FindLinks: the search that is meant, when the links can be asked for.
- Interfaces.TakeLink: the removal of a link that is meant; `RemoveLink` and `RemoveLinkAsWritten` are the code's.
- Interfaces.RemoveLink: the link's own pointer to its composition, and what the mediator does with execution objects before it.
- Interfaces.RemoveInterfaceById: finding the document and the node by name; the removal is the one that is meant, and `RemoveInterfaceByIdAsWritten` has the code's.
- Interfaces: `removeNode`, `processInsertedComposition` and all other operations of the mediator.
- ConfigInit.Config.Call: a callback that does anything but add the last part of its own name; values of the tree, validators and listeners.
- FocusFrame.DrawBorder: a negative width, the image inside the frame, and the transparency as a floating-point number.
- Everything else: XML converters, private bases, the Lua modules, input, and the back ends for cairo, GTK, SDL, VLC and xine.
