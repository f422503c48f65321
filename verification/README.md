# Verified model of the text selection framework

A Dafny model of the self-contained logic of the selection service and its
utilities, with proofs of what that logic guarantees. `dafny verify
dfyconfig.toml` checks everything.

## What is modelled

* **Rectangles** (`Rects`, `UnionArea`, `MergeRects`, `RectLists`, `RectTiling`,
  `RowGroups`). A rectangle means a set of unit cells, so the results are about
  sets and their sizes: the sweep-line area is a cardinality, merging to a
  fixpoint yields the finest family of its kind and does not depend on order,
  subtraction and grids are exact tilings, rows are connected components.
  Coordinates and sizes are int32 and are clipped as in the code.
* **Edit distance** (`EditDistance`). The table of the dynamic program against
  edit scripts: minimality, the metric laws, the similarity ratio.
* **The mouse gesture automaton** (`Gesture`). The class of the input monitor,
  its step function, unbounded runs of pointer, key and axis events watched by an
  observer of the left button, and the gestures that must be recognised.
* **Stateful utilities** (`LruCache`, `CircuitBreaker`, `RateLimiter`). Classes
  with the fields of the source, and statements about whole runs: which keys a
  cache holds, which requests a breaker admits and a limiter grants, decided
  from the history alone, and how many grants fit in any interval. Time is a
  non-decreasing input; 0 is the "unset" mark, so clocks start after it.
* **Text formats** (`Csv`, `Json`, `JsonString`, `Base64`, `StringUtil`). Writers
  against readers, each with the exact set of inputs on which the round trip
  holds. Base64 follows section 4 of RFC 4648.
* **UTF-8** (`Utf8`, `ContentValidator`, `ContentTruncation`). Every scanner cuts
  its input into the same units, characters and stray bytes; the results are
  about these. The accepted language is that of the lead and continuation
  checks in the code, which is wider than section 4 of RFC 3629: overlong
  three-byte forms, surrogates and values above U+10FFFF pass.
* **Configuration synchronisation** (`UidText`, `ConfigSync`). Memory, system
  parameters and the database as three stores, synchronised per user, over runs
  of foreground changes, synchronisations and parameter changes.

`Basics`, `Sorting` and `Counting` hold what the other modules share: machine
integers and bytes, sorting, and counting cells.

Code that works in place is a class or a method with loops, proved equal to a
specification function; the lemmas then say what that function means. Bytes are
integers below 256, and masks and shifts on them are written as the ranges and
sums they denote (`Utf8.MasksAreRanges`).

## Where the code differs from what one would expect

* Edges past INT32_MAX are cut off (`UnionArea.AreaIsExact`,
  `RectLists.UncontainedTwice`), and the bounding box of rectangles farther apart
  than int32 wraps (`Rects.UnionRectIsBoundingBox`). Merging and grouping give the
  expected result exactly when the inputs have a family of boxes that fit and stay
  apart (`MergeRects.MergeOverlappingIsFinest`, `RowGroups.GroupByRows`); inputs all
  clipped to nothing leave the last one (`MergeRects.OrderMattersWhenClipped`).
* `CsvUtil::Parse` deletes every quote character it meets, so doubled quotes do
  not come back, and skips blank lines; `SetField` beyond the last row is lost. When
  trimming, a line of white space makes a row of one empty field, which formatting
  then loses (`Csv.ParseIsStable`).
* `JsonUtil::PrettyPrint` fails on a text that closes more than it opened,
  although `IsValid` may accept it.
* `UnescapeJSON` skips the code of a control character instead of reading it.
* `FromBase64` does not shift for padding, so a trailing group comes out wrong
  unless its bytes are zero.
* `CompressRepeats` and white space normalisation forget what came before an
  invalid byte, although that byte is dropped (`ContentValidator.CompressBoundsRuns`
  and `NormalizedSpacing` say when this shows).
* A setting changed while nobody is logged in, or by a newcomer before the
  synchronisation, ends in the wrong row (`ConfigSync.ReturningUserKeepsRow`,
  `CallbackBeforeSync`).
* `AlignToCharBoundary` and both truncators go back to a boundary; the header
  comment of the first speaks of the next one.
* With its default configuration the circuit breaker leaves half-open only by
  `Reset` or a failure, unless outcomes are recorded of requests it did not
  admit; its elapsed time wraps after 2^32 ms.
* `ComparisionResult::shouldStart` is never set.

## Model

| member | source | states |
|---|---|---|
| Rects.NormalizeMeaning | utils/src/selection_geometry_utils.cpp:84-134 | a rectangle that is not empty keeps its origin; its right and bottom edges stop at INT32_MAX, normalising twice changes nothing, and it changes nothing at all exactly when no edge is past the maximum |
| Rects.NormalizedCoverage | utils/src/selection_geometry_utils.cpp:428-432 | dropping empty rectangles and normalising the rest keeps exactly the cells below the maximum coordinate |
| Rects.EnclosesCells | utils/src/selection_geometry_utils.cpp:498-514 | for rectangles that are not empty, enclosing by edges is inclusion of cell sets |
| Rects.UnionRectIsBoundingBox | utils/src/selection_geometry_utils.cpp:573-588 | for all inputs: UnionRect keeps every representable cell of two rectangles exactly when one is empty, both are clipped to nothing, or the sides of their bounding box fit in int32; otherwise it has no cell at all |
| Rects.UnionRectValue | utils/src/selection_geometry_utils.cpp:573-588 | the corner is that of the bounding box, and a side too long for int32 comes out short by 2^32, so negative |
| UnionArea.MergeIntervalLengths | utils/src/selection_geometry_utils.cpp:258-281 | the total is the number of integers in some interval, in whatever window the intervals lie |
| UnionArea.UnionArea | utils/src/selection_geometry_utils.cpp:1213-1255 | the sweep returns the number of unit cells (below the maximum coordinate) lying in some rectangle of the list |
| UnionArea.SweepStops | utils/src/selection_geometry_utils.cpp:1228-1235 | the distinct top and bottom edges in ascending order, all of them and nothing else |
| UnionArea.SlabIntervals | utils/src/selection_geometry_utils.cpp:1243-1248 | the horizontal extents of the rectangles that span a slab |
| UnionArea.SweepSlabs | utils/src/selection_geometry_utils.cpp:1236-1254 | the slabs' areas add up to the covered cells between the first and the last edge |
| UnionArea.SlabRow | utils/src/selection_geometry_utils.cpp:1237-1252 | between two consecutive edges every row of cells is covered alike, by the union of the slab's intervals |
| UnionArea.WholeSweep | utils/src/selection_geometry_utils.cpp:1213-1255 | the slabs between the first and the last edge account for every covered cell once |
| UnionArea.AreaIgnoresOrder | utils/src/selection_geometry_utils.cpp:1213-1255 | lists with the same members have the same area, in any order and with any repetition |
| UnionArea.AreaIsExact | utils/src/selection_geometry_utils.cpp:1213-1255 | the result counts all covered cells exactly when no rectangle sticks out past INT32_MAX |
| UnionArea.AreaAtMostTotal | utils/src/selection_geometry_utils.cpp:1007-1015 | the union is at most TotalArea |
| UnionArea.TotalArea | utils/src/selection_geometry_utils.cpp:1007-1015 | the loop adds up the areas of the normalised rectangles |
| UnionArea.CellsSize | utils/src/selection_geometry_utils.cpp:1007-1015 | width times height is the number of cells |
| MergeRects.MergeableIsMonotone | utils/src/selection_geometry_utils.cpp:283-292 | what can be merged can still be merged after either rectangle grows, and overlapping rectangles can always be merged |
| MergeRects.CanMergeMeaning | utils/src/selection_geometry_utils.cpp:283-292 | for all rectangles: mergeable exactly when on one axis they meet or touch and on the other their edges are at most the tolerance apart; empty ones always are, and tolerance INT32_MAX bridges any distance because gaps are cut off there |
| MergeRects.FindMergePartner | utils/src/selection_geometry_utils.cpp:294-302 | the first later index that can be merged with i, or the length |
| MergeRects.MergeFirstPair | utils/src/selection_geometry_utils.cpp:992-1004 | one pass merges the first mergeable pair and says whether there was one, the fixpoint unchanged |
| MergeRects.MergeOverlapping | utils/src/selection_geometry_utils.cpp:980-1005 | the loop ends; its result is the fixpoint of merging the first pair, and no two members can be merged |
| MergeRects.MergeOverlappingIsFinest | utils/src/selection_geometry_utils.cpp:980-1005 | the result covers every input that is not clipped to nothing, is pairwise not mergeable, and lies inside every other such family, exactly when there is any such family (and not all inputs are clipped to nothing) |
| MergeRects.MergeOverlappingIgnoresOrder | utils/src/selection_geometry_utils.cpp:980-1005 | then the result is the same, as a multiset, for every order and repetition of the inputs |
| MergeRects.MergeOverlappingClusters | utils/src/selection_geometry_utils.cpp:980-1005 | the inputs fall into clusters of which the results are the bounding boxes, exactly in that case |
| MergeRects.MergeFixIsFinest | utils/src/selection_geometry_utils.cpp:980-1005 | the same condition for the fixpoint of any monotone relation that merges overlapping and absorbs empty rectangles |
| MergeRects.MergeFixCovers | utils/src/selection_geometry_utils.cpp:992-1004 | however many pairs are merged, what is there lies inside every separated family around the inputs and covers them; bounding boxes never outgrow int32 then |
| MergeRects.AllClippedLeavesLast | utils/src/selection_geometry_utils.cpp:980-1005 | inputs all clipped to nothing merge into the last of them |
| MergeRects.OrderMattersWhenClipped | utils/src/selection_geometry_utils.cpp:980-1005 | so their order matters exactly when the last ones differ |
| MergeRects.OrderMattersWhenTooWide | utils/src/selection_geometry_utils.cpp:980-1005 | without such a family order can matter too: for any three rectangles side by side of which the first two together are too wide for int32, one order leaves the third, another one an empty rectangle |
| MergeRects.SpansFitSeparates | utils/src/selection_geometry_utils.cpp:573-588 | if the box around all inputs fits in int32 there is such a family, whatever may be merged |
| MergeRects.SelectionRectCombiner.Add | utils/src/selection_geometry_utils.cpp:1653-1660 | the new state is the old one with the normalised rectangle appended, merged to the fixpoint; empty rectangles are ignored |
| MergeRects.SelectionRectCombiner.TryMergeAdjacent | utils/src/selection_geometry_utils.cpp:1682-1698 | the state becomes its fixpoint of merging at tolerance 0 |
| MergeRects.CombinerAgreesWithBatch | utils/src/selection_geometry_utils.cpp:1653-1698 | fed rectangle by rectangle, the combiner ends with the result of MergeOverlapping at tolerance 0, whenever the inputs have a separated family |
| RectLists.RemoveContained | utils/src/selection_geometry_utils.cpp:1045-1062 | the kept rectangles are those not dominated, an earlier one winning among equals |
| RectLists.IsContainedByAny | utils/src/selection_geometry_utils.cpp:304-321 | true exactly when some other member contains it, or an equal one comes earlier |
| RectLists.Keeper | utils/src/selection_geometry_utils.cpp:304-321 | domination always climbs to a kept rectangle enclosing the dropped one |
| RectLists.UncontainedIsAntichain | utils/src/selection_geometry_utils.cpp:1045-1062 | no two kept rectangles are equal or contain one another |
| RectLists.UncontainedKeepsCells | utils/src/selection_geometry_utils.cpp:1045-1062 | every dropped rectangle lies in a kept one, so the visible cells are the same |
| RectLists.UncontainedTwice | utils/src/selection_geometry_utils.cpp:1045-1062 | a second pass changes nothing exactly when no input is clipped to nothing at the maximum coordinate |
| RectTiling.SubtractIsDifference | utils/src/selection_geometry_utils.cpp:590-627 | the pieces are disjoint, not empty, cover exactly the cells of a that are not in b, and their areas add up to that number |
| RectTiling.IntersectCells | utils/src/selection_geometry_utils.cpp:556-571 | for any two rectangles the intersection holds exactly their common cells below the maximum coordinate, and lies in both |
| RectTiling.SplitGrid | utils/src/selection_geometry_utils.cpp:1582-1611 | the nested loops produce the grid of row and column parts; nothing for an empty rectangle or a count below one |
| RectTiling.GridTiles | utils/src/selection_geometry_utils.cpp:1582-1611 | rows times columns disjoint pieces that tile the rectangle, area conserved, each side the quotient or one more |
| RectTiling.SplitRows | utils/src/selection_geometry_utils.cpp:1599-1610 | the outer loop emits the rows of the grid, the remainder spread over the first ones |
| RectTiling.SplitRow | utils/src/selection_geometry_utils.cpp:1602-1607 | the inner loop emits the parts of one row likewise |
| RectTiling.PiecesArea | utils/src/selection_geometry_utils.cpp:1582-1611 | the areas of disjoint pieces add up to the number of covered cells |
| RowGroups.SortByRow | utils/src/selection_geometry_utils.cpp:1110-1132 | a reordering of the normalised list, by top then left |
| RowGroups.RowOrderMeaning | utils/src/selection_geometry_utils.cpp:1110-1132 | top, left, height and width decide, the first that differs |
| RowGroups.FindRowGroup | utils/src/selection_geometry_utils.cpp:323-337 | the first group whose bounds the rectangle meets vertically within the tolerance |
| RowGroups.NearMeaning | utils/src/selection_geometry_utils.cpp:58-66 | vertically near: each starts at most the tolerance below the end of the other, a negative tolerance counting as none |
| RowGroups.ListBounds | utils/src/selection_geometry_utils.cpp:642-652 | the bounds of a list as a fold of UnionRect |
| RowGroups.BoundsMeaning | utils/src/selection_geometry_utils.cpp:642-652 | the bounds enclose the members and each edge is a member's, exactly when some int32 rectangle is around them all |
| RowGroups.GroupByRows | utils/src/selection_geometry_utils.cpp:1091-1108 | every rectangle not clipped to nothing is in the groups as often as in the list; members touch earlier ones of their group, groups are farther apart than the tolerance and each fits an int32 box, exactly when the inputs have a family of boxes with that distance; then the groups in sequence are sorted by row |
| RowGroups.FramesSeparate | utils/src/selection_geometry_utils.cpp:1091-1108 | the other direction: groups that are apart and framed make such a family |
| RowGroups.GroupsAreComponents | utils/src/selection_geometry_utils.cpp:1091-1108 | in the result two members share a group exactly when a path of vertically near members connects them |
| EditDistance.ComputeEditDistance | common/data_converter/src/selection_string_converter.cpp:803-828 | the filled table's last cell is the distance of the whole strings |
| EditDistance.Neighbours | common/data_converter/src/selection_string_converter.cpp:817-825 | neighbouring cells differ by at most one |
| EditDistance.NoBetterStep | common/data_converter/src/selection_string_converter.cpp:817-825 | taking the diagonal on equal characters is never worse than inserting, deleting or replacing |
| EditDistance.StepAttained | common/data_converter/src/selection_string_converter.cpp:817-825 | and one of the three steps attains the cell |
| EditDistance.DistanceIsMinimal | common/data_converter/src/selection_string_converter.cpp:803-828 | some script of that many single-character inserts, deletes and replacements turns one string into the other, and no script is shorter |
| EditDistance.ShortestScript | common/data_converter/src/selection_string_converter.cpp:803-828 | builds such a script |
| EditDistance.ScriptsAreNoShorter | common/data_converter/src/selection_string_converter.cpp:803-828 | bounds every script |
| EditDistance.DistanceZero | common/data_converter/src/selection_string_converter.cpp:803-828 | zero exactly for equal strings |
| EditDistance.DistanceSymmetric | common/data_converter/src/selection_string_converter.cpp:803-828 | symmetric |
| EditDistance.Triangle | common/data_converter/src/selection_string_converter.cpp:803-828 | triangle inequality |
| EditDistance.DistanceBounds | common/data_converter/src/selection_string_converter.cpp:803-828 | between the difference of the lengths and the longer length |
| EditDistance.ComputeSimilarity | common/data_converter/src/selection_string_converter.cpp:830-840 | in [0, 1], one exactly for equal strings, otherwise one minus distance over the longer length |
| Gesture.BaseSelectionInputMonitor.OnInputEvent | service/src/selection_input_monitor.cpp:65-83 | the object refines the step function on which all run results rest: one event takes its fields where the step says |
| Gesture.BaseSelectionInputMonitor.ProcessKeyEvent | service/src/selection_input_monitor.cpp:85-137 | refines the step on keys: any key ends a report, other keys cancel a wait for ctrl, repeats are ignored, ctrl down then up confirms |
| Gesture.BaseSelectionInputMonitor.ProcessPointerEvent | service/src/selection_input_monitor.cpp:139-193 | refines the step on pointer events; the termination measure shows that handing an event on again nests at most once |
| Gesture.BaseSelectionInputMonitor.ProcessMovement | service/src/selection_input_monitor.cpp:195-226 | refines the step on moves without button: small ones keep a double click waiting, a report turns into a wait for a third press |
| Gesture.BaseSelectionInputMonitor.InputInitialProcess | service/src/selection_input_monitor.cpp:337-349 | only a left press starts a gesture, with its time and place |
| Gesture.BaseSelectionInputMonitor.InputWordBeginProcess | service/src/selection_input_monitor.cpp:351-364 | a move starts a drag, a release a wait for the second press, anything else changes nothing |
| Gesture.BaseSelectionInputMonitor.InputWordLeftMoveProcess | service/src/selection_input_monitor.cpp:388-398 | a release finishes the drag, other actions than moving start over with the same event |
| Gesture.BaseSelectionInputMonitor.InputWordEndProcess | service/src/selection_input_monitor.cpp:440-455 | a press in time after a double click makes a third one, any other press starts over, anything else cancels |
| Gesture.BaseSelectionInputMonitor.ProcessWordSelection | service/src/selection_input_monitor.cpp:366-386 | the type reported is that of the state left; with the ctrl trigger the report waits, after a double click for a button too |
| Gesture.BaseSelectionInputMonitor.ResetProcess | service/src/selection_input_monitor.cpp:241-247 | handling the event again from the initial state is the same as a fresh gesture on it |
| Gesture.BaseSelectionInputMonitor.InputWordDoubleClickProcess | service/src/selection_input_monitor.cpp:411-438 | a second press in time goes on, one too late starts over with the same event; then release or drag |
| Gesture.BaseSelectionInputMonitor.InputWordTripleClickProcess | service/src/selection_input_monitor.cpp:462-482 | release reports, a drag goes on as a drag, anything else starts over with the same event |
| Gesture.BaseSelectionInputMonitor.JudgeTriple | service/src/selection_input_monitor.cpp:400-409 | a third press at most 300 ms after the second makes a triple click, a later one starts over |
| Gesture.BaseSelectionInputMonitor.FinishedWordSelection | service/src/selection_input_monitor.cpp:484-492 | each report, and nothing else, takes the next sequence number |
| Gesture.RunConsistent | service/src/selection_input_monitor.cpp:85-247 | over every plausible run the state agrees with what an observer of the left button's presses, releases and drags knows |
| Gesture.ReportIsJustified | service/src/selection_input_monitor.cpp:366-386 | a DOUBLE report means the last two presses are at most 550 ms apart, TRIPLE that a third came at most 300 ms later, MOVE a drag since the last press; the reported points are those of the press and the release |
| Gesture.ReachablePairs | service/src/selection_input_monitor.cpp:337-482 | exactly thirteen pairs of state and sub-state occur in plausible runs |
| Gesture.ReachableByAnyRun | service/src/selection_input_monitor.cpp:337-482 | implausible runs add only one pair; the double-click state with the button-or-ctrl-down sub-state never occurs |
| Gesture.CtrlConfirms | service/src/selection_input_monitor.cpp:85-137 | with the ctrl trigger always on, a report is made only by releasing ctrl, after ctrl was pressed after the button was last released |
| Gesture.CtrlUpAwaitedAfterCtrlDown | service/src/selection_input_monitor.cpp:85-137 | waiting for ctrl up means ctrl went down since the button was last pressed or released |
| Gesture.DoneIsFleeting | service/src/selection_input_monitor.cpp:139-193 | the done state survives exactly axis events and window enter and leave events |
| Gesture.SequenceIdCountsReports | service/src/selection_input_monitor.cpp:484-492 | the sequence number counts the reports, modulo 2^32 |
| Gesture.DoubleClickRecognised | service/src/selection_input_monitor.cpp:351-438 | after any run in which a press starts a gesture: two clicks with moves between select from the first press to the last release as a double click, exactly when the presses are at most 550 ms apart and every move stays within ten of the first press along and across; reported at once, or awaiting ctrl with the trigger on |
| Gesture.TripleClickRecognised | service/src/selection_input_monitor.cpp:400-482 | three clicks select from the first press to the last release as a triple click, exactly when the intervals are at most 550 and 300 ms and the moves between stay close (with the ctrl trigger on: there is none before the third) |
| Gesture.DragRecognised | service/src/selection_input_monitor.cpp:351-398 | press, any moves with the button, release: a selection by moving from the press to the release |
| Gesture.DragAfterClick | service/src/selection_input_monitor.cpp:411-438 | the same with a second press, from the first press if the second is in time |
| Gesture.SelectionIsReported | service/src/selection_input_monitor.cpp:85-137 | a selection of any kind made with the ctrl trigger on is not reported yet, and reported unchanged by ctrl down and up, with moves and repeated presses between |
| Gesture.KeyWhileWaiting | service/src/selection_input_monitor.cpp:85-137 | which keys leave a selection waiting for ctrl, which have it reported, and that all others cancel it |
| Gesture.StartsExactly | service/src/selection_input_monitor.cpp:139-193 | the states of plausible runs in which a press starts a gesture, and that in all others it continues one |
| Gesture.QuietIsNothing | service/src/selection_input_monitor.cpp:139-147 | axis, window enter and window leave events mixed in anywhere change nothing |
| LruCache.SelectionLruCache.Put | utils/src/selection_event_bus.cpp:405-421 | the list becomes: key first with its value, the rest without it, cut to the capacity; evictions counted |
| LruCache.SelectionLruCache.Get | utils/src/selection_event_bus.cpp:423-434 | the value found, moved to the front; hits and misses counted |
| LruCache.SelectionLruCache.Erase | utils/src/selection_event_bus.cpp:436-446 | the key is gone, the others keep their order; true exactly when it was there |
| LruCache.SelectionLruCache.Clear | utils/src/selection_event_bus.cpp:448-453 | empty list and index |
| LruCache.IndexBijection | utils/src/selection_event_bus.cpp:455-476 | index and list are in bijection: every node is the index's entry for its key, every entry a node of the list |
| LruCache.RunIsMostRecent | utils/src/selection_event_bus.cpp:400-476 | after any run of puts and gets the keys are the first capacity keys in recency order |
| LruCache.RecencyMeaning | utils/src/selection_event_bus.cpp:400-476 | recency order is the keys touched, each once, by the time of their last touch |
| LruCache.RunHoldsLastPut | utils/src/selection_event_bus.cpp:405-453 | after any run, erases and clears included, each key found holds the value of its last put since it was erased |
| LruCache.HitIffRecent | utils/src/selection_event_bus.cpp:423-434 | after puts and gets a key is found exactly when it was touched and fewer than capacity other keys were touched since |
| LruCache.RunInOrder | utils/src/selection_event_bus.cpp:400-476 | after any run, erases and clears included, the keys stand in the order of their last touch |
| LruCache.FoundExactly | utils/src/selection_event_bus.cpp:400-476 | after any run a key is found exactly when it was put, not erased nor cleared since, and at no time since were capacity others used after it and still there; the keys listed before it are these others |
| CircuitBreaker.SelectionCircuitBreaker.AllowRequest | utils/src/selection_event_bus.cpp:568-591 | the object refines the breaker's step on requests: the answer is whether it admits, half-open counted |
| CircuitBreaker.SelectionCircuitBreaker.RecordSuccess | utils/src/selection_event_bus.cpp:593-604 | refines the step on successes: enough of them in half-open close it, in closed the failure count restarts |
| CircuitBreaker.SelectionCircuitBreaker.RecordFailure | utils/src/selection_event_bus.cpp:606-617 | refines the step on failures: the threshold trips it, in half-open any one does |
| CircuitBreaker.SelectionCircuitBreaker.TripToOpen | utils/src/selection_event_bus.cpp:634-638 | open, with the time of the trip |
| CircuitBreaker.SelectionCircuitBreaker.Reset | utils/src/selection_event_bus.cpp:625-631 | closed, counters cleared |
| CircuitBreaker.NothingAdmittedBeforeTimeout | utils/src/selection_event_bus.cpp:568-591 | after a trip nothing is admitted before resetTimeoutMs, whatever happens in between but a reset |
| CircuitBreaker.ExpiryWraps | utils/src/selection_event_bus.cpp:640-645 | after the timeout the breaker still refuses exactly while the elapsed time modulo 2^32 is below it |
| CircuitBreaker.EpisodeAdmitsFew | utils/src/selection_event_bus.cpp:568-591 | at most halfOpenMaxRequests + 1 requests are admitted per half-open episode |
| CircuitBreaker.EpisodeAdmitsExactly | utils/src/selection_event_bus.cpp:582-590 | inside an episode a request is admitted exactly while at most halfOpenMaxRequests were, the one that opened it included |
| CircuitBreaker.BreakerFollowsHistory | utils/src/selection_event_bus.cpp:568-645 | after any events the state and every counter are those read off the history: failures in a row, time of the trip, requests and successes since half-open began |
| CircuitBreaker.AdmittedExactly | utils/src/selection_event_bus.cpp:568-591 | so a request is admitted exactly when the history says closed, or open for the timeout (modulo 2^32), or half-open with fewer than halfOpenMaxRequests asked since |
| CircuitBreaker.ClosedUntilStreak | utils/src/selection_event_bus.cpp:568-617 | closed all the way, and admitting everything, exactly while no streak of failures has reached the threshold |
| CircuitBreaker.ClosesOnSuccesses | utils/src/selection_event_bus.cpp:593-604 | half-open turns closed only on a success, after successThreshold of them and no failure in the episode |
| CircuitBreaker.ClosingTakesForeignOutcomes | utils/src/selection_event_bus.cpp:553-655 | if halfOpenMaxRequests + 1 < successThreshold, closing takes more outcomes than the episode admitted requests |
| CircuitBreaker.NeverClosesByItself | utils/src/selection_event_bus.cpp:553-655 | so when outcomes come only from admitted requests it closes only by Reset |
| CircuitBreaker.DefaultNeverClosesByItself | utils/src/selection_event_bus.cpp:555-565 | which is the case of the default configuration |
| CircuitBreaker.ExhaustedRefusesForever | utils/src/selection_event_bus.cpp:568-591 | an episode whose requests are used up refuses for good, its state unchanged |
| CircuitBreaker.ConsecutiveCountsFailures | utils/src/selection_event_bus.cpp:606-617 | the failure counter is the number of failures since the last success or reset, modulo 2^32 |
| CircuitBreaker.ClosedTripsExactly | utils/src/selection_event_bus.cpp:606-617 | a closed breaker trips exactly on the failure that brings that count to the threshold |
| RateLimiter.SelectionRateLimiter.TryAcquireSliding | utils/src/selection_rate_limiter.cpp:251-264 | pops what is out of the window, then decides and records as specified |
| RateLimiter.SelectionRateLimiter.TryAcquireToken | utils/src/selection_rate_limiter.cpp:266-291 | refills, then spends a token if there is a whole one |
| RateLimiter.SelectionRateLimiter.TryAcquireFixed | utils/src/selection_rate_limiter.cpp:293-306 | restarts a window that is over, then counts |
| RateLimiter.SelectionRateLimiter.EvictIfNeeded | utils/src/selection_rate_limiter.cpp:230-249 | past 256 contexts a least recently used one goes, and nothing else changes |
| RateLimiter.SelectionRateLimiter.TryAcquire | utils/src/selection_rate_limiter.cpp:308-355 | bad keys or configurations change nothing; listed keys bypass; otherwise only the key's context changes, after eviction, and the answer is that of the context |
| RateLimiter.SelectionRateLimiter.GetRemainingQuota | utils/src/selection_rate_limiter.cpp:530-574 | the quota of the key's context, full for a new key; no later decision changes, no other key is touched |
| RateLimiter.QuotaIsBurst | utils/src/selection_rate_limiter.cpp:530-574 | of requests made at this instant exactly as many as the quota would be granted, for every strategy and context |
| RateLimiter.StatCountsRequests | utils/src/selection_rate_limiter.cpp:308-355 | grants and refusals add up to the requests |
| RateLimiter.LastUseIsLatest | utils/src/selection_rate_limiter.cpp:230-249 | what eviction goes by is the time of the key's last request |
| RateLimiter.SlidingDecidesByHistory | utils/src/selection_rate_limiter.cpp:251-264 | the pruned deque decides exactly like counting all earlier grants in (now - W, now] |
| RateLimiter.SlidingWindowBound | utils/src/selection_rate_limiter.cpp:251-264 | no window (t - W, t] holds more than capacity grants of the full history |
| RateLimiter.SlidingGrantBound | utils/src/selection_rate_limiter.cpp:251-264 | so requests made within one window are granted at most capacity times |
| RateLimiter.TokenBucketBound | utils/src/selection_rate_limiter.cpp:266-291 | in any [s, t] at most capacity + refillPerSec (t - s) / 1000 grants |
| RateLimiter.TokensPayForGrants | utils/src/selection_rate_limiter.cpp:266-291 | grants plus tokens left are paid for by one full bucket and the refill of the time between |
| RateLimiter.TokenDecidesByHistory | utils/src/selection_rate_limiter.cpp:266-291 | a request is granted exactly when, since every earlier request, the grants with this one are at most capacity + seconds times refillPerSec |
| RateLimiter.FixedWindowBound | utils/src/selection_rate_limiter.cpp:293-306 | at most twice the capacity in any interval as long as the window |
| RateLimiter.FixedDecidesByHistory | utils/src/selection_rate_limiter.cpp:293-306 | a request is granted exactly when fewer than capacity requests came before it in its window, windows beginning with the first request and with each that comes windowMs after the begin of the last |
| RateLimiter.InterleavedGrants | utils/src/selection_rate_limiter.cpp:308-355 | in a run of requests for at most 256 keys, what a key is granted between any two requests is what its own requests alone are granted |
| RateLimiter.InterleavedBounds | utils/src/selection_rate_limiter.cpp:308-355 | so each key keeps its strategy's bound, however requests for other keys are mixed in |
| RateLimiter.UpdatedTwice | utils/src/selection_rate_limiter.cpp:251-281 | bringing a sliding window or a bucket up to date early changes nothing later |
| Csv.EscapeCSV | common/data_converter/src/selection_string_converter.cpp:493-509 | quotes a field holding a comma, a quote or a line break, doubling its quotes; leaves any other alone |
| Csv.UnescapeCSV | common/data_converter/src/selection_string_converter.cpp:511-529 | strips the outer quotes and halves doubled ones |
| Csv.UnescapeUndoesEscape | common/data_converter/src/selection_string_converter.cpp:493-529 | unescaping undoes escaping, on every string |
| Csv.FinishCsvRow | common/data_converter/src/selection_format_converter.cpp:174-186 | the pending field, unescaped and trimmed if asked for, and the row are added unless there is nothing; the field is tested before it is trimmed |
| Csv.Trim | common/data_converter/src/selection_string_converter.cpp:258-280 | the two loops drop the white space at both ends |
| Csv.SpacesAre | common/data_converter/src/selection_string_converter.cpp:258-280 | the six white space characters of the C locale |
| Csv.TrimMeaning | common/data_converter/src/selection_string_converter.cpp:258-280 | what is left is a slice with no white space at its ends, only white space is cut, and nothing is cut just from texts without it at the ends |
| Csv.FinalizeCsvField | common/data_converter/src/selection_format_converter.cpp:157-171 | the field unescaped, and trimmed if asked for |
| Csv.Parse | common/data_converter/src/selection_format_converter.cpp:706-732 | the loop computes the machine over characters |
| Csv.Format | common/data_converter/src/selection_format_converter.cpp:734-754 | the nested loops compute the text of the table, delimiters and line breaks only between |
| Csv.FormatRow | common/data_converter/src/selection_format_converter.cpp:739-746 | one line: escaped fields with delimiters between |
| Csv.ParseOfFormat | common/data_converter/src/selection_format_converter.cpp:706-754 | with and without trimming, for comma and quote on every table and for other delimiters on fields with none of the special characters: parsing a formatted table gives it back with quote characters deleted, fields trimmed, and rows dropped that are empty or whose only field has nothing but quotes |
| Csv.RoundTripExactly | common/data_converter/src/selection_format_converter.cpp:706-754 | there the round trip is exact just for tables without such rows whose fields have no quote character and, when trimming, no white space at the ends |
| Csv.ParseIsStable | common/data_converter/src/selection_format_converter.cpp:706-754 | formatting a parsed table and parsing again changes nothing exactly when it has no row of a single empty field, which only trimming can make |
| Csv.GetField | common/data_converter/src/selection_format_converter.cpp:756-766 | the field of the parsed table, or an empty string |
| Csv.SetField | common/data_converter/src/selection_format_converter.cpp:768-785 | the text of the parsed table grown to hold the field, with that field set |
| Csv.SetThenGet | common/data_converter/src/selection_format_converter.cpp:756-785 | a nonempty value just set is read back exactly when no missing row had to be added before it and it survives reading; rows of a single empty field before it, which only trimming makes, shift what is read |
| Json.HandleScanCharInString | common/data_converter/src/selection_format_converter.cpp:50-72 | consumes exactly the characters of strings and their quotes, and moves the scanner |
| Json.AppendStructChar | common/data_converter/src/selection_format_converter.cpp:75-107 | white space goes, structural characters get line breaks and indentation; fails when asked to indent below level zero |
| Json.PrettyPrint | common/data_converter/src/selection_format_converter.cpp:409-425 | the loop computes the printed text or the failure |
| Json.Minify | common/data_converter/src/selection_format_converter.cpp:427-444 | the loop drops exactly the white space outside strings |
| Json.IsValid | common/data_converter/src/selection_format_converter.cpp:446-486 | the loop computes the two bracket balances and whether a string is open |
| Json.BalancedMeaning | common/data_converter/src/selection_format_converter.cpp:446-486 | accepted exactly when outside strings closing and opening braces are as many, and brackets, and the number of delimiting quotes is even |
| Json.LexMeaning | common/data_converter/src/selection_format_converter.cpp:50-72 | inside a string: after an odd number of delimiting quotes; escaped: after an odd number of backslashes there |
| Json.MinifyUndoesPrettyPrint | common/data_converter/src/selection_format_converter.cpp:409-444 | minifying a printed text gives the minified original |
| Json.PrintedOfMinified | common/data_converter/src/selection_format_converter.cpp:409-444 | printing a minified text gives what printing the original gives |
| Json.PrettyPrintIsCanonical | common/data_converter/src/selection_format_converter.cpp:409-444 | two texts print alike exactly when they minify alike, and printing again changes nothing |
| Json.MinifiedTwice | common/data_converter/src/selection_format_converter.cpp:427-444 | minifying again changes nothing |
| Json.ValidityIsKept | common/data_converter/src/selection_format_converter.cpp:409-486 | neither minifying nor printing changes validity |
| Json.PrettyPrintFailsExactly | common/data_converter/src/selection_format_converter.cpp:75-107 | printing fails exactly when the indent is positive and some prefix closes more brackets than it opens |
| Json.ValidMaySink | common/data_converter/src/selection_format_converter.cpp:446-486 | a text IsValid accepts that cannot be printed |
| Json.LayoutFollowsDepth | common/data_converter/src/selection_format_converter.cpp:75-107 | every character is laid out by itself, at the nesting depth of the text up to and including it |
| Json.DepthMeaning | common/data_converter/src/selection_format_converter.cpp:75-107 | the nesting depth is the number of opening less the number of closing brackets outside strings so far |
| Json.PieceLayout | common/data_converter/src/selection_format_converter.cpp:75-107 | after an opener or a comma, and before a closer, a line break and indent times level spaces; one space after a colon; white space goes; anything else stands alone |
| JsonString.EscapeJSON | common/data_converter/src/selection_string_converter.cpp:400-416 | two-character escapes, four-digit codes for other control characters, the rest as it is |
| JsonString.LettersOfTheStandard | common/data_converter/src/selection_string_converter.cpp:72-136 | the letters of section 7 of RFC 8259, in both directions, and which characters stay as they are |
| JsonString.CodeIsSpelled | common/data_converter/src/selection_string_converter.cpp:407-411 | the four hexadecimal digits of any other control character spell its code |
| JsonString.UnescapeJSON | common/data_converter/src/selection_string_converter.cpp:418-451 | the flag-driven loop computes the recursive reading; a code is skipped with its four digits |
| JsonString.UnescapeUndoesEscape | common/data_converter/src/selection_string_converter.cpp:400-451 | what comes back is the text without the control characters that have no two-character escape, so all of it exactly when there are none |
| JsonString.QuotedTextIsOpaque | common/data_converter/src/selection_format_converter.cpp:50-72 | an escaped text between quotes is one string to the scanner: minifying and printing leave it alone, and the closing quote ends it |
| Utf8.ValidateUtf8Sequence | utils/src/selection_content_validator.cpp:328-355 | the loop accepts exactly a lead byte of the length's range followed by continuation bytes |
| Utf8.GetUtf8SequenceLength | utils/src/selection_content_validator.cpp:298-313 | one exactly for ASCII, zero exactly for continuation bytes and bytes from F8 on |
| Utf8.MasksAreRanges | utils/src/selection_content_validator.cpp:298-313 | the lead and continuation masks are the byte ranges used in the model |
| Utf8.DecodeIsInjective | utils/src/selection_content_validator.cpp:357-386 | the code point and the length determine the bytes |
| Utf8.DecodeUndoesEncode | utils/src/selection_content_validator.cpp:357-386 | the UTF-8 encoding of a code point in one to four bytes is a character and decodes to it |
| Utf8.EncodeUndoesDecode | utils/src/selection_content_validator.cpp:357-386 | every character is the encoding of its code point at its length |
| Utf8.JoinOfUnits | utils/src/selection_content_validator.cpp:460-481 | cutting a text into characters and stray bytes loses nothing |
| Utf8.UnitsOfJoin | utils/src/selection_content_validator.cpp:460-481 | characters put together are cut apart again as they were |
| Utf8.CutPoints | utils/src/selection_content_validator.cpp:447-458 | a prefix of a valid text is valid exactly when it is the whole or ends before a byte that is no continuation |
| ContentValidator.ContainsInvalidUtf8 | utils/src/selection_content_validator.cpp:576-588 | true exactly when the text is not made of characters only |
| ContentValidator.NextLen | utils/src/selection_content_validator.cpp:577-587 | how every scanner starts a turn: the length of the character at the position, or zero for a byte to skip |
| ContentValidator.Sanitize | utils/src/selection_content_validator.cpp:460-481 | the loop joins the kept characters |
| ContentValidator.SanitizeMeaning | utils/src/selection_content_validator.cpp:460-481 | the output is cut into exactly the kept characters, is valid and free of disallowed controls, is left alone by a second pass, and is the input just when that was clean |
| ContentValidator.CompressRepeats | utils/src/selection_content_validator.cpp:664-698 | the loop, comparing code points and lengths, drops each character that continues a streak past the limit |
| ContentValidator.SameAsLast | utils/src/selection_content_validator.cpp:682-690 | comparing code point and length is comparing characters |
| ContentValidator.RunsEncode | utils/src/selection_content_validator.cpp:664-698 | the reference: run-length encoding, whose expansion gives the characters back |
| ContentValidator.CompressOnValid | utils/src/selection_content_validator.cpp:664-698 | on a valid text every run is cut to maxRepeat and nothing else changes |
| ContentValidator.CompressBoundsRuns | utils/src/selection_content_validator.cpp:664-698 | on any text: no run of the output is longer than maxRepeat exactly when in every run the pieces between stray bytes, each cut to maxRepeat, add up to no more; exactly then a second pass changes nothing; the text itself is unchanged exactly when it is valid with no longer run |
| ContentValidator.CompressRuns | utils/src/selection_content_validator.cpp:664-698 | on any text: the runs of the output are those of the text without its stray bytes, each piece between stray bytes cut to maxRepeat by itself |
| ContentValidator.InvalidByteResets | utils/src/selection_content_validator.cpp:676-681 | a character n times with a stray byte after each comes out n times, for every n and maxRepeat |
| ContentValidator.SanitizeWithConfig | utils/src/selection_content_validator.cpp:501-548 | byte order mark, per-character action, then compression |
| ContentValidator.BomMeaning | utils/src/selection_content_validator.cpp:501-508 | a byte order mark in front goes if asked to, and nothing else |
| ContentValidator.ActionOnBytes | utils/src/selection_content_validator.cpp:483-499 | what happens to each character, on its bytes: the zero-width characters, the control characters, and the encodings of the four white space characters |
| ContentValidator.ConfiguredIsEmitted | utils/src/selection_content_validator.cpp:501-548 | the output is cut into exactly what is written for each unit, in order, runs cut to maxRepeat: a blank for white space that follows no other, nothing for what is dropped or stray, all else unchanged |
| ContentValidator.ConfiguredOutput | utils/src/selection_content_validator.cpp:501-548 | for every input: the output is valid, holds only what the configuration allows (no byte sequence of a zero-width character, no control character), and has no run longer than maxRepeat |
| ContentValidator.ConfiguredAsSanitize | utils/src/selection_content_validator.cpp:460-548 | with only control characters dropped it is Sanitize |
| ContentValidator.NormalizedSpacing | utils/src/selection_content_validator.cpp:501-548 | on any text: normalising leaves no two neighbouring white space characters exactly when no two blanks are written with nothing written in between, but for equal blanks that maxRepeat 1 merges |
| ContentValidator.ClashNeedsStrayByte | utils/src/selection_content_validator.cpp:515-519 | two blanks written one right after the other have a stray byte between them, and nothing but stray bytes, dropped characters and white space |
| ContentValidator.ValidIsSpaced | utils/src/selection_content_validator.cpp:501-548 | so a valid text is always left without neighbouring white space |
| ContentValidator.InvalidByteSplitsSpaces | utils/src/selection_content_validator.cpp:515-519 | a space, a stray byte and a line feed come out as a space and a line feed, for every maxRepeat |
| ContentTruncation.TruncateUtf8Safe | utils/src/selection_content_validator.cpp:447-458 | the loop goes back from the limit to a byte that is no continuation |
| ContentTruncation.TruncatedIsLongest | utils/src/selection_content_validator.cpp:447-458 | on a valid text the result is the longest valid prefix within the limit |
| ContentTruncation.TrimToLimit | utils/src/selection_event_bus.cpp:705-711 | the text itself within the limit, else its prefix to the boundary found |
| ContentTruncation.FindSafeUtf8Boundary | utils/src/selection_event_bus.cpp:718-736 | the byte found going back, or the limit if the character there ends before it; the length is narrowed to 32 bits first |
| ContentTruncation.Utf8CharExpectedLen | utils/src/selection_event_bus.cpp:772-787 | the validator's length, but one where that has none |
| ContentTruncation.TrimmersAgree | utils/src/selection_event_bus.cpp:705-736 | on a valid text it returns the same longest valid prefix, exactly unless its length narrowed to 32 bits is within the limit and elsewhere |
| ContentTruncation.TrimmersAgreeExactly | utils/src/selection_event_bus.cpp:718-736 | on any text the two agree exactly under a condition on the byte found and the narrowed length |
| ContentTruncation.CharOffsetToByteOffset | utils/src/selection_content_validator.cpp:765-781 | where the character starts, or the end |
| ContentTruncation.ByteOffsetToCharOffset | utils/src/selection_content_validator.cpp:746-763 | the first character starting at or after the byte |
| ContentTruncation.OffsetsAreAdjoint | utils/src/selection_content_validator.cpp:746-781 | a byte offset is at most where character j starts just when its character offset is at most j |
| ContentTruncation.CharOffsetRoundTrip | utils/src/selection_content_validator.cpp:746-781 | converting a character offset there and back gives it, up to the number of characters |
| Base64.Base64Encode | utils/src/selection_util.cpp:532-562 | the nested loops emit the encoding, padding counted |
| Base64.PackTriple | utils/src/selection_util.cpp:542-552 | three bytes into 24 bits, counting what is missing |
| Base64.EncodeBase64Triple | common/data_converter/src/selection_format_converter.cpp:189-211 | the same group of letters, packed by count instead of padding |
| Base64.EncodedLength | utils/src/selection_util.cpp:532-562 | four letters for every three bytes begun |
| Base64.GroupSpellsBytes | utils/src/selection_util.cpp:532-562 | the four characters of each group, as digits of base 64, are the 24 bits of its bytes, missing ones zero, and padding stands for exactly the missing ones |
| Base64.ToBase64 | common/data_converter/src/selection_format_converter.cpp:992-1004 | the other encoder emits the same encoding, for every input |
| Base64.LetterIndex | utils/src/selection_util.cpp:564-582 | the index found is that of the letter read |
| Base64.AlphabetOfTheStandard | utils/src/selection_util.cpp:532-582 | the letters are the table of section 4 of RFC 4648 |
| Base64.DecodeBase64Group | utils/src/selection_util.cpp:597-613 | the values and the padding of a group, or the failure |
| Base64.PadsAreCounted | utils/src/selection_util.cpp:597-613 | the padding of a group is counted wherever it stands |
| Base64.Base64Decode | utils/src/selection_util.cpp:615-642 | the bytes of all groups; nothing for a bad length or character |
| Base64.DecodeUndoesEncode | utils/src/selection_util.cpp:532-642 | decoding undoes encoding, for every byte string |
| Base64.FromBase64 | common/data_converter/src/selection_format_converter.cpp:1006-1029 | whole groups only, by the shifting decoder |
| Base64.DecodeBase64Quartet | common/data_converter/src/selection_format_converter.cpp:214-237 | appends the bytes of one group, shifting only for letters |
| Base64.FromUndoesToExactly | common/data_converter/src/selection_format_converter.cpp:214-237 | FromBase64 undoes ToBase64 exactly when the bytes after the last whole group of three are all zero |
| Base64.ReadsBack | common/data_converter/src/selection_format_converter.cpp:214-237 | what it makes of a trailing group instead |
| StringUtil.ReplaceAll | utils/src/selection_util.cpp:206-218 | editing in place gives the pieces between the occurrences joined by the replacement |
| StringUtil.CountOccurrences | utils/src/selection_util.cpp:220-232 | one less than the number of pieces |
| StringUtil.JoinOfCut | utils/src/selection_util.cpp:206-232 | the pieces joined by what was searched give the text back |
| StringUtil.CutIsLeftmost | utils/src/selection_util.cpp:206-232 | each piece ends at the first occurrence after it begins, and the last holds none: no occurrence is overlooked |
| StringUtil.ReplaceMeaning | utils/src/selection_util.cpp:206-232 | the length changes by each counted occurrence, and replacing a text by itself changes nothing |
| StringUtil.StringSplit | utils/src/selection_util.cpp:312-328 | the nonempty pieces between delimiters |
| StringUtil.JoinString | utils/src/selection_util.cpp:330-341 | the parts with the delimiter between |
| StringUtil.SplitUndoesJoinExactly | utils/src/selection_util.cpp:312-341 | splitting undoes joining exactly for nonempty parts without the delimiter |
| StringUtil.JoinUndoesSplitExactly | utils/src/selection_util.cpp:312-341 | joining undoes splitting exactly when no piece between delimiters is empty, or there is no text |
| UidText.RangeCheckIsExact | service/src/sys_selection_config_repository.cpp:119-131 | for a number not too long, the comparison with the texts of the limits is the numeric range check |
| UidText.StoiIsSafe | service/src/sys_selection_config_repository.cpp:105-135 | the conversion is reached only with the text of an int32, so it never throws |
| UidText.UidRoundTrip | service/src/sys_selection_config_repository.cpp:105-177 | GetUid undoes SetUid, for every int32 |
| UidText.AboveIsGreater | service/src/sys_selection_config_repository.cpp:124-131 | comparing digit texts of one length is comparing their numbers |
| ConfigSync.ParamsRoundTrip | service/src/sys_selection_config_repository.cpp:46-63 | reading the parameters just written gives the settings back |
| ConfigSync.SelectionService.SetSysParameters | service/src/sys_selection_config_repository.cpp:46-53 | the four texts of the settings |
| ConfigSync.SelectionService.SaveDatabaseConfig | service/plugins/src/database/database_plugin.cpp:53-106 | the row of that user, and only that |
| ConfigSync.SelectionService.CheckUserLoggedIn | service/src/selection_service.cpp:589-612 | remembers the foreground user; false when there is none |
| ConfigSync.ParseAppInfo | service/src/selection_common.cpp:51-65 | valid exactly with a nonempty name on both sides of the first slash |
| ConfigSync.AppInfoMeaning | service/src/selection_common.cpp:51-65 | valid exactly when the text is a nonempty bundle name without slash, a slash and a nonempty extension name |
| ConfigSync.CompareMeaning | service/src/selection_config_comparator.cpp:93-143 | the five branches come down to: default for a new user, the parameters if they carry the user's uid, else the row; stop exactly when that is disabled; start is never asked for |
| ConfigSync.SelectionService.InitComparator | service/src/selection_config_comparator.cpp:47-78 | the default is the row of no user, stored from the parameters the first time |
| ConfigSync.SelectionService.PersistSelectionConfig | service/src/selection_service.cpp:320-353 | memory goes to the row of the user in the foreground, if any |
| ConfigSync.SelectionService.WatchEnableSwitch | service/src/selection_service.cpp:272-283 | memory and the foreground user's row take the new switch, nothing else changes |
| ConfigSync.SelectionService.WatchTriggerMode | service/src/selection_service.cpp:285-296 | memory and the foreground user's row take the new trigger, nothing else changes |
| ConfigSync.SelectionService.WatchAppSwitch | service/src/selection_service.cpp:298-318 | likewise for the app, but an invalid app changes neither memory nor rows |
| ConfigSync.SelectionService.SynchronizeSelectionConfig | service/src/selection_service.cpp:614-739 | the new stores, and stop exactly when the agreed settings are disabled |
| ConfigSync.SelectionService.Handle | service/src/selection_service.cpp:272-380 | one event of a run takes the stores where the step function says |
| ConfigSync.SyncMeaning | service/src/selection_service.cpp:614-653 | memory, parameters and the user's row agree and carry the uid, other rows are untouched, a second synchronisation changes nothing; the parameters are rewritten unless they carry the user's uid already, and the switch is off when the agreed settings are |
| ConfigSync.RunShowsProfiles | service/src/selection_service.cpp:272-380 | over every run of foreground changes, synchronisations and parameter changes, nobody logged in included, the stores show a reference of one live draft and one profile per user |
| ConfigSync.OrderlyRunKeepsOwn | service/src/selection_service.cpp:272-380 | if settings are only changed while the user in the foreground is the one last synchronised, each user's row is made of that user's own changes and nobody else's |
| ConfigSync.ReturningUserKeepsRow | service/src/selection_service.cpp:614-653 | whatever happened, a user who was not in the foreground finds the row last saved exactly when the live settings were another user's, or someone else was synchronised since, or the parameters as last set still read the same |
| ConfigSync.LoggedOutEditSticks | service/src/selection_service.cpp:614-653 | it is lost when a setting is changed with nobody logged in between logout and login of the same user |
| ConfigSync.SyncStarts | service/src/selection_service.cpp:374-380 | synchronising a logged-in user starts such a run, from any stores |
| ConfigSync.RowIsLeftAlone | service/plugins/src/database/database_plugin.cpp:53-106 | while others are at work a user's row does not change |
| ConfigSync.SwitchBackRestores | service/src/selection_service.cpp:614-653 | once another user owns the live settings, whatever happens, switching back restores the row in all three stores |
| ConfigSync.EchoIsHarmless | service/src/selection_service.cpp:689-693 | a callback triggered by the service's own write changes nothing exactly when the foreground user's row, if there is one to write, holds what memory does |
| ConfigSync.CallbackBeforeSync | service/src/selection_service.cpp:320-353 | an edit between the change of user and its synchronisation saves the previous user's settings as the newcomer's; the row gets the edit alone exactly when the two agree on everything else |
| ConfigSync.LoggedOutSavesNothing | service/src/selection_service.cpp:320-326 | as long as nobody is logged in no row changes |
| ConfigSync.DefaultIsFrozen | service/src/selection_config_comparator.cpp:47-73 | the row that holds the default never changes once it is there |

## Left out

- Bindings (NAPI, ANI, taihe), panels, extension contexts, plugin loading, ability connections, timers, pasteboard, window and focus managers: calls into platform code that is not here.
- The relational store and the parameter service: replaced by a map from uid to row and a record of four texts; their failures, failed queries of the account service, and the unloading of the service after a stop, are not modelled.
- Threads and locks: each guarded method is one atomic step, and a parameter's callback runs with its change; the clock is read once per gesture event.
- Gesture: window information and the bundle name of a report, and the overflow of `abs` on coordinate differences beyond int32; the gesture runs ask that the left button goes down only when up and is released or dragged only when down, except where a lemma says any run.
- MergeRects.MergeOverlappingIgnoresOrder: a sufficient condition; some lists without a separated family keep their result in every order as well.
- UnionArea.UnionArea: the total is a mathematical integer; the code adds in int64.
- EditDistance.ComputeEditDistance: table entries are unbounded; the code's are uint32, which differs only for strings of 4 GiB.
- EditDistance.ComputeSimilarity: a real number for a double.
- ContentValidator.CompressRepeats: the repeat counter does not wrap at 2^32.
- Csv: the header with CsvOptions is not part of this model, and the laws on all fields are for a comma and a double quote, which is what EscapeCSV escapes; bytes above ASCII are no white space.
- Json.PrettyPrint: the nesting level is unbounded; the code's is int32.
- RateLimiter.SlidingWindowBound: runs without reset, warm-up or eviction in between, with a fixed configuration per key and a clock that does not go back.
- RateLimiter.TokenBucketBound: likewise, and with reals for doubles.
- RateLimiter.FixedWindowBound: likewise.
- XML utilities, regular expressions and stub conversions; UnescapeXML decodes `&amp;` first and so does not undo EscapeXML on texts holding `&apos;` or `&quot;`.
- Floating-point geometry, statistics, hashes, retry delays, the event bus, registries, and single-formula members such as mirrors, offsets and getters: they would add only easy members.
