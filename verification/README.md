# android-pdfview tile bookkeeping, modelled in Dafny

This project models the bookkeeping core of android-pdfview, a PDF view for
Android. The view cuts each page into 256-pixel parts and keeps the rendered
parts in a bounded two-generation cache. It asks a background worker to render
the missing parts in a spiral around the centre of the screen, under a budget
shared by the current page and its two neighbours. Decoded document pages are
held in a pool bounded at 16. Two small models announce zoom and page changes.

All of it is integer and record logic once the float page geometry is taken
as input. The Dafny modules follow the Java classes:

- `CacheManager` and `PageParts`: the passive and active pools ordered by
  `cacheOrder`, the thumbnail list, eviction, promotion, `PagePart.equals`.
- `SpiralGeometry`, `GridCount` and `SpiralLoopManager`: the spiral walk of
  `startLoop`, with its coverage, no-revisit and termination proofs.
- `PdfView`: `getPageCount`, `determineValidPageNumberFrom`, the guards and
  start-cell clamp of `loadPage`, its spiral listener, the `loadPages` sweep
  and `onBitmapRendered`.
- `RenderingAsyncTask`: the render queue as a sequential state machine with a
  pending list, one task in flight, and the publish-only-if-still-queued rule.
- `DecodeServiceBase`: the soft-reference page pool with its FIFO eviction
  queue, the decode-key registry, and one run of a decode job.
- `NumberUtils`, `PageRuns`, `ArrayText`, `ArrayUtils` and `LegacyArrayUtils`:
  `limit` and both copies of the three `ArrayUtils` functions.
- `ZoomModel` and `CurrentPageModel`: change detection with an appended trace
  of dispatched events.
- `Constants` and `Wrappers`: the fixed sizes, and `Option`/`Result` standing
  for Java's `null` and thrown exceptions.

Where the class documentation and the code disagree on these points, the
model follows the code:

- `cachePart` does not look for an equal part before adding one.
- The cache order restarts at 0 on every page.
- A failed decode is only logged; no callback hears of it.
- `LOADED_SIZE / 2` is 1, so `loadPages` visits three pages at most.

Where the code is evidently wrong (see "## Findings"), the member named after
the Java method models the code as written, and a corrected member sits next
to it: `WithUserPages` and `WithUserPagesCorrected` for `load`, `LoadPage`
and `LoadPageCorrected` for `loadPage`, `Recycle` next to `RecycleAsWritten`,
`FinishDecoding` and `PerformDecode` next to their as-written versions. Rows
of corrected members start with "Corrected:".

## Model

| member | source | states |
|---|---|---|
| NumberUtils.Limit | android-pdfview/src/main/java/com/joanzapata/pdfview/util/NumberUtils.java:34-42 | Numbers at or below `between` give `between`; otherwise numbers at or above `and` give `and`; otherwise the number itself. With ordered bounds the result lies in [between, and], both ends included. |
| NumberUtils.LimitIsClamp | android-pdfview/src/main/java/com/joanzapata/pdfview/util/NumberUtils.java:34-42 | With between <= and, `limit` is the clamp to the nearest value of [between, and]. |
| NumberUtils.LimitIdempotent | android-pdfview/src/main/java/com/joanzapata/pdfview/util/NumberUtils.java:34-42 | Limiting an already limited number changes nothing. |
| NumberUtils.LimitMonotone | android-pdfview/src/main/java/com/joanzapata/pdfview/util/NumberUtils.java:34-42 | With ordered bounds, `limit` keeps the order of two numbers. |
| NumberUtils.LimitCrossedBounds | android-pdfview/src/main/java/com/joanzapata/pdfview/util/NumberUtils.java:35-41 | With between > and, the result is `between` or `and`, never the number. |
| PageParts.NewPagePart | android-pdfview/src/main/java/com/joanzapata/pdfview/PagePart.java:22-62 | The getters return the constructor's userPage, page, bitmap, bounds, thumbnail flag and cache order. Width and height read 0, because the constructor never assigns them. |
| PageParts.SizeNeverDistinguishes | android-pdfview/src/main/java/com/joanzapata/pdfview/PagePart.java:22-30 | Two parts built from the same arguments but different sizes are the same part. |
| PageParts.Equals | android-pdfview/src/main/java/com/joanzapata/pdfview/PagePart.java:68-83 | Another kind of object is never equal. A part is equal exactly when page, user page, width, height and the four bounds agree. |
| PageParts.EqualsIgnoresPayload | android-pdfview/src/main/java/com/joanzapata/pdfview/PagePart.java:74-82 | Equality ignores bitmap, thumbnail flag and cache order: it holds exactly when page, user page and bounds agree. |
| PageParts.EqualsIsEquivalence | android-pdfview/src/main/java/com/joanzapata/pdfview/PagePart.java:74-82 | `equals` is reflexive, symmetric and transitive on parts. |
| PageParts.SetCacheOrder | android-pdfview/src/main/java/com/joanzapata/pdfview/PagePart.java:64-66 | Only the cache order changes, and the part stays equal to what it was. |
| CacheManager.Compare | android-pdfview/src/main/java/com/joanzapata/pdfview/CacheManager.java:145-150 | The comparator answers 0, 1 or -1 exactly as the first order is equal to, above or below the second. |
| CacheManager.CompareIsTotalPreorder | android-pdfview/src/main/java/com/joanzapata/pdfview/CacheManager.java:143-151 | The comparator is antisymmetric in sign, transitive and total. |
| CacheManager.MinIndex | android-pdfview/src/main/java/com/joanzapata/pdfview/CacheManager.java:63 | `poll` takes a part of least cache order, the first such in pool order. |
| CacheManager.RemoveAt | android-pdfview/src/main/java/com/joanzapata/pdfview/CacheManager.java:63 | Removing one position loses exactly that element. |
| CacheManager.Poll | android-pdfview/src/main/java/com/joanzapata/pdfview/CacheManager.java:63 | `poll` returns a part ranked at most every remaining part; the pool keeps all the others. |
| CacheManager.Drain | android-pdfview/src/main/java/com/joanzapata/pdfview/CacheManager.java:61-69 | One eviction loop: it keeps or evicts every part. It stops once the total is below CACHE_SIZE or the pool is empty. |
| CacheManager.ConsNonDecreasing | android-pdfview/src/main/java/com/joanzapata/pdfview/CacheManager.java:61-69 | A part ranked at most every element of a rank-ordered list can go in front of it. |
| CacheManager.DrainEvictsInOrder | android-pdfview/src/main/java/com/joanzapata/pdfview/CacheManager.java:61-69 | The loop evicts in non-decreasing cache order. |
| CacheManager.DrainEvictsLeast | android-pdfview/src/main/java/com/joanzapata/pdfview/CacheManager.java:61-69 | No evicted part is ranked above a kept one. |
| CacheManager.MakeAFreeSpace | android-pdfview/src/main/java/com/joanzapata/pdfview/CacheManager.java:59-70 | Afterwards passive + active < CACHE_SIZE; every part is kept or evicted. Active parts go only once passive is empty. A cache already below the limit is untouched. Thumbnails never change. |
| CacheManager.MakeAFreeSpaceEvictsLeast | android-pdfview/src/main/java/com/joanzapata/pdfview/CacheManager.java:59-70 | Each pool loses its least-ranked parts, in rank order. |
| CacheManager.CachePart | android-pdfview/src/main/java/com/joanzapata/pdfview/CacheManager.java:44-52 | After `cachePart`, passive + active <= CACHE_SIZE and the part is active. The parts are those before plus the new one, minus the evicted ones. The capacity invariant is kept. |
| CacheManager.CachePartKeepsDuplicates | android-pdfview/src/main/java/com/joanzapata/pdfview/CacheManager.java:44-52 | Caching the same part twice keeps two copies: there is no deduplication. |
| CacheManager.MakeANewSet | android-pdfview/src/main/java/com/joanzapata/pdfview/CacheManager.java:54-57 | Active becomes empty; passive is old passive plus old active as a multiset; the total count is unchanged. |
| CacheManager.CacheThumbnail | android-pdfview/src/main/java/com/joanzapata/pdfview/CacheManager.java:72-82 | The oldest thumbnail goes exactly when the list already holds 4. The new one is appended. The list stays within THUMBNAILS_CACHE_SIZE and keeps insertion order. |
| CacheManager.Find | android-pdfview/src/main/java/com/joanzapata/pdfview/CacheManager.java:109-116 | Returns the first position whose part equals the probe, or none when no part does. |
| CacheManager.UpPartIfContained | android-pdfview/src/main/java/com/joanzapata/pdfview/CacheManager.java:84-96 | The answer is true exactly when some pool holds an equal part. A passive hit moves to the end of active with cache order `toOrder`; otherwise nothing changes. The total count never changes. |
| CacheManager.MoveKeepsParts | android-pdfview/src/main/java/com/joanzapata/pdfview/CacheManager.java:88-91 | Moving a passive part to active keeps every rectangle the pools held. |
| CacheManager.MoveAddsNoParts | android-pdfview/src/main/java/com/joanzapata/pdfview/CacheManager.java:88-91 | Moving a passive part to active adds no rectangle. |
| CacheManager.UpPartKeepsContents | android-pdfview/src/main/java/com/joanzapata/pdfview/CacheManager.java:84-96 | Promotion never changes which rectangles the pools hold. |
| CacheManager.ContainsThumbnail | android-pdfview/src/main/java/com/joanzapata/pdfview/CacheManager.java:99-107 | True exactly when some thumbnail shows that rectangle of that page; nothing is modified. |
| CacheManager.GetPageParts | android-pdfview/src/main/java/com/joanzapata/pdfview/CacheManager.java:118-122 | Every passive part, then every active part; the multiset is passive plus active. |
| CacheManager.RecycleAsWritten | android-pdfview/src/main/java/com/joanzapata/pdfview/CacheManager.java:128-141 | As written, all three collections end empty. The released parts are active twice plus the thumbnails, never the passive ones. |
| CacheManager.RecycleAsWrittenMissesPassive | android-pdfview/src/main/java/com/joanzapata/pdfview/CacheManager.java:128-137 | With one passive and one active part, the passive bitmap is never released and the active one is released twice. |
| CacheManager.Recycle | android-pdfview/src/main/java/com/joanzapata/pdfview/CacheManager.java:128-141 | Corrected: all collections end empty and every cached part is released exactly once. |
| SpiralGeometry.StepMoves | android-pdfview/src/main/java/com/joanzapata/pdfview/SpiralLoopManager.java:84-102 | Each move of round k changes the row by the variation for the first k moves, then the column. |
| SpiralGeometry.RoundsChain | android-pdfview/src/main/java/com/joanzapata/pdfview/SpiralLoopManager.java:104-108 | A round ends where the next begins: progress grows by one and the variation flips. |
| SpiralGeometry.KeyOfStep | android-pdfview/src/main/java/com/joanzapata/pdfview/SpiralLoopManager.java:75-108 | Every step of the walk lands on a distinct offset: the key of the offset a step reaches is that step. |
| SpiralGeometry.StepOfKey | android-pdfview/src/main/java/com/joanzapata/pdfview/SpiralLoopManager.java:75-108 | Every offset other than the start is reached by exactly one step. |
| SpiralGeometry.KeyOfShape | android-pdfview/src/main/java/com/joanzapata/pdfview/SpiralLoopManager.java:75-108 | Only the start offset has the start key; every other offset has the key of a real step. |
| SpiralGeometry.KeyRoundBound | android-pdfview/src/main/java/com/joanzapata/pdfview/SpiralLoopManager.java:75-108 | An offset at Manhattan distance d is reached by round 2d + 1. |
| GridCount.CountRow | android-pdfview/src/main/java/com/joanzapata/pdfview/SpiralLoopManager.java:112-114 | The number of cells of one row satisfying a predicate is at most the row's width. |
| GridCount.Count | android-pdfview/src/main/java/com/joanzapata/pdfview/SpiralLoopManager.java:112-114 | The number of grid cells satisfying a predicate is at most rows x cols. |
| GridCount.CountRowSame | android-pdfview/src/main/java/com/joanzapata/pdfview/SpiralLoopManager.java:112-114 | Predicates that agree on a row count the same. |
| GridCount.CountSame | android-pdfview/src/main/java/com/joanzapata/pdfview/SpiralLoopManager.java:112-114 | Predicates that agree on the grid count the same. |
| GridCount.CountRowAddOne | android-pdfview/src/main/java/com/joanzapata/pdfview/SpiralLoopManager.java:87-88 | Adding one new cell to a predicate adds one to a row's count iff the cell lies in that row. |
| GridCount.CountAddOne | android-pdfview/src/main/java/com/joanzapata/pdfview/SpiralLoopManager.java:87-88 | Adding one new cell to a predicate adds one to the count iff the cell is valid. This is how `nbMarkedCells` grows. |
| GridCount.CountRowNone | android-pdfview/src/main/java/com/joanzapata/pdfview/SpiralLoopManager.java:72 | A predicate true nowhere counts 0 cells in a row. |
| GridCount.CountNone | android-pdfview/src/main/java/com/joanzapata/pdfview/SpiralLoopManager.java:72 | A predicate true nowhere counts 0 cells. |
| GridCount.CountRowAll | android-pdfview/src/main/java/com/joanzapata/pdfview/SpiralLoopManager.java:71 | A predicate true on a whole row counts its width. |
| GridCount.CountAll | android-pdfview/src/main/java/com/joanzapata/pdfview/SpiralLoopManager.java:71 | A predicate true on the whole grid counts nbRows x nbCols. |
| GridCount.CountRowMissing | android-pdfview/src/main/java/com/joanzapata/pdfview/SpiralLoopManager.java:82 | One cell of a row failing the predicate keeps the row's count below its width. |
| GridCount.CountMissing | android-pdfview/src/main/java/com/joanzapata/pdfview/SpiralLoopManager.java:82 | One grid cell failing the predicate keeps the count below the total, so the loop goes on. |
| SpiralLoopManager.PositiveGrid | android-pdfview/src/main/java/com/joanzapata/pdfview/SpiralLoopManager.java:71 | A terminating walk with a positive total has positive sides. |
| SpiralLoopManager.KeyDeterminesCell | android-pdfview/src/main/java/com/joanzapata/pdfview/SpiralLoopManager.java:84-102 | A cell reached by a real step sits at that step's offset from the start. |
| SpiralLoopManager.NextCell | android-pdfview/src/main/java/com/joanzapata/pdfview/SpiralLoopManager.java:84-102 | The move of step s of round p lands on the one cell whose key is (p, s), and the position invariant carries over. |
| SpiralLoopManager.RoundEndPos | android-pdfview/src/main/java/com/joanzapata/pdfview/SpiralLoopManager.java:104-108 | At the end of a round the position matches the start of the next round, with the variation flipped. |
| SpiralLoopManager.InitialInv | android-pdfview/src/main/java/com/joanzapata/pdfview/SpiralLoopManager.java:71-80 | Before the loop exactly one call is counted as marked: the start, valid or not. |
| SpiralLoopManager.StepInv | android-pdfview/src/main/java/com/joanzapata/pdfview/SpiralLoopManager.java:86-98 | One move keeps the invariant: `nbMarkedCells` is 1 plus the valid cells reached since the start, and grows iff the new cell is valid. |
| SpiralLoopManager.RoundEndInv | android-pdfview/src/main/java/com/joanzapata/pdfview/SpiralLoopManager.java:104-108 | The marking invariant carries over from one round to the next. |
| SpiralLoopManager.BoundNeverCuts | android-pdfview/src/main/java/com/joanzapata/pdfview/SpiralLoopManager.java:82 | Past a fixed round, every grid cell has been marked, so the `while` condition fails and the loop ends. |
| SpiralLoopManager.AllReachedBefore | android-pdfview/src/main/java/com/joanzapata/pdfview/SpiralLoopManager.java:82-109 | Past that round, every grid cell has been reached. |
| SpiralLoopManager.Prepend | android-pdfview/src/main/java/com/joanzapata/pdfview/SpiralLoopManager.java:84-102 | A valid cell reached before the rest of an ordered emission can precede it. |
| SpiralLoopManager.RoundsOrdered | android-pdfview/src/main/java/com/joanzapata/pdfview/SpiralLoopManager.java:82-109 | From any reachable state the loop calls back only valid cells, in strictly increasing step order. |
| SpiralLoopManager.OrderedRoundEnd | android-pdfview/src/main/java/com/joanzapata/pdfview/SpiralLoopManager.java:104-109 | Ordered emission carries across the end of a round. |
| SpiralLoopManager.OrderedStep | android-pdfview/src/main/java/com/joanzapata/pdfview/SpiralLoopManager.java:84-102 | Ordered emission carries across one move. |
| SpiralLoopManager.OrderedAcrossRounds | android-pdfview/src/main/java/com/joanzapata/pdfview/SpiralLoopManager.java:104-108 | A round's end emits nothing before the next round's emission. |
| SpiralLoopManager.OrderedOneStep | android-pdfview/src/main/java/com/joanzapata/pdfview/SpiralLoopManager.java:86-91 | A valid cell at the current step, ahead of the ordered rest, keeps the emission ordered. |
| SpiralLoopManager.StopCovers | android-pdfview/src/main/java/com/joanzapata/pdfview/SpiralLoopManager.java:82 | When the loop stops from a valid start, every valid cell has been reached and exactly all are marked. |
| SpiralLoopManager.RoundsCover | android-pdfview/src/main/java/com/joanzapata/pdfview/SpiralLoopManager.java:82-109 | From a valid start, the loop calls back every valid cell not yet reached. |
| SpiralLoopManager.CoverRoundEnd | android-pdfview/src/main/java/com/joanzapata/pdfview/SpiralLoopManager.java:104-109 | Coverage carries across the end of a round. |
| SpiralLoopManager.CoverStep | android-pdfview/src/main/java/com/joanzapata/pdfview/SpiralLoopManager.java:84-102 | Coverage carries across one move. |
| SpiralLoopManager.CoverAcrossRounds | android-pdfview/src/main/java/com/joanzapata/pdfview/SpiralLoopManager.java:104-108 | No cell is reached between the end of a round and the start of the next. |
| SpiralLoopManager.CoverOneStep | android-pdfview/src/main/java/com/joanzapata/pdfview/SpiralLoopManager.java:86-91 | Covering from the next step, plus the current cell when valid, covers from the current step. |
| SpiralLoopManager.WalkShape | android-pdfview/src/main/java/com/joanzapata/pdfview/SpiralLoopManager.java:69-110 | The first callback is the start cell, valid or not. Every later callback is a valid cell. No cell is called back twice. |
| SpiralLoopManager.WalkCoversGrid | android-pdfview/src/main/java/com/joanzapata/pdfview/SpiralLoopManager.java:69-110 | From a valid start the loop terminates, calls back every grid cell, and makes exactly nbRows x nbCols calls. |
| SpiralLoopManager.RoundsReachTotal | android-pdfview/src/main/java/com/joanzapata/pdfview/SpiralLoopManager.java:82-110 | From any state the loop reaches, the cells still called back bring nbMarkedCells to at least the grid's cell count. |
| SpiralLoopManager.WalkLengthAtLeastGrid | android-pdfview/src/main/java/com/joanzapata/pdfview/SpiralLoopManager.java:69-110 | From any start, inside the grid or not, the loop makes at least nbRows x nbCols calls. |
| SpiralLoopManager.WalkOfDocumentedGrid | android-pdfview/src/main/java/com/joanzapata/pdfview/SpiralLoopManager.java:21-35 | A 3 x 3 grid from (1, 1) is walked in the order drawn in the class documentation. |
| SpiralLoopManager.WalkFromOutsideMissesCells | android-pdfview/src/main/java/com/joanzapata/pdfview/SpiralLoopManager.java:78-82 | From an off-grid start the first call counts as marked, so a valid cell can be missed. From (0, 1) on a 1 x 1 grid, cell (0, 0) is never visited. |
| SpiralLoopManager.NewManager | android-pdfview/src/main/java/com/joanzapata/pdfview/SpiralLoopManager.java:62-67 | The constructor fails exactly when the listener is missing, and otherwise wraps it. |
| SpiralLoopManager.FeedAllAppend | android-pdfview/src/main/java/com/joanzapata/pdfview/SpiralLoopManager.java:79-100 | Feeding one more cell applies the listener once more to the state reached. |
| SpiralLoopManager.UntilStopSpec | android-pdfview/src/main/java/com/joanzapata/pdfview/SpiralLoopManager.java:89-100 | The listener is called on a prefix of the cells. It answered true on every call but the last. The loop stops before the end only after a false. |
| SpiralLoopManager.StartLoopSpec | android-pdfview/src/main/java/com/joanzapata/pdfview/SpiralLoopManager.java:69-110 | `startLoop` calls back a prefix of the walk, at least the start. The start's answer is ignored, and every later call but the last answered true. An early return follows a false from a second or later call. |
| PageRuns.RunIndexesAsWritten | android-pdfview/src/main/java/com/joanzapata/pdfview/util/ArrayUtils.java:48-64 | As both copies compute it: same length as the input, a[0] at position 0, and for i >= 1 the number of value changes up to i. |
| PageRuns.RunIndexes | android-pdfview/src/main/java/com/joanzapata/pdfview/util/ArrayUtils.java:47-64 | As documented: every position, the first included, holds the number of value changes up to it. |
| PageRuns.CollapsePrefix | android-pdfview/src/main/java/com/joanzapata/pdfview/util/ArrayUtils.java:34-39 | Each element is kept iff it differs from the previous one, -1 before the first. |
| PageRuns.CollapseLast | android-pdfview/src/main/java/com/joanzapata/pdfview/util/ArrayUtils.java:33-39 | The collapsed list ends with the input's last value, or is empty when the input is all -1. |
| PageRuns.CollapseHasNoEqualNeighbours | android-pdfview/src/main/java/com/joanzapata/pdfview/util/ArrayUtils.java:33-39 | The collapsed list has no two equal neighbours. |
| PageRuns.CollapseIsSubsequence | android-pdfview/src/main/java/com/joanzapata/pdfview/util/ArrayUtils.java:31-45 | The collapsed list is no longer than the input and holds only input values. |
| PageRuns.LeadingMinusOneDropped | android-pdfview/src/main/java/com/joanzapata/pdfview/util/ArrayUtils.java:33-35 | A leading -1 never shows in the collapsed list. |
| PageRuns.CollapseCountsChanges | android-pdfview/src/main/java/com/joanzapata/pdfview/util/ArrayUtils.java:31-64 | Up to position i, the collapsed list has one element per value change plus one, and ends with a[i]. |
| PageRuns.CollapsePrefixIsPrefix | android-pdfview/src/main/java/com/joanzapata/pdfview/util/ArrayUtils.java:34-39 | Collapsing a prefix gives a prefix of the collapsed list. |
| PageRuns.RunIndexesLocateRuns | android-pdfview/src/main/java/com/joanzapata/pdfview/util/ArrayUtils.java:31-64 | For a first value other than -1, every position's run index locates its value in the collapsed list. |
| PageRuns.RunIndexesStepByOne | android-pdfview/src/main/java/com/joanzapata/pdfview/util/ArrayUtils.java:54-61 | From position 1 on, both index lists grow by 0 or 1. They stay put exactly when the value repeats. |
| PageRuns.RunIndexesAsWrittenMisplacesFirst | android-pdfview/src/main/java/com/joanzapata/pdfview/util/ArrayUtils.java:55 | (5, 5, 6) gives (5, 0, 1) as written but (0, 0, 1) as documented. The documented example (0, 4, 4, 6, 6, 6, 3) holds only because it starts with 0. |
| PageRuns.CollapseExamplePrefix | android-pdfview/src/main/java/com/joanzapata/pdfview/util/ArrayUtils.java:30-45 | (0, 1, 2) collapses to itself. |
| PageRuns.CollapseExamples | android-pdfview/src/main/java/com/joanzapata/pdfview/util/ArrayUtils.java:30-45 | (0, 1, 2, 2, 3) collapses to (0, 1, 2, 3), as documented. |
| PageRuns.CollapseDocumentedPrefix | android-pdfview/src/main/java/com/joanzapata/pdfview/util/ArrayUtils.java:31-45 | (0, 2, 2, 8) collapses to (0, 2, 8). |
| PageRuns.CollapseDocumentedExample | android-pdfview/src/main/java/com/joanzapata/pdfview/util/ArrayUtils.java:31-45 | (0, 2, 2, 8, 8, 1, 1, 1) collapses to (0, 2, 8, 1). |
| ArrayText.DigitChar | android-pdfview/src/main/java/com/joanzapata/pdfview/util/ArrayUtils.java:69 | A digit below 10 becomes a character '0' to '9'. |
| ArrayText.NatToString | android-pdfview/src/main/java/com/joanzapata/pdfview/util/ArrayUtils.java:69 | The decimal text of a natural is digits only, with no leading zero. |
| ArrayText.IntToString | android-pdfview/src/main/java/com/joanzapata/pdfview/util/ArrayUtils.java:69 | The text of an int is non-empty and has no comma. It starts with '-' iff the int is negative. |
| ArrayText.NatToStringRoundTrip | android-pdfview/src/main/java/com/joanzapata/pdfview/util/ArrayUtils.java:69 | Reading the digits back gives the natural. |
| ArrayText.NegativeRoundTrip | android-pdfview/src/main/java/com/joanzapata/pdfview/util/ArrayUtils.java:69 | A minus sign before the digits of n reads back as -n. |
| ArrayText.NonNegativeRoundTrip | android-pdfview/src/main/java/com/joanzapata/pdfview/util/ArrayUtils.java:69 | The digits of n alone read back as n. |
| ArrayText.IntToStringRoundTrip | android-pdfview/src/main/java/com/joanzapata/pdfview/util/ArrayUtils.java:69 | Reading back the text of any int gives the int. |
| ArrayText.Split | android-pdfview/src/main/java/com/joanzapata/pdfview/util/ArrayUtils.java:70-72 | Splitting at commas always gives at least one piece. |
| ArrayText.SplitPrefix | android-pdfview/src/main/java/com/joanzapata/pdfview/util/ArrayUtils.java:70-72 | A comma-free prefix joins the first piece. |
| ArrayText.SplitJoin | android-pdfview/src/main/java/com/joanzapata/pdfview/util/ArrayUtils.java:68-73 | Splitting undoes joining comma-free pieces. |
| ArrayText.Texts | android-pdfview/src/main/java/com/joanzapata/pdfview/util/ArrayUtils.java:69 | The text of each element, in order. |
| ArrayText.ArrayString | android-pdfview/src/main/java/com/joanzapata/pdfview/util/ArrayUtils.java:66-76 | The text of an array starts with '[' and ends with ']'. |
| ArrayText.ParseTexts | android-pdfview/src/main/java/com/joanzapata/pdfview/util/ArrayUtils.java:69 | The element texts read back as the array. |
| ArrayText.ArrayStringRoundTrip | android-pdfview/src/main/java/com/joanzapata/pdfview/util/ArrayUtils.java:66-76 | The text of an array reads back as the array, so different arrays have different texts. |
| ArrayText.JoinAppend | android-pdfview/src/main/java/com/joanzapata/pdfview/util/ArrayUtils.java:68-73 | Appending a piece adds a comma and the piece. |
| ArrayText.TextsSnoc | android-pdfview/src/main/java/com/joanzapata/pdfview/util/ArrayUtils.java:68-69 | One more element adds one more text. |
| ArrayText.TextPrefixStep | android-pdfview/src/main/java/com/joanzapata/pdfview/util/ArrayUtils.java:68-73 | Writing element i adds its text, plus a comma unless it is the last. |
| ArrayText.TextPrefixDone | android-pdfview/src/main/java/com/joanzapata/pdfview/util/ArrayUtils.java:74-75 | The whole prefix and a closing bracket is the array's text. |
| ArrayText.EmptyArrayString | android-pdfview/src/main/java/com/joanzapata/pdfview/util/ArrayUtils.java:66-76 | An empty array is "[]". |
| ArrayText.TextsExample | android-pdfview/src/main/java/com/joanzapata/pdfview/util/ArrayUtils.java:69 | The texts of (0, -12, 7) are "0", "-12", "7". |
| ArrayText.ArrayStringExample | android-pdfview/src/main/java/com/joanzapata/pdfview/util/ArrayUtils.java:66-76 | (0, -12, 7) is "[0,-12,7]". |
| ArrayUtils.DeleteDuplicatedPages | android-pdfview/src/main/java/com/joanzapata/pdfview/util/ArrayUtils.java:31-45 | The loop keeps one value per run of equal neighbours. The result has no equal neighbours and is no longer than the input. |
| ArrayUtils.CalculateIndexesInDuplicateArray | android-pdfview/src/main/java/com/joanzapata/pdfview/util/ArrayUtils.java:48-64 | The loop computes the as-written index list: length kept, empty for empty, a[0] first, then the change count. |
| ArrayUtils.ArrayToString | android-pdfview/src/main/java/com/joanzapata/pdfview/util/ArrayUtils.java:66-76 | The loop builds "[" + the elements joined by "," + "]". |
| LegacyArrayUtils.DeleteFrom | src/main/java/fr/jzap/pdfview/util/ArrayUtils.java:12-17 | The loop from any position, started with the values kept so far, ends with the collapsed list. |
| LegacyArrayUtils.DeleteDuplicatedPages | src/main/java/fr/jzap/pdfview/util/ArrayUtils.java:9-23 | The older copy collapses runs of equal neighbours in the same way. |
| LegacyArrayUtils.IndexesFrom | src/main/java/fr/jzap/pdfview/util/ArrayUtils.java:34-39 | The index loop from any position ends with the as-written index list. |
| LegacyArrayUtils.CalculateIndexesInDuplicateArray | src/main/java/fr/jzap/pdfview/util/ArrayUtils.java:26-42 | The older copy has the same as-written index list, a[0] at position 0 included. |
| LegacyArrayUtils.TextFrom | src/main/java/fr/jzap/pdfview/util/ArrayUtils.java:46-52 | The text loop from any position ends with the array's text. |
| LegacyArrayUtils.ArrayToString | src/main/java/fr/jzap/pdfview/util/ArrayUtils.java:44-54 | The older copy writes the same bracketed, comma-separated text. |
| RenderingAsyncTask.Requests | android-pdfview/src/main/java/com/joanzapata/pdfview/RenderingAsyncTask.java:125-149 | The fields of each task, in list order. |
| RenderingAsyncTask.AddRenderingTask | android-pdfview/src/main/java/com/joanzapata/pdfview/RenderingAsyncTask.java:46-50 | Exactly one task with the given fields joins the end of the list, with a fresh identity. The wake-up lets a waiting worker go on, or return if cancelled. |
| RenderingAsyncTask.RequestsAppend | android-pdfview/src/main/java/com/joanzapata/pdfview/RenderingAsyncTask.java:48 | Appending a task appends its fields. |
| RenderingAsyncTask.AppendFreshKeepsValid | android-pdfview/src/main/java/com/joanzapata/pdfview/RenderingAsyncTask.java:46-50 | A task with an unused identity keeps identities distinct and fresh. |
| RenderingAsyncTask.RemoveAllTasks | android-pdfview/src/main/java/com/joanzapata/pdfview/RenderingAsyncTask.java:115-117 | The list is emptied; a task in flight stays in flight. |
| RenderingAsyncTask.Cancel | android-pdfview/src/main/java/com/joanzapata/pdfview/RenderingAsyncTask.java:57-80 | Cancelling sets the flag. A waiting worker is interrupted and returns; a draining one goes on. |
| RenderingAsyncTask.Take | android-pdfview/src/main/java/com/joanzapata/pdfview/RenderingAsyncTask.java:57-80 | The worker takes the head of the list, so tasks are processed first in, first out. With an empty list it waits. |
| RenderingAsyncTask.Proceed | android-pdfview/src/main/java/com/joanzapata/pdfview/RenderingAsyncTask.java:98-113 | The rendered part copies user page, page, bounds, thumbnail flag and cache order from its task, and holds the new bitmap. |
| RenderingAsyncTask.IndexOf | android-pdfview/src/main/java/com/joanzapata/pdfview/RenderingAsyncTask.java:65 | The position of the first task with that identity, or the length when there is none. |
| RenderingAsyncTask.RemoveTask | android-pdfview/src/main/java/com/joanzapata/pdfview/RenderingAsyncTask.java:65 | Removal by identity drops one task when one matches and changes nothing otherwise. |
| RenderingAsyncTask.RemoveTaskSpec | android-pdfview/src/main/java/com/joanzapata/pdfview/RenderingAsyncTask.java:65 | Removal keeps every other task and, with distinct identities, leaves none with that identity. |
| RenderingAsyncTask.Finish | android-pdfview/src/main/java/com/joanzapata/pdfview/RenderingAsyncTask.java:63-69 | The finished part is published iff its task is still in the list, which then drops it; otherwise it is discarded. |
| RenderingAsyncTask.Run | android-pdfview/src/main/java/com/joanzapata/pdfview/RenderingAsyncTask.java:57-80 | Each event yields one outcome. |
| RenderingAsyncTask.ApplyKeepsValid | android-pdfview/src/main/java/com/joanzapata/pdfview/RenderingAsyncTask.java:46-123 | Every step keeps identities distinct and fresh. |
| RenderingAsyncTask.GoneStaysGone | android-pdfview/src/main/java/com/joanzapata/pdfview/RenderingAsyncTask.java:61-69 | A task neither queued nor in flight never comes back, and is never published. |
| RenderingAsyncTask.GoneNeverPublished | android-pdfview/src/main/java/com/joanzapata/pdfview/RenderingAsyncTask.java:61-69 | Whatever events follow, a gone task is never published. |
| RenderingAsyncTask.RemovedTasksNeverPublished | android-pdfview/src/main/java/com/joanzapata/pdfview/RenderingAsyncTask.java:61-117 | A task cleared by `removeAllTasks` before the worker took it is never published. |
| RenderingAsyncTask.InFlightTaskDiscardedAfterRemoveAll | android-pdfview/src/main/java/com/joanzapata/pdfview/RenderingAsyncTask.java:65-117 | What is in flight when the list is cleared is discarded when it finishes. |
| RenderingAsyncTask.ExitedIsFinal | android-pdfview/src/main/java/com/joanzapata/pdfview/RenderingAsyncTask.java:73-78 | A returned worker stays returned and produces nothing more. |
| RenderingAsyncTask.TakenHeadIsPublished | android-pdfview/src/main/java/com/joanzapata/pdfview/RenderingAsyncTask.java:61-66 | The head, taken and finished while still queued, is published with its own fields and leaves the list. |
| PdfView.WithUserPages | android-pdfview/src/main/java/com/joanzapata/pdfview/PDFView.java:223-227 | Loading with a user list stores it, its collapsed form and the index list as the code computes it, of the same length, and changes nothing else. The first index is the first listed page, not 0. For a first page other than -1, every later index locates its page in the collapsed list. |
| PdfView.WithUserPagesCorrected | android-pdfview/src/main/java/com/joanzapata/pdfview/PDFView.java:223-227 | Corrected: with the documented index list, every index, the first included, locates its page in the collapsed list when the first page is not -1. |
| PdfView.GetPageCount | android-pdfview/src/main/java/com/joanzapata/pdfview/PDFView.java:272-277 | The length of the user's list when there is one, else the document's page count. |
| PdfView.PageCountCountsListedPages | android-pdfview/src/main/java/com/joanzapata/pdfview/PDFView.java:272-277 | With a user list the count includes repetitions and is at least the collapsed list's length. |
| PdfView.DetermineValidPageNumberFrom | android-pdfview/src/main/java/com/joanzapata/pdfview/PDFView.java:659-673 | Input <= 0 gives 0; input >= count gives count - 1; else the input. Count is the user list's length if set, else the document's. |
| PdfView.PageToRenderAsWritten | android-pdfview/src/main/java/com/joanzapata/pdfview/PDFView.java:504-515 | Nothing is loaded when the user page is outside the collapsed list, the document page is negative, or the user page is at or past the document's page count. |
| PdfView.PageToRender | android-pdfview/src/main/java/com/joanzapata/pdfview/PDFView.java:504-515 | Corrected guard: the page resolves to a document page iff that page lies inside the document. |
| PdfView.PageGuardsAgreeWithoutUserPages | android-pdfview/src/main/java/com/joanzapata/pdfview/PDFView.java:504-515 | Without a user list both guards agree. |
| PdfView.PageGuardAsWrittenComparesUserPage | android-pdfview/src/main/java/com/joanzapata/pdfview/PDFView.java:513 | On a 2-page document, user list (0, 1, 0) refuses user page 2 although it shows page 0. User list (0, 7) lets page 7 through. |
| PdfView.StartCellAsWritten | android-pdfview/src/main/java/com/joanzapata/pdfview/PDFView.java:557-558 | As written the start cell lies in [0, nbRows] x [0, nbCols], one past the last row and column included. |
| PdfView.StartCell | android-pdfview/src/main/java/com/joanzapata/pdfview/PDFView.java:557-558 | Corrected clamp: the start cell is a grid cell whenever the grid has one, and an in-grid start is kept. |
| PdfView.StartCellAsWrittenLeavesGrid | android-pdfview/src/main/java/com/joanzapata/pdfview/PDFView.java:557-558 | Starting column 5 on a 1 x 1 page: the walk as written is just (0, 1) and never visits (0, 0); the corrected walk is (0, 0). |
| PdfView.OnLoop | android-pdfview/src/main/java/com/joanzapata/pdfview/PDFView.java:565-609 | Every cell counts as treated, and the answer is true iff fewer than the budget are treated. A render request is added iff the cell is not degenerate and no pool holds it; its cache order is the number of cells treated before it. A non-degenerate cell held in the passive pool is moved to the end of the active pool with that same cache order, and the passive pool loses exactly it. A cell no passive part shows leaves the cache unchanged. The held rectangles never change. |
| PdfView.FeedPlannerKeeps | android-pdfview/src/main/java/com/joanzapata/pdfview/PDFView.java:565-609 | Feeding n cells treats n. The rectangles the cache holds and both capacity invariants are kept. |
| PdfView.FeedPlannerRequests | android-pdfview/src/main/java/com/joanzapata/pdfview/PDFView.java:587-603 | Feeding cells submits exactly the wanted requests, in walk order, numbered from the count treated. |
| PdfView.WantedDependsOnContents | android-pdfview/src/main/java/com/joanzapata/pdfview/PDFView.java:592-599 | Which cells are requested depends only on the rectangles the cache holds. |
| PdfView.PlannerAnswer | android-pdfview/src/main/java/com/joanzapata/pdfview/PDFView.java:603-608 | The listener's i-th answer is true iff fewer than the budget cells are treated after it. |
| PdfView.RequestThumbnail | android-pdfview/src/main/java/com/joanzapata/pdfview/PDFView.java:518-526 | A thumbnail request is added iff the thumbnail list does not show the whole page. |
| PdfView.LoadPage | android-pdfview/src/main/java/com/joanzapata/pdfview/PDFView.java:501-618 | As written: a page refused by the guard of line 513 loads nothing and returns 0. Otherwise the walk runs from the start cell as the code clamps it. Only the cache and the worker change. |
| PdfView.LoadPageCorrected | android-pdfview/src/main/java/com/joanzapata/pdfview/PDFView.java:501-618 | Corrected: the corrected guard and start cell. A refused page loads nothing and returns 0; only the cache and the worker change. |
| PdfView.LoadFrom | android-pdfview/src/main/java/com/joanzapata/pdfview/PDFView.java:518-617 | Past the guards, only the cache and the worker change. |
| PdfView.LoadFromRun | android-pdfview/src/main/java/com/joanzapata/pdfview/PDFView.java:518-617 | From any start cell, the off-grid one the code can choose included, a call past the guards treats a prefix of the walk, at least one cell. It submits the thumbnail if missing, then the wanted parts in walk order. The cache's rectangles and the invariants are kept. |
| PdfView.LoadFromStops | android-pdfview/src/main/java/com/joanzapata/pdfview/PDFView.java:603-617 | From any start cell, the count lies between 1 and the walk's length. From the third cell on it stays within the budget. The walk stops early only once the budget is used. |
| PdfView.LoadFromCount | android-pdfview/src/main/java/com/joanzapata/pdfview/PDFView.java:518-617 | From any start cell, the count is min(walk length, max(2, budget)). |
| PdfView.LoadPageCount | android-pdfview/src/main/java/com/joanzapata/pdfview/PDFView.java:501-618 | As written, a page the guard lets through treats min(length of the walk from the code's start cell, max(2, budget)) cells. The corrected version treats the same over the corrected walk. |
| PdfView.LoadPageWithinBudget | android-pdfview/src/main/java/com/joanzapata/pdfview/PDFView.java:487-500 | With a budget of at least 2, both the code as written and the corrected version treat at most the budget, as documented. |
| PdfView.PageWalkLength | android-pdfview/src/main/java/com/joanzapata/pdfview/PDFView.java:557-615 | The walk from the code's start cell has at least nbRows x nbCols entries, an off-grid start included. From the corrected start, with at least one row and column, it has exactly nbRows x nbCols. |
| PdfView.LoadPageBudgetOneOvershoots | android-pdfview/src/main/java/com/joanzapata/pdfview/PDFView.java:487-617 | With a budget of 1 on a page of two cells or more, both the code as written and the corrected version treat 2 cells: one more than documented. |
| PdfView.LoadPageCoversPage | android-pdfview/src/main/java/com/joanzapata/pdfview/PDFView.java:501-618 | Corrected: with a budget covering the page, the walk starts at the start cell and covers every cell of the page, each once. |
| PdfView.CurrentIndex | android-pdfview/src/main/java/com/joanzapata/pdfview/PDFView.java:469-472 | Without an index list the index is the current page. With one it is that list's entry, and a current page outside the list throws. |
| PdfView.SweepFromOne | android-pdfview/src/main/java/com/joanzapata/pdfview/PDFView.java:477-482 | At distance 1, page index + 1 and then index - 1 are called while the budget lasts, each with the budget left. The budget only shrinks. |
| PdfView.SweepSpec | android-pdfview/src/main/java/com/joanzapata/pdfview/PDFView.java:476-482 | The sweep visits a prefix of index, index + 1, index - 1. The first call gets CACHE_SIZE and each call at least 1 and no more than the previous. A short sweep has used the budget. |
| PdfView.LoadPageNonNegative | android-pdfview/src/main/java/com/joanzapata/pdfview/PDFView.java:617 | Neither version of `loadPage` reports a negative count; past the guards each treats at least one cell. |
| PdfView.Cleared | android-pdfview/src/main/java/com/joanzapata/pdfview/PDFView.java:465-466 | The worker's list is empty while a rendering in flight goes on. The active pool is empty, the passive pool holds both former pools as a multiset, and the thumbnails are kept. |
| PdfView.LoadPages | android-pdfview/src/main/java/com/joanzapata/pdfview/PDFView.java:459-485 | Without a size nothing happens. Otherwise it succeeds iff the current page has an index. When it throws, the worker list and the active pool are already cleared. |
| PdfView.PageLoadersCountParts | android-pdfview/src/main/java/com/joanzapata/pdfview/PDFView.java:476-482 | Neither version of `loadPage` reports a negative count, so the sweep properties hold for both. |
| PdfView.LoadPagesSweeps | android-pdfview/src/main/java/com/joanzapata/pdfview/PDFView.java:459-485 | A successful `loadPages` sweeps from the cleared viewer, with an empty worker list and an empty active pool. It calls the code's `loadPage` on a prefix of index, index + 1, index - 1, each with a budget between 1 and CACHE_SIZE. A short sweep has used the budget. |
| PdfView.UserPagesAsWrittenLoseFirstPage | android-pdfview/src/main/java/com/joanzapata/pdfview/PDFView.java:469-472 | As written, user list (5, 5, 6) sends page 0 to index 5, which loads nothing. The documented list sends it to index 0, document page 5. |
| PdfView.OnBitmapRendered | android-pdfview/src/main/java/com/joanzapata/pdfview/PDFView.java:643-650 | A thumbnail is appended to the thumbnail list; any other part joins the active pool within the capacity. Nothing else changes. |
| PdfView.FinishRendering | android-pdfview/src/main/java/com/joanzapata/pdfview/RenderingAsyncTask.java:63-85 | A finished rendering keeps the cache's capacity invariant. |
| PdfView.FinishedPartReachesCache | android-pdfview/src/main/java/com/joanzapata/pdfview/RenderingAsyncTask.java:65-85 | A part finished for a still-queued task lands in the thumbnails or the active pool. One finished for a cleared task leaves the cache unchanged. |
| DecodeServiceBase.ValidIsConsistent | android-pdfview/src/main/java/org/vudroid/core/DecodeServiceBase.java:175-183 | A valid pool has no duplicate in its queue; its queue and key set agree; live references hold their own page. |
| DecodeServiceBase.RemoveValue | android-pdfview/src/main/java/org/vudroid/core/DecodeServiceBase.java:176 | `remove(Object)` drops the first occurrence of the index and keeps every other. |
| DecodeServiceBase.AppendKeepsNoDuplicates | android-pdfview/src/main/java/org/vudroid/core/DecodeServiceBase.java:177 | Offering a new index keeps the queue free of duplicates. |
| DecodeServiceBase.TailKeepsNoDuplicates | android-pdfview/src/main/java/org/vudroid/core/DecodeServiceBase.java:179 | Polling the head keeps the queue free of duplicates. |
| DecodeServiceBase.GetPage | android-pdfview/src/main/java/org/vudroid/core/DecodeServiceBase.java:171-187 | Afterwards the index maps to a live reference of its page and the pool stays valid. A live hit changes nothing, so the pool is FIFO, not LRU. A miss opens a new page at the back of the queue, and any released page is another one. |
| DecodeServiceBase.GetPageAfterClear | android-pdfview/src/main/java/org/vudroid/core/DecodeServiceBase.java:173-177 | Re-fetching after the reference was cleared moves the index to the back and releases nothing. |
| DecodeServiceBase.GetPageJoins | android-pdfview/src/main/java/org/vudroid/core/DecodeServiceBase.java:175-178 | A new index joins a queue with room; nothing is released. |
| DecodeServiceBase.GetPageEvictsOldest | android-pdfview/src/main/java/org/vudroid/core/DecodeServiceBase.java:178-184 | A new index joining a full queue evicts the oldest index and its entry. The page is released if still referenced. |
| DecodeServiceBase.Reopen | android-pdfview/src/main/java/org/vudroid/core/DecodeServiceBase.java:175-177 | The offer step opens a new page and moves its index to the back. The queue has at most 17 entries. |
| DecodeServiceBase.EvictHead | android-pdfview/src/main/java/org/vudroid/core/DecodeServiceBase.java:179-180 | The eviction step removes the head from queue and map. |
| DecodeServiceBase.ClearReference | android-pdfview/src/main/java/org/vudroid/core/DecodeServiceBase.java:36 | The collector clears one soft reference and changes nothing else. |
| DecodeServiceBase.PreloadNextPage | android-pdfview/src/main/java/org/vudroid/core/DecodeServiceBase.java:161-169 | Page n + 1 is opened iff it lies inside the document. |
| DecodeServiceBase.RunPool | android-pdfview/src/main/java/org/vudroid/core/DecodeServiceBase.java:171-187 | Any sequence of fetches and collections keeps the pool valid. |
| DecodeServiceBase.PoolStaysBounded | android-pdfview/src/main/java/org/vudroid/core/DecodeServiceBase.java:178-184 | Whatever happens, the queue and the map hold at most PAGE_POOL_SIZE = 16 pages. |
| DecodeServiceBase.KeysAsQueue | android-pdfview/src/main/java/org/vudroid/core/DecodeServiceBase.java:175-183 | The map has exactly as many entries as the queue. |
| DecodeServiceBase.DistinctElements | android-pdfview/src/main/java/org/vudroid/core/DecodeServiceBase.java:176-177 | A queue without duplicates has as many elements as values. |
| DecodeServiceBase.DecodePage | android-pdfview/src/main/java/org/vudroid/core/DecodeServiceBase.java:62-91 | After `recycle` nothing is registered. Otherwise the key maps to a new future, any earlier one is cancelled, and the job is alive. |
| DecodeServiceBase.StopDecoding | android-pdfview/src/main/java/org/vudroid/core/DecodeServiceBase.java:93-100 | The key is unregistered and its future cancelled; other keys keep theirs. |
| DecodeServiceBase.Recycle | android-pdfview/src/main/java/org/vudroid/core/DecodeServiceBase.java:258-264 | The flag is set, every key is stopped and every pending future is cancelled. |
| DecodeServiceBase.RecycledRegistersNothing | android-pdfview/src/main/java/org/vudroid/core/DecodeServiceBase.java:65-69 | After `recycle` no decode request registers anything. |
| DecodeServiceBase.ReleaseLive | android-pdfview/src/main/java/org/vudroid/core/DecodeServiceBase.java:267-272 | Walking a list of indexes, every reference that still holds its page is released, and nothing else is. |
| DecodeServiceBase.RecycleService | android-pdfview/src/main/java/org/vudroid/core/DecodeServiceBase.java:258-278 | `recycle` recycles the registry and releases every page the pool still references, and only those. |
| DecodeServiceBase.Submit | android-pdfview/src/main/java/org/vudroid/core/DecodeServiceBase.java:62-91 | Requests never change the recycled flag. |
| DecodeServiceBase.RepeatKeyReplaces | android-pdfview/src/main/java/org/vudroid/core/DecodeServiceBase.java:85-89 | A repeated key cancels the earlier future and registers the new one. |
| DecodeServiceBase.FinishDecodingAsWritten | android-pdfview/src/main/java/org/vudroid/core/DecodeServiceBase.java:155-159 | As written, finishing unregisters the page number, not the job's own key. |
| DecodeServiceBase.FinishDecoding | android-pdfview/src/main/java/org/vudroid/core/DecodeServiceBase.java:155-159 | Corrected: the finished job's own key is unregistered and every other key keeps its future. |
| DecodeServiceBase.FinishedTaskStaysRegistered | android-pdfview/src/main/java/org/vudroid/core/DecodeServiceBase.java:155-159 | As written, a job with key object 7 for page 3 stays registered after it finishes. The corrected version unregisters it. |
| DecodeServiceBase.Preload | android-pdfview/src/main/java/org/vudroid/core/DecodeServiceBase.java:161-169 | The pool step of the preload; past the last page it releases nothing. |
| DecodeServiceBase.PerformDecodeAsWritten | android-pdfview/src/main/java/org/vudroid/core/DecodeServiceBase.java:102-128 | A dead task does nothing. Otherwise its page is rendered and the bitmap delivered, then finished as written. The preload runs between the fetch and the render. |
| DecodeServiceBase.PerformDecode | android-pdfview/src/main/java/org/vudroid/core/DecodeServiceBase.java:102-128 | Corrected order: a live job's page is rendered and delivered, then the job is finished. The next page is preloaded if it exists. |
| DecodeServiceBase.PerformDecodeRendersHeldPage | android-pdfview/src/main/java/org/vudroid/core/DecodeServiceBase.java:111-120 | The corrected order never renders a page the pool has released. |
| DecodeServiceBase.RenderBetweenReleases | android-pdfview/src/main/java/org/vudroid/core/DecodeServiceBase.java:111-120 | A render preceded only by releases of other pages renders no released page. |
| DecodeServiceBase.PreloadReleasesRenderedPage | android-pdfview/src/main/java/org/vudroid/core/DecodeServiceBase.java:111-120 | In a full pool whose oldest entry is the page, the preload of the next page evicts it before it is rendered. |
| DecodeServiceBase.FullPool | android-pdfview/src/main/java/org/vudroid/core/DecodeServiceBase.java:28 | A valid full pool of pages 0 and 2 to 16, page 0 oldest. |
| DecodeServiceBase.DecodeRendersReleasedPageExample | android-pdfview/src/main/java/org/vudroid/core/DecodeServiceBase.java:111-120 | Decoding page 0 of a 20-page document from that pool renders a released page as written, and not in the corrected order. |
| ZoomModel.AtLeastMin | android-pdfview/src/main/java/org/vudroid/core/models/ZoomModel.java:17 | The stored factor is at least 1, equal to the request when that is at least 1. |
| ZoomModel.SetZoom | android-pdfview/src/main/java/org/vudroid/core/models/ZoomModel.java:15-25 | Stores max(z, 1). A change is announced with the new and old factors and clears the commit flag. Asking for the stored factor changes nothing. |
| ZoomModel.IncreaseZoom | android-pdfview/src/main/java/org/vudroid/core/models/ZoomModel.java:32-35 | From a factor of at least 1, the factor grows by 0.05 and the change is announced. |
| ZoomModel.DecreaseZoom | android-pdfview/src/main/java/org/vudroid/core/models/ZoomModel.java:37-40 | The factor shrinks by 0.05 but never below 1; at 1 nothing happens. |
| ZoomModel.CanDecrementIffDecreaseChanges | android-pdfview/src/main/java/org/vudroid/core/models/ZoomModel.java:57-60 | `canDecrement` holds exactly when `decreaseZoom` would lower the factor. |
| ZoomModel.Commit | android-pdfview/src/main/java/org/vudroid/core/models/ZoomModel.java:62-69 | Commit is announced only when not yet committed. |
| ZoomModel.ToggleZoomControls | android-pdfview/src/main/java/org/vudroid/core/models/ZoomModel.java:42-45 | The controls are asked for and nothing else changes. |
| ZoomModel.SetHorizontalScrollEnabled | android-pdfview/src/main/java/org/vudroid/core/models/ZoomModel.java:47-50 | Only the flag changes. |
| ZoomModel.CommitTwiceDispatchesOnce | android-pdfview/src/main/java/org/vudroid/core/models/ZoomModel.java:62-69 | A second commit with no change in between announces nothing. |
| ZoomModel.ChangeReopensCommit | android-pdfview/src/main/java/org/vudroid/core/models/ZoomModel.java:15-69 | After a real change the next commit is announced again. |
| ZoomModel.Appended | android-pdfview/src/main/java/org/vudroid/core/models/ZoomModel.java:18-69 | How the last factor, the commit state and the chain of changes read after one more event. |
| ZoomModel.StepKeepsConsistent | android-pdfview/src/main/java/org/vudroid/core/models/ZoomModel.java:15-69 | Every call keeps the stored state in agreement with the announcements. |
| ZoomModel.ChangeKeepsConsistent | android-pdfview/src/main/java/org/vudroid/core/models/ZoomModel.java:15-25 | `setZoom` keeps the stored state in agreement with the announcements. |
| ZoomModel.RunKeepsConsistent | android-pdfview/src/main/java/org/vudroid/core/models/ZoomModel.java:10-69 | From the initial model, after any calls, the factor is at least 1 and is the last one announced. The changes chain from 1. The commit flag is set exactly when a commit followed the last change. |
| ZoomModel.CommitAnnouncesOnce | android-pdfview/src/main/java/org/vudroid/core/models/ZoomModel.java:62-69 | After any calls, `commit` announces exactly when no commit followed the last change. |
| CurrentPageModel.SetCurrentPageIndex | android-pdfview/src/main/java/org/vudroid/core/models/CurrentPageModel.java:10-17 | The stored index is the new one. An event carrying it is dispatched iff it differs from the previous index. |
| CurrentPageModel.SetTwiceDispatchesOnce | android-pdfview/src/main/java/org/vudroid/core/models/CurrentPageModel.java:12 | Setting the same index twice dispatches at most once. |
| CurrentPageModel.FirstZeroIsSilent | android-pdfview/src/main/java/org/vudroid/core/models/CurrentPageModel.java:8-12 | The initial index is 0, so a first `setCurrentPageIndex(0)` dispatches nothing. |
| CurrentPageModel.RunDispatchesRuns | android-pdfview/src/main/java/org/vudroid/core/models/CurrentPageModel.java:10-17 | From the initial model the events are the runs of the called indexes, the leading zeros silent. The stored index is the last one set. |
| CurrentPageModel.RunAnnouncesChanges | android-pdfview/src/main/java/org/vudroid/core/models/CurrentPageModel.java:12-16 | No two consecutive events carry the same index; the first is never 0; there are no more events than calls. |

## Left out

- Float geometry of the view is an input, one `PageLayout` per user page. This covers part and grid size, the cell under the centre, clipping at the page edge and thumbnail size (android-pdfview/src/main/java/com/joanzapata/pdfview/PDFView.java:528-554,567-585). Page sides are naturals.
- Zoom factors are reals, so single-precision rounding of `0.05f` steps is not modelled.
- Threads are not modelled: the worker's AsyncTask, `wait`/`notify`, the executor and futures, and the unsynchronised list. The model is a sequential state machine of atomic steps. Interleavings inside one step are not covered, such as the repeated `isTaskDead` calls during one decode.
- Native decoding (`renderBitmap`, `getPage` of the codec) becomes a bitmap or page parameter. Scaled-size rounding (android-pdfview/src/main/java/org/vudroid/core/DecodeServiceBase.java:130-153) is not modelled.
- Soft-reference collection is an explicit `Collect` input step that may happen between any two fetches.
- Gestures, animation, drawing, masks and minimap are not modelled. Neither are the older quadtree variant, MD5 and the event dispatch plumbing; dispatched events are an appended trace.
- The `PriorityQueue`'s internal order is a sequence. `poll` takes the first part of least cache order; the heap's tie-break among equal orders is not modelled.
- `showPage`, `jumpTo` and `PDFView.recycle` are not modelled beyond the pieces they call.
- PdfView.Sweep: the sweep is stated for any page loader that never reports a negative count, instead of only for `loadPage`; `LoadPagesSweeps` connects the two.
- PdfView.FinishRendering: its contract only keeps the capacity invariant. Where the part goes is stated by `FinishedPartReachesCache`.
- PdfView.LoadPages: only the code as written is swept; the corrected `loadPage` enters the same sweep through `CorrectedPageLoader`, for which `SweepSpec` holds as well.
- DecodeServiceBase.RecycleService: `document.recycle()`, `codecContext.recycle()` and `executorService.shutdown()` are native and executor calls, not modelled. The submitted job is taken to run at once, and the map's iteration order is replaced by the eviction queue's order.
- SpiralLoopManager: `startLoop` with both sides negative never ends in Java, because the total is positive and no cell is valid. The model requires that not both sides be negative.

## Findings

| source | as written | input that shows it | evidently intended | confidence | as-written member | corrected member |
|---|---|---|---|---|---|---|
| android-pdfview/src/main/java/com/joanzapata/pdfview/PDFView.java:557-558 | The start cell is clamped with `limit(x, 0, nbRows)` and `limit(y, 0, nbCols)`, one past the last row and column. The spiral counts that off-grid first call as marked, so it stops before reaching every cell. | A 1 x 1 page with starting column 5 starts at (0, 1); cell (0, 0) is never requested. | Clamp to nbRows - 1 and nbCols - 1. | not executed | PdfView.StartCellAsWritten, PdfView.StartCellAsWrittenLeavesGrid, PdfView.LoadPage | PdfView.StartCell, PdfView.LoadPageCorrected, PdfView.LoadPageCoversPage |
| android-pdfview/src/main/java/com/joanzapata/pdfview/CacheManager.java:128-141 | `recycle` loops over the active pool twice and never over the passive pool. | One passive part p and one active part a: a's bitmap is released twice, p's never. | The first loop runs over the passive pool. | not executed | CacheManager.RecycleAsWritten, CacheManager.RecycleAsWrittenMissesPassive | CacheManager.Recycle |
| android-pdfview/src/main/java/com/joanzapata/pdfview/util/ArrayUtils.java:55 | `result[0] = originalUserPages[0]` stores the first page number, not the first run index 0. The older copy does the same at src/main/java/fr/jzap/pdfview/util/ArrayUtils.java:33. | (5, 5, 6) gives (5, 0, 1). `loadPages` on user page 0 then asks for filtered page 5, which does not exist. | `result[0] = 0`, as the documented example suggests. | not executed | PageRuns.RunIndexesAsWritten, PageRuns.RunIndexesAsWrittenMisplacesFirst, PdfView.UserPagesAsWrittenLoseFirstPage | PageRuns.RunIndexes, PageRuns.RunIndexesLocateRuns, PdfView.WithUserPagesCorrected |
| android-pdfview/src/main/java/org/vudroid/core/DecodeServiceBase.java:155-159 | `finishDecoding` calls `stopDecoding(pageNumber)`, a boxed Integer, instead of the job's decode key. | A job with key object 7 for page 3 stays registered after it finishes. | `stopDecoding(currentDecodeTask.decodeKey)`. | not executed | DecodeServiceBase.FinishDecodingAsWritten, DecodeServiceBase.FinishedTaskStaysRegistered | DecodeServiceBase.FinishDecoding |
| android-pdfview/src/main/java/com/joanzapata/pdfview/PDFView.java:513 | The guard compares the user page, not the document page, with the document's page count. | On a 2-page document with user list (0, 1, 0), user page 2 (document page 0) is refused. With list (0, 7), document page 7 is let through. | `documentPage >= documentPageCount`. | not executed | PdfView.PageToRenderAsWritten, PdfView.PageGuardAsWrittenComparesUserPage, PdfView.LoadPage | PdfView.PageToRender, PdfView.LoadPageCorrected |
| android-pdfview/src/main/java/org/vudroid/core/DecodeServiceBase.java:111-120 | The next page is preloaded between fetching a page and rendering it. With a full pool whose oldest entry is that page, the preload evicts and recycles it before it is rendered. | A full pool of pages 0 and 2 to 16, page 0 oldest, on a 20-page document: decoding page 0 renders a released page. | Render first, then preload. | not executed | DecodeServiceBase.PerformDecodeAsWritten, DecodeServiceBase.PreloadReleasesRenderedPage, DecodeServiceBase.DecodeRendersReleasedPageExample | DecodeServiceBase.PerformDecode, DecodeServiceBase.PerformDecodeRendersHeldPage |
