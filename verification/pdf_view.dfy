/**
  The view's tile planner: which page fragments it asks the rendering worker
  for, in which order and under which budget, and where rendered fragments go.

  The float geometry (part size, grid size, the cell under the centre of the
  screen, clipping at the page edge) is computed by the view from its size,
  zoom and offsets; here it is an input, one `PageLayout` per user page.
*/
module PdfView {
  import opened Wrappers
  import opened Constants
  import opened NumberUtils
  import opened PageParts
  import opened GridCount
  import opened CacheManager
  import opened SpiralLoopManager
  import opened PageRuns
  import Rendering = RenderingAsyncTask

  /** One cell's render size and page-relative bounds, after clipping at the page edge. */
  datatype Tile = Tile(renderWidth: real, renderHeight: real, bounds: Rect)

  /**
    The geometry of one user page: the grid size, the raw cell under the
    centre of the screen (before clamping), the thumbnail size, and each
    cell's tile.
  */
  datatype PageLayout = PageLayout(nbRows: nat, nbCols: nat, startingRow: int, startingCol: int,
                                   thumbnailWidth: real, thumbnailHeight: real, tile: Cell -> Tile)

  /**
    The view's state that the planner reads and writes. `sized` stands for a
    non-zero optimal page width and height.
  */
  datatype Viewer = Viewer(
    originalUserPages: Option<seq<int>>,
    filteredUserPages: Option<seq<int>>,
    filteredUserPageIndexes: Option<seq<int>>,
    documentPageCount: int,
    currentPage: int,
    sized: bool,
    cache: Cache,
    worker: Rendering.Worker)

  /** The bounds of a whole page, which every thumbnail shows. */
  const FullPage := Rect(0.0, 0.0, 1.0, 1.0)

  function Min(a: int, b: int): int {
    if a <= b then a else b
  }

  function Max(a: int, b: int): int {
    if a >= b then a else b
  }

  // ---------------------------------------------------------------------------
  // User pages and page numbers

  /**
    `load` with a user page list, as the code does it: the list, its filtered
    form, and the index list as written, whose first entry is the first
    listed page rather than 0. Every later entry locates its page in the
    filtered list; the first one only does so when the list starts with 0.
  */
  function WithUserPages(v: Viewer, userPages: Option<seq<int>>): (r: Viewer)
    ensures userPages.None? ==> r == v
    ensures userPages.Some? ==>
              var p := userPages.value;
              && r.originalUserPages == userPages
              && r.filteredUserPages.Some? && r.filteredUserPageIndexes.Some?
              && |r.filteredUserPageIndexes.value| == |p|
              && (|p| > 0 ==> r.filteredUserPageIndexes.value[0] == p[0])
              && (|p| > 0 && p[0] != -1 ==>
                    forall i | 1 <= i < |p| ::
                      var k := r.filteredUserPageIndexes.value[i];
                      0 <= k < |r.filteredUserPages.value| && r.filteredUserPages.value[k] == p[i])
    ensures r == v.(originalUserPages := r.originalUserPages, filteredUserPages := r.filteredUserPages,
                    filteredUserPageIndexes := r.filteredUserPageIndexes)
  {
    match userPages
    case None => v
    case Some(p) =>
      var c := CollapseRuns(p);
      var r := RunIndexesAsWritten(p);
      assert |p| > 0 && p[0] != -1 ==> forall i | 1 <= i < |p| :: 0 <= r[i] < |c| && c[r[i]] == p[i] by {
        if |p| > 0 && p[0] != -1 {
          RunIndexesLocateRuns(p);
          assert forall i | 1 <= i < |p| :: r[i] == RunIndexes(p)[i];
        }
      }
      v.(originalUserPages := userPages, filteredUserPages := Some(c), filteredUserPageIndexes := Some(r))
  }

  /**
    Corrected: `load` with the documented index list, whose every entry, the
    first included, locates its page in the filtered list.
  */
  function WithUserPagesCorrected(v: Viewer, userPages: Option<seq<int>>): (r: Viewer)
    ensures userPages.None? ==> r == v
    ensures userPages.Some? ==>
              var p := userPages.value;
              && r.originalUserPages == userPages
              && r.filteredUserPages.Some? && r.filteredUserPageIndexes.Some?
              && |r.filteredUserPageIndexes.value| == |p|
              && (|p| > 0 && p[0] != -1 ==>
                    forall i | 0 <= i < |p| ::
                      var k := r.filteredUserPageIndexes.value[i];
                      0 <= k < |r.filteredUserPages.value| && r.filteredUserPages.value[k] == p[i])
    ensures r == v.(originalUserPages := r.originalUserPages, filteredUserPages := r.filteredUserPages,
                    filteredUserPageIndexes := r.filteredUserPageIndexes)
  {
    match userPages
    case None => v
    case Some(p) =>
      var c := CollapseRuns(p);
      var r := RunIndexes(p);
      assert |p| > 0 && p[0] != -1 ==> forall i | 0 <= i < |p| :: 0 <= r[i] < |c| && c[r[i]] == p[i] by {
        if |p| > 0 && p[0] != -1 {
          RunIndexesLocateRuns(p);
        }
      }
      v.(originalUserPages := userPages, filteredUserPages := Some(c), filteredUserPageIndexes := Some(r))
  }

  /** `getPageCount`: the length of the user's list, repetitions included, or else the document's page count. */
  function GetPageCount(v: Viewer): (r: int)
    ensures v.originalUserPages.Some? ==> r == |v.originalUserPages.value|
    ensures v.originalUserPages.None? ==> r == v.documentPageCount
  {
    if v.originalUserPages.Some? then |v.originalUserPages.value| else v.documentPageCount
  }

  /** With a user list, the view counts the listed pages, not the distinct ones nor the document's. */
  lemma PageCountCountsListedPages(v: Viewer, userPages: seq<int>)
    ensures var r := WithUserPages(v, Some(userPages));
            && GetPageCount(r) == |userPages|
            && |r.filteredUserPages.value| <= GetPageCount(r)
  {
    CollapseIsSubsequence(userPages);
  }

  /** `determineValidPageNumberFrom`: the page number clamped to the pages `getPageCount` counts. */
  function DetermineValidPageNumberFrom(v: Viewer, userPage: int): (r: int)
    ensures r == Limit(userPage, 0, GetPageCount(v) - 1)
    ensures GetPageCount(v) >= 1 ==> 0 <= r < GetPageCount(v)
    ensures userPage <= 0 ==> r == 0
    ensures 0 < userPage < GetPageCount(v) ==> r == userPage
    ensures 0 < userPage && GetPageCount(v) <= userPage ==> r == GetPageCount(v) - 1
  {
    if userPage <= 0 then 0
    else if v.originalUserPages.Some? then
      if userPage >= |v.originalUserPages.value| then |v.originalUserPages.value| - 1 else userPage
    else
      if userPage >= v.documentPageCount then v.documentPageCount - 1 else userPage
  }

  // ---------------------------------------------------------------------------
  // loadPage

  /**
    The guards of `loadPage`, as written: a user page outside the filtered
    list, a negative document page, or a user page number at or past the
    document's page count load nothing.
  */
  function PageToRenderAsWritten(v: Viewer, userPage: int): (r: Option<int>)
    ensures v.filteredUserPages.None? ==>
              r == (if userPage < 0 || userPage >= v.documentPageCount then None else Some(userPage))
    ensures v.filteredUserPages.Some? ==>
              var f := v.filteredUserPages.value;
              r == (if userPage < 0 || userPage >= |f| || f[userPage] < 0 || userPage >= v.documentPageCount then None
                    else Some(f[userPage]))
  {
    var documentPage :=
      if v.filteredUserPages.Some? then
        if userPage < 0 || userPage >= |v.filteredUserPages.value| then None
        else Some(v.filteredUserPages.value[userPage])
      else Some(userPage);
    match documentPage
    case None => None
    case Some(d) => if d < 0 || userPage >= v.documentPageCount then None else Some(d)
  }

  /**
    The guards of `loadPage` with the document page, not the user page,
    compared with the document's page count: the result is always a page of
    the document.
  */
  function PageToRender(v: Viewer, userPage: int): (r: Option<int>)
    ensures r.Some? ==> 0 <= r.value < v.documentPageCount
    ensures v.filteredUserPages.None? ==>
              r == (if userPage < 0 || userPage >= v.documentPageCount then None else Some(userPage))
    ensures v.filteredUserPages.Some? ==>
              var f := v.filteredUserPages.value;
              r == (if 0 <= userPage < |f| && 0 <= f[userPage] < v.documentPageCount then Some(f[userPage]) else None)
  {
    var documentPage :=
      if v.filteredUserPages.Some? then
        if userPage < 0 || userPage >= |v.filteredUserPages.value| then None
        else Some(v.filteredUserPages.value[userPage])
      else Some(userPage);
    match documentPage
    case None => None
    case Some(d) => if d < 0 || d >= v.documentPageCount then None else Some(d)
  }

  /** Without a user list both guards agree. */
  lemma PageGuardsAgreeWithoutUserPages(v: Viewer, userPage: int)
    requires v.filteredUserPages.None?
    ensures PageToRender(v, userPage) == PageToRenderAsWritten(v, userPage)
  {
  }

  /**
    With a user list the guard as written misjudges pages: on a 2-page
    document listed as (0, 1, 0), the third listed page (document page 0)
    is refused, while a list (0, 7) lets document page 7 through.
  */
  lemma PageGuardAsWrittenComparesUserPage(v: Viewer)
    requires v.documentPageCount == 2
    ensures var listed := WithUserPages(v, Some([0, 1, 0]));
            && PageToRenderAsWritten(listed, 2) == None
            && PageToRender(listed, 2) == Some(0)
    ensures var listed := WithUserPages(v, Some([0, 7]));
            && PageToRenderAsWritten(listed, 1) == Some(7)
            && PageToRender(listed, 1) == None
  {
    var a := [0, 1, 0];
    assert a[..0] == [];
    CollapsePrefix(a, 0); CollapsePrefix(a, 1); CollapsePrefix(a, 2);
    assert a[..3] == a;
    var b := [0, 7];
    assert b[..0] == [];
    CollapsePrefix(b, 0); CollapsePrefix(b, 1);
    assert b[..2] == b;
  }

  /** The start cell as written: clamped into [0, nbRows] x [0, nbCols], one past the last row and column included. */
  function StartCellAsWritten(l: PageLayout): (c: Cell)
    ensures 0 <= c.row <= l.nbRows && 0 <= c.col <= l.nbCols
  {
    Cell(Limit(l.startingRow, 0, l.nbRows), Limit(l.startingCol, 0, l.nbCols))
  }

  /** The start cell clamped to the last row and column: a cell of the grid whenever the grid has one. */
  function StartCell(l: PageLayout): (c: Cell)
    ensures l.nbRows >= 1 && l.nbCols >= 1 ==> IsValidCell(c.row, c.col, l.nbRows, l.nbCols)
    ensures 0 <= l.startingRow < l.nbRows ==> c.row == l.startingRow
    ensures 0 <= l.startingCol < l.nbCols ==> c.col == l.startingCol
  {
    Cell(Limit(l.startingRow, 0, l.nbRows - 1), Limit(l.startingCol, 0, l.nbCols - 1))
  }

  /**
    With the start clamped as written, a 1 x 1 page whose centre lies right of
    the page starts at (0, 1): the loop counts that call as the page's only
    cell and never visits (0, 0), so the page's one tile is never requested.
  */
  lemma StartCellAsWrittenLeavesGrid(tile: Cell -> Tile)
    ensures var l := PageLayout(1, 1, 0, 5, 0.0, 0.0, tile);
            && StartCellAsWritten(l) == Cell(0, 1)
            && Cell(0, 0) !in Walk(1, 1, 0, 1)
            && StartCell(l) == Cell(0, 0)
            && Walk(1, 1, 0, 0) == [Cell(0, 0)]
            && PageWalkAsWritten(l) == [Cell(0, 1)]
            && PageWalk(l) == [Cell(0, 0)]
  {
    WalkFromOutsideMissesCells();
    WalkCoversGrid(1, 1, 0, 0);
    WalkShape(1, 1, 0, 0);
  }

  /** The spiral listener's state: the cache and worker it feeds, and `nbItemTreated`. */
  datatype Planner = Planner(cache: Cache, worker: Rendering.Worker, treated: int)

  /** What one `loadPage` call works on. */
  datatype PagePlan = PagePlan(userPage: int, documentPage: int, nbOfPartsLoadable: int, layout: PageLayout)

  /** A tile whose render width or height is zero is skipped. */
  predicate Degenerate(t: Tile) {
    t.renderWidth == 0.0 || t.renderHeight == 0.0
  }

  /** The request a cell's tile becomes, with the given cache order. */
  function TileRequest(p: PagePlan, t: Tile, order: int): Rendering.Request {
    Rendering.Request(t.renderWidth, t.renderHeight, t.bounds, p.userPage, p.documentPage, false, order)
  }

  /**
    The reference for what a page submits: in visiting order, one request
    per non-degenerate cell whose rectangle the cache does not hold, carrying
    the cell's visiting rank as cache order.
  */
  function Wanted(p: PagePlan, c: Cache, cells: seq<Cell>, order: int): seq<Rendering.Request>
    decreases |cells|
  {
    if |cells| == 0 then []
    else
      var t := p.layout.tile(cells[0]);
      (if !Degenerate(t) && !HasPart(c, p.userPage, p.documentPage, t.bounds) then [TileRequest(p, t, order)] else [])
      + Wanted(p, c, cells[1..], order + 1)
  }

  /**
    The listener's `onLoop`: a non-degenerate cell is promoted in the cache
    if some pool holds it, and requested from the worker otherwise; every
    cell counts as treated; the loop may go on while fewer cells than the
    budget were treated.
  */
  function OnLoop(p: PagePlan, s: Planner, cell: Cell): (r: (Planner, bool))
    ensures r.0.treated == s.treated + 1
    ensures r.1 <==> r.0.treated < p.nbOfPartsLoadable
    ensures var t := p.layout.tile(cell);
            Rendering.Requests(r.0.worker.tasks)
              == Rendering.Requests(s.worker.tasks)
                 + (if !Degenerate(t) && !HasPart(s.cache, p.userPage, p.documentPage, t.bounds)
                    then [TileRequest(p, t, s.treated)] else [])
    ensures Degenerate(p.layout.tile(cell)) ==> r.0.cache == s.cache && r.0.worker == s.worker
    ensures var t := p.layout.tile(cell);
            !Degenerate(t) ==>
              r.0.cache == UpPartIfContained(s.cache, p.userPage, p.documentPage, t.renderWidth, t.renderHeight, t.bounds, s.treated).cache
    ensures var t := p.layout.tile(cell);
            !Degenerate(t) && (exists part | part in s.cache.passive :: Shows(part, p.userPage, p.documentPage, t.bounds)) ==>
              exists i | 0 <= i < |s.cache.passive| ::
                && Shows(s.cache.passive[i], p.userPage, p.documentPage, t.bounds)
                && multiset(r.0.cache.passive) + multiset{s.cache.passive[i]} == multiset(s.cache.passive)
                && r.0.cache.active == s.cache.active + [s.cache.passive[i].(cacheOrder := s.treated)]
    ensures var t := p.layout.tile(cell);
            !(exists part | part in s.cache.passive :: Shows(part, p.userPage, p.documentPage, t.bounds)) ==> r.0.cache == s.cache
    ensures forall u: int, pg: int, b: Rect :: HasPart(r.0.cache, u, pg, b) == HasPart(s.cache, u, pg, b)
    ensures Valid(s.cache) ==> Valid(r.0.cache)
    ensures Rendering.Valid(s.worker) ==> Rendering.Valid(r.0.worker)
  {
    var t := p.layout.tile(cell);
    var next :=
      if !Degenerate(t) then
        var promoted := UpPartIfContained(s.cache, p.userPage, p.documentPage, t.renderWidth, t.renderHeight, t.bounds, s.treated);
        assert forall u: int, pg: int, b: Rect :: HasPart(promoted.cache, u, pg, b) == HasPart(s.cache, u, pg, b) by {
          forall u: int, pg: int, b: Rect
            ensures HasPart(promoted.cache, u, pg, b) == HasPart(s.cache, u, pg, b)
          {
            UpPartKeepsContents(s.cache, p.userPage, p.documentPage, t.renderWidth, t.renderHeight, t.bounds, s.treated, u, pg, b);
          }
        }
        var worker :=
          if promoted.found then s.worker
          else Rendering.AddRenderingTask(s.worker, p.userPage, p.documentPage, t.renderWidth, t.renderHeight,
                                          t.bounds, false, s.treated);
        Planner(promoted.cache, worker, s.treated)
      else s;
    var treated := next.treated + 1;
    (next.(treated := treated), !(treated >= p.nbOfPartsLoadable))
  }

  function Listener(p: PagePlan): (Planner, Cell) -> (Planner, bool) {
    (s: Planner, cell: Cell) => OnLoop(p, s, cell)
  }

  /** Feeding the listener a sequence of cells treats each of them and keeps the cache's contents and both capacity invariants. */
  lemma {:induction false} FeedPlannerKeeps(p: PagePlan, s: Planner, cells: seq<Cell>)
    ensures var f := FeedAll(Listener(p), s, cells);
            && f.treated == s.treated + |cells|
            && (forall u: int, pg: int, b: Rect :: HasPart(f.cache, u, pg, b) == HasPart(s.cache, u, pg, b))
            && (Valid(s.cache) ==> Valid(f.cache))
            && (Rendering.Valid(s.worker) ==> Rendering.Valid(f.worker))
    decreases |cells|
  {
    if |cells| > 0 {
      FeedPlannerKeeps(p, OnLoop(p, s, cells[0]).0, cells[1..]);
    }
  }

  /** Feeding the listener a sequence of cells submits exactly the `Wanted` requests, in order. */
  lemma {:induction false} FeedPlannerRequests(p: PagePlan, s: Planner, cells: seq<Cell>)
    ensures Rendering.Requests(FeedAll(Listener(p), s, cells).worker.tasks)
            == Rendering.Requests(s.worker.tasks) + Wanted(p, s.cache, cells, s.treated)
    decreases |cells|
  {
    if |cells| > 0 {
      var s1 := OnLoop(p, s, cells[0]).0;
      var t := p.layout.tile(cells[0]);
      var first := if !Degenerate(t) && !HasPart(s.cache, p.userPage, p.documentPage, t.bounds)
                   then [TileRequest(p, t, s.treated)] else [];
      assert FeedAll(Listener(p), s, cells) == FeedAll(Listener(p), s1, cells[1..]);
      assert Rendering.Requests(s1.worker.tasks) == Rendering.Requests(s.worker.tasks) + first;
      assert Wanted(p, s.cache, cells, s.treated) == first + Wanted(p, s.cache, cells[1..], s.treated + 1);
      FeedPlannerRequests(p, s1, cells[1..]);
      WantedDependsOnContents(p, s1.cache, s.cache, cells[1..], s.treated + 1);
      var rest := Wanted(p, s.cache, cells[1..], s.treated + 1);
      assert s1.treated == s.treated + 1;
      assert Rendering.Requests(FeedAll(Listener(p), s, cells).worker.tasks)
             == Rendering.Requests(s1.worker.tasks) + rest;
      ConcatAssociative(Rendering.Requests(s.worker.tasks), first, rest);
    }
  }

  lemma ConcatAssociative<T>(a: seq<T>, b: seq<T>, c: seq<T>)
    ensures (a + b) + c == a + (b + c)
  {
  }

  /** `Wanted` depends on the cache only through the rectangles it holds. */
  lemma {:induction false} WantedDependsOnContents(p: PagePlan, c1: Cache, c2: Cache, cells: seq<Cell>, order: int)
    requires forall u: int, pg: int, b: Rect :: HasPart(c1, u, pg, b) == HasPart(c2, u, pg, b)
    ensures Wanted(p, c1, cells, order) == Wanted(p, c2, cells, order)
    decreases |cells|
  {
    if |cells| > 0 {
      WantedDependsOnContents(p, c1, c2, cells[1..], order + 1);
      var t := p.layout.tile(cells[0]);
      assert HasPart(c1, p.userPage, p.documentPage, t.bounds) == HasPart(c2, p.userPage, p.documentPage, t.bounds);
    }
  }

  /** The listener's answer to its i-th call: whether fewer than the budget cells are treated after it. */
  lemma PlannerAnswer(p: PagePlan, s: Planner, cells: seq<Cell>, i: nat)
    requires i < |cells|
    ensures Answer(Listener(p), s, cells, i) <==> s.treated + i + 1 < p.nbOfPartsLoadable
  {
    FeedPlannerKeeps(p, s, cells[..i]);
  }

  datatype Loaded = Loaded(viewer: Viewer, count: int)

  /** The thumbnail request of a page. */
  function ThumbnailRequest(l: PageLayout, userPage: int, documentPage: int): Rendering.Request {
    Rendering.Request(l.thumbnailWidth, l.thumbnailHeight, FullPage, userPage, documentPage, true, 0)
  }

  /** The page's thumbnail, unless the thumbnail list already shows it. */
  function RequestThumbnail(c: Cache, w: Rendering.Worker, l: PageLayout, userPage: int, documentPage: int): (r: Rendering.Worker)
    ensures Rendering.Requests(r.tasks)
            == Rendering.Requests(w.tasks)
               + (if ContainsThumbnail(c, userPage, documentPage, l.thumbnailWidth, l.thumbnailHeight, FullPage) then []
                  else [ThumbnailRequest(l, userPage, documentPage)])
    ensures Rendering.Valid(w) ==> Rendering.Valid(r)
  {
    if !ContainsThumbnail(c, userPage, documentPage, l.thumbnailWidth, l.thumbnailHeight, FullPage) then
      Rendering.AddRenderingTask(w, userPage, documentPage, l.thumbnailWidth, l.thumbnailHeight, FullPage, true, 0)
    else w
  }

  /** The cells the spiral walks on a page's grid from a start cell. */
  function StartWalk(l: PageLayout, start: Cell): seq<Cell> {
    Walk(l.nbRows, l.nbCols, start.row, start.col)
  }

  /** The cells `loadPage` walks, from the start cell as the code clamps it. */
  function PageWalkAsWritten(l: PageLayout): seq<Cell> {
    StartWalk(l, StartCellAsWritten(l))
  }

  /** The cells walked from the corrected start cell. */
  function PageWalk(l: PageLayout): seq<Cell> {
    StartWalk(l, StartCell(l))
  }

  /**
    The body of `loadPage` past its guards: the page's thumbnail is requested
    if missing, then the cells are walked in a spiral from `start`; the
    number of cells treated is returned. Only the cache and the worker change.
  */
  function LoadFrom(v: Viewer, l: PageLayout, userPage: int, documentPage: int, start: Cell, nbOfPartsLoadable: int): (r: Loaded)
    ensures r.viewer == v.(cache := r.viewer.cache, worker := r.viewer.worker)
  {
    var worker := RequestThumbnail(v.cache, v.worker, l, userPage, documentPage);
    var plan := PagePlan(userPage, documentPage, nbOfPartsLoadable, l);
    var run := Manager(Listener(plan)).StartLoop(Planner(v.cache, worker, 0), l.nbRows, l.nbCols, start.row, start.col);
    Loaded(v.(cache := run.state.cache, worker := run.state.worker), run.state.treated)
  }

  /**
    `loadPage` as written: the guards of `PageToRenderAsWritten`, then the
    walk from the start cell clamped by `StartCellAsWritten`.
  */
  function LoadPage(v: Viewer, l: PageLayout, userPage: int, nbOfPartsLoadable: int): (r: Loaded)
    ensures PageToRenderAsWritten(v, userPage).None? ==> r == Loaded(v, 0)
    ensures r.viewer == v.(cache := r.viewer.cache, worker := r.viewer.worker)
  {
    match PageToRenderAsWritten(v, userPage)
    case None => Loaded(v, 0)
    case Some(documentPage) => LoadFrom(v, l, userPage, documentPage, StartCellAsWritten(l), nbOfPartsLoadable)
  }

  /**
    Corrected: `loadPage` with the document page compared with the page
    count (`PageToRender`) and the start cell clamped into the grid
    (`StartCell`).
  */
  function LoadPageCorrected(v: Viewer, l: PageLayout, userPage: int, nbOfPartsLoadable: int): (r: Loaded)
    ensures PageToRender(v, userPage).None? ==> r == Loaded(v, 0)
    ensures r.viewer == v.(cache := r.viewer.cache, worker := r.viewer.worker)
  {
    match PageToRender(v, userPage)
    case None => Loaded(v, 0)
    case Some(documentPage) => LoadFrom(v, l, userPage, documentPage, StartCell(l), nbOfPartsLoadable)
  }

  /** The facts about the walk of one `loadPage` call past its guards, from any start cell. */
  lemma LoadFromRun(v: Viewer, l: PageLayout, userPage: int, documentPage: int, start: Cell, nbOfPartsLoadable: int)
    ensures var plan := PagePlan(userPage, documentPage, nbOfPartsLoadable, l);
            var w := StartWalk(l, start);
            var s0 := Planner(v.cache, RequestThumbnail(v.cache, v.worker, l, userPage, documentPage), 0);
            var r := LoadFrom(v, l, userPage, documentPage, start, nbOfPartsLoadable);
            && 1 <= r.count <= |w|
            && (forall i | 1 <= i < r.count - 1 :: Answer(Listener(plan), s0, w, i))
            && (r.count < |w| ==> r.count >= 2 && !Answer(Listener(plan), s0, w, r.count - 1))
            && Rendering.Requests(r.viewer.worker.tasks)
               == Rendering.Requests(v.worker.tasks)
                  + (if ContainsThumbnail(v.cache, userPage, documentPage, l.thumbnailWidth, l.thumbnailHeight, FullPage) then []
                     else [ThumbnailRequest(l, userPage, documentPage)])
                  + Wanted(plan, v.cache, w[..r.count], 0)
            && (forall u: int, pg: int, b: Rect :: HasPart(r.viewer.cache, u, pg, b) == HasPart(v.cache, u, pg, b))
            && (Valid(v.cache) ==> Valid(r.viewer.cache))
            && (Rendering.Valid(v.worker) ==> Rendering.Valid(r.viewer.worker))
  {
    var plan := PagePlan(userPage, documentPage, nbOfPartsLoadable, l);
    var s0 := Planner(v.cache, RequestThumbnail(v.cache, v.worker, l, userPage, documentPage), 0);
    var m := Manager(Listener(plan));
    StartLoopSpec(m, s0, l.nbRows, l.nbCols, start.row, start.col);
    var run := m.StartLoop(s0, l.nbRows, l.nbCols, start.row, start.col);
    FeedPlannerKeeps(plan, s0, StartWalk(l, start)[..run.calls]);
    FeedPlannerRequests(plan, s0, StartWalk(l, start)[..run.calls]);
  }

  /** Where the walk of `loadPage` stops: within the walk, before the budget runs out, and early only once the budget is used. */
  lemma LoadFromStops(v: Viewer, l: PageLayout, userPage: int, documentPage: int, start: Cell, nbOfPartsLoadable: int)
    ensures var n := LoadFrom(v, l, userPage, documentPage, start, nbOfPartsLoadable).count;
            && 1 <= n <= |StartWalk(l, start)|
            && (n >= 3 ==> n - 1 < nbOfPartsLoadable)
            && (n < |StartWalk(l, start)| ==> n >= 2 && n >= nbOfPartsLoadable)
  {
    var plan := PagePlan(userPage, documentPage, nbOfPartsLoadable, l);
    var s0 := Planner(v.cache, RequestThumbnail(v.cache, v.worker, l, userPage, documentPage), 0);
    var w := StartWalk(l, start);
    var m := Manager(Listener(plan));
    StartLoopSpec(m, s0, l.nbRows, l.nbCols, start.row, start.col);
    var run := m.StartLoop(s0, l.nbRows, l.nbCols, start.row, start.col);
    FeedPlannerKeeps(plan, s0, w[..run.calls]);
    var n := run.calls;
    assert LoadFrom(v, l, userPage, documentPage, start, nbOfPartsLoadable).count == n;
    if n >= 3 {
      PlannerAnswer(plan, s0, w, n - 2);
    }
    if n < |w| {
      PlannerAnswer(plan, s0, w, n - 1);
    }
  }

  /**
    The walk of `loadPage` treats min(|walk|, max(2, budget)) cells: every
    cell of the walk up to the budget, except that the first call's answer
    is ignored, so at least two cells are treated whenever the walk has two.
  */
  lemma LoadFromCount(v: Viewer, l: PageLayout, userPage: int, documentPage: int, start: Cell, nbOfPartsLoadable: int)
    ensures LoadFrom(v, l, userPage, documentPage, start, nbOfPartsLoadable).count
            == Min(|StartWalk(l, start)|, Max(2, nbOfPartsLoadable))
  {
    LoadFromStops(v, l, userPage, documentPage, start, nbOfPartsLoadable);
  }

  /**
    How many cells `loadPage` treats on a page its guards let through: as
    written, min(|walk|, max(2, budget)) over the walk from the start cell
    the code clamps; the corrected version does the same over the walk from
    the corrected start cell. A page the guards refuse treats none.
  */
  lemma LoadPageCount(v: Viewer, l: PageLayout, userPage: int, nbOfPartsLoadable: int)
    ensures PageToRenderAsWritten(v, userPage).Some? ==>
              LoadPage(v, l, userPage, nbOfPartsLoadable).count == Min(|PageWalkAsWritten(l)|, Max(2, nbOfPartsLoadable))
    ensures PageToRender(v, userPage).Some? ==>
              LoadPageCorrected(v, l, userPage, nbOfPartsLoadable).count == Min(|PageWalk(l)|, Max(2, nbOfPartsLoadable))
  {
    if PageToRenderAsWritten(v, userPage).Some? {
      LoadFromCount(v, l, userPage, PageToRenderAsWritten(v, userPage).value, StartCellAsWritten(l), nbOfPartsLoadable);
    }
    if PageToRender(v, userPage).Some? {
      LoadFromCount(v, l, userPage, PageToRender(v, userPage).value, StartCell(l), nbOfPartsLoadable);
    }
  }

  /** Both versions of `loadPage` treat a non-negative number of cells, at least one on a page the guards let through. */
  lemma LoadPageNonNegative(v: Viewer, l: PageLayout, userPage: int, nbOfPartsLoadable: int)
    ensures LoadPage(v, l, userPage, nbOfPartsLoadable).count >= 0
    ensures PageToRenderAsWritten(v, userPage).Some? ==> LoadPage(v, l, userPage, nbOfPartsLoadable).count >= 1
    ensures LoadPageCorrected(v, l, userPage, nbOfPartsLoadable).count >= 0
    ensures PageToRender(v, userPage).Some? ==> LoadPageCorrected(v, l, userPage, nbOfPartsLoadable).count >= 1
  {
    if PageToRenderAsWritten(v, userPage).Some? {
      LoadFromStops(v, l, userPage, PageToRenderAsWritten(v, userPage).value, StartCellAsWritten(l), nbOfPartsLoadable);
    }
    if PageToRender(v, userPage).Some? {
      LoadFromStops(v, l, userPage, PageToRender(v, userPage).value, StartCell(l), nbOfPartsLoadable);
    }
  }

  /** With a budget of at least 2, both versions of `loadPage` treat at most the budget, as its documentation promises. */
  lemma LoadPageWithinBudget(v: Viewer, l: PageLayout, userPage: int, nbOfPartsLoadable: int)
    ensures nbOfPartsLoadable >= 2 ==> LoadPage(v, l, userPage, nbOfPartsLoadable).count <= nbOfPartsLoadable
    ensures nbOfPartsLoadable >= 2 ==> LoadPageCorrected(v, l, userPage, nbOfPartsLoadable).count <= nbOfPartsLoadable
  {
    LoadPageCount(v, l, userPage, nbOfPartsLoadable);
  }

  /**
    The walk from the start cell as written has at least nbRows * nbCols
    entries, the start included even when it lies off the grid; from the
    corrected start it has exactly that many.
  */
  lemma PageWalkLength(l: PageLayout)
    ensures |PageWalkAsWritten(l)| >= l.nbRows * l.nbCols
    ensures l.nbRows >= 1 && l.nbCols >= 1 ==> |PageWalk(l)| == l.nbRows * l.nbCols
  {
    var start := StartCellAsWritten(l);
    WalkLengthAtLeastGrid(l.nbRows, l.nbCols, start.row, start.col);
    if l.nbRows >= 1 && l.nbCols >= 1 {
      WalkCoversGrid(l.nbRows, l.nbCols, StartCell(l).row, StartCell(l).col);
    }
  }

  /** With a budget of 1 on a page of two cells or more, `loadPage` treats 2 cells: one more than promised. */
  lemma LoadPageBudgetOneOvershoots(v: Viewer, l: PageLayout, userPage: int)
    requires l.nbRows * l.nbCols >= 2
    ensures PageToRenderAsWritten(v, userPage).Some? ==> LoadPage(v, l, userPage, 1).count == 2
    ensures PageToRender(v, userPage).Some? ==> LoadPageCorrected(v, l, userPage, 1).count == 2
  {
    PositiveFactors(l.nbRows, l.nbCols);
    PageWalkLength(l);
    LoadPageCount(v, l, userPage, 1);
  }

  /** A product of two naturals of at least 2 has no zero factor. */
  lemma PositiveFactors(a: nat, b: nat)
    ensures a * b >= 2 ==> a >= 1 && b >= 1
  {
    if a == 0 {
      assert a * b == 0;
    } else if b == 0 {
      assert a * b == 0;
    }
  }

  /**
    With the corrected start cell, a budget as large as the grid treats every
    cell of the page exactly once, starting at the start cell.
  */
  lemma LoadPageCoversPage(v: Viewer, l: PageLayout, userPage: int, nbOfPartsLoadable: int)
    requires PageToRender(v, userPage).Some? && l.nbRows >= 1 && l.nbCols >= 1
    requires nbOfPartsLoadable >= l.nbRows * l.nbCols
    ensures var n := LoadPageCorrected(v, l, userPage, nbOfPartsLoadable).count;
            var w := PageWalk(l);
            && n == l.nbRows * l.nbCols == |w|
            && w[0] == StartCell(l)
            && (forall c: Cell | InGrid(c, l.nbRows, l.nbCols) :: c in w)
            && (forall i, j | 0 <= i < j < |w| :: w[i] != w[j])
  {
    var start := StartCell(l);
    LoadPageCount(v, l, userPage, nbOfPartsLoadable);
    WalkCoversGrid(l.nbRows, l.nbCols, start.row, start.col);
    WalkShape(l.nbRows, l.nbCols, start.row, start.col);
  }

  // ---------------------------------------------------------------------------
  // loadPages

  /** The position in the filtered list of the current page; a current page outside the index list throws. */
  function CurrentIndex(v: Viewer): (r: Result<int, string>)
    ensures v.filteredUserPageIndexes.None? ==> r == Success(v.currentPage)
    ensures v.filteredUserPageIndexes.Some? ==>
              (r.Success? <==> 0 <= v.currentPage < |v.filteredUserPageIndexes.value|)
    ensures r.Success? && v.filteredUserPageIndexes.Some? ==> r.value == v.filteredUserPageIndexes.value[v.currentPage]
  {
    match v.filteredUserPageIndexes
    case None => Success(v.currentPage)
    case Some(indexes) =>
      if 0 <= v.currentPage < |indexes| then Success(indexes[v.currentPage])
      else Failure("ArrayIndexOutOfBoundsException")
  }

  /** One `loadPage` call of a sweep: the page and the budget it received. */
  datatype PageCall = PageCall(userPage: int, nbOfPartsLoadable: int)

  datatype Swept = Swept(viewer: Viewer, parts: int, calls: seq<PageCall>)

  /** `loadPage` on the page layouts of the current zoom and offsets. */
  function PageLoader(layouts: int -> PageLayout): (Viewer, int, int) -> Loaded {
    (v: Viewer, userPage: int, nbOfPartsLoadable: int) => LoadPage(v, layouts(userPage), userPage, nbOfPartsLoadable)
  }

  /** Corrected: the corrected `loadPage` on the same layouts. */
  function CorrectedPageLoader(layouts: int -> PageLayout): (Viewer, int, int) -> Loaded {
    (v: Viewer, userPage: int, nbOfPartsLoadable: int) => LoadPageCorrected(v, layouts(userPage), userPage, nbOfPartsLoadable)
  }

  /** A page loader never reports a negative number of parts. */
  ghost predicate CountsParts(load: (Viewer, int, int) -> Loaded) {
    forall v: Viewer, userPage: int, n: int :: load(v, userPage, n).count >= 0
  }

  /**
    The sweep loop from distance i on, with `parts` cells treated so far:
    page index + i, then (from distance 1) page index - i if the budget is
    not used up, while i <= LOADED_SIZE / 2 and the budget lasts.
  */
  function Sweep(v: Viewer, load: (Viewer, int, int) -> Loaded, index: int, i: nat, parts: int): (r: Swept)
    decreases LOADED_SIZE / 2 + 1 - i
  {
    if !(i <= LOADED_SIZE / 2 && parts < CACHE_SIZE) then Swept(v, parts, [])
    else
      var a := load(v, index + i, CACHE_SIZE - parts);
      var afterA := parts + a.count;
      var callA := PageCall(index + i, CACHE_SIZE - parts);
      if i != 0 && afterA < CACHE_SIZE then
        var b := load(a.viewer, index - i, CACHE_SIZE - afterA);
        var rest := Sweep(b.viewer, load, index, i + 1, afterA + b.count);
        Swept(rest.viewer, rest.parts, [callA, PageCall(index - i, CACHE_SIZE - afterA)] + rest.calls)
      else
        var rest := Sweep(a.viewer, load, index, i + 1, afterA);
        Swept(rest.viewer, rest.parts, [callA] + rest.calls)
  }

  /** The pages a sweep visits, in order: index, index + 1, index - 1. */
  function SweepOrder(index: int): seq<int> {
    [index, index + 1, index - 1]
  }

  /**
    The sweep at distance 1 calls page index + 1, then index - 1 if budget
    is left, each with the budget left; it only adds parts, and stops before
    index - 1 only once the budget is used up.
  */
  lemma SweepFromOne(v: Viewer, load: (Viewer, int, int) -> Loaded, index: int, parts: int)
    requires parts >= 0 && CountsParts(load)
    ensures var r := Sweep(v, load, index, 1, parts);
            && |r.calls| <= 2 && r.parts >= parts
            && (forall k | 0 <= k < |r.calls| :: r.calls[k].userPage == [index + 1, index - 1][k])
            && (forall k | 0 <= k < |r.calls| :: 1 <= r.calls[k].nbOfPartsLoadable <= CACHE_SIZE - parts)
            && (|r.calls| == 2 ==> r.calls[1].nbOfPartsLoadable <= r.calls[0].nbOfPartsLoadable)
            && (parts >= CACHE_SIZE <==> |r.calls| == 0)
            && (|r.calls| < 2 ==> r.parts >= CACHE_SIZE)
  {
    if parts < CACHE_SIZE {
      var a := load(v, index + 1, CACHE_SIZE - parts);
      var afterA := parts + a.count;
      if afterA < CACHE_SIZE {
        var b := load(a.viewer, index - 1, CACHE_SIZE - afterA);
        assert Sweep(b.viewer, load, index, 2, afterA + b.count) == Swept(b.viewer, afterA + b.count, []);
      } else {
        assert Sweep(a.viewer, load, index, 2, afterA) == Swept(a.viewer, afterA, []);
      }
    }
  }

  /**
    The sweep from distance 0: it visits a prefix of index, index + 1,
    index - 1; each call gets the budget left, which is at least 1 and
    shrinks from call to call; a sweep that stops early has used up the
    budget.
  */
  lemma SweepSpec(v: Viewer, load: (Viewer, int, int) -> Loaded, index: int)
    requires CountsParts(load)
    ensures var r := Sweep(v, load, index, 0, 0);
            && 1 <= |r.calls| <= 3 && r.parts >= 0
            && (forall k | 0 <= k < |r.calls| :: r.calls[k].userPage == SweepOrder(index)[k])
            && r.calls[0].nbOfPartsLoadable == CACHE_SIZE
            && (forall k | 0 <= k < |r.calls| :: 1 <= r.calls[k].nbOfPartsLoadable <= CACHE_SIZE)
            && (forall k | 0 <= k < |r.calls| - 1 :: r.calls[k + 1].nbOfPartsLoadable <= r.calls[k].nbOfPartsLoadable)
            && (|r.calls| < 3 ==> r.parts >= CACHE_SIZE)
  {
    var a := load(v, index, CACHE_SIZE);
    SweepFromOne(a.viewer, load, index, a.count);
    var rest := Sweep(a.viewer, load, index, 1, a.count);
    var r := Sweep(v, load, index, 0, 0);
    assert r.calls == [PageCall(index, CACHE_SIZE)] + rest.calls;
    assert forall k | 1 <= k < |r.calls| :: r.calls[k] == rest.calls[k - 1];
  }

  /** What `loadPages` leaves when it throws: the exception and the viewer as far as it got. */
  datatype Thrown = Thrown(error: string, viewer: Viewer)

  /**
    The first two steps of `loadPages`: the worker's list is emptied (a
    rendering in flight goes on) and the active parts become passive.
  */
  function Cleared(v: Viewer): (r: Viewer)
    ensures r.worker.tasks == [] && r.worker.inFlight == v.worker.inFlight
    ensures r.cache.active == []
    ensures multiset(r.cache.passive) == multiset(v.cache.passive) + multiset(v.cache.active)
    ensures r.cache.thumbnails == v.cache.thumbnails
    ensures r == v.(worker := r.worker, cache := r.cache)
  {
    v.(worker := Rendering.RemoveAllTasks(v.worker), cache := MakeANewSet(v.cache))
  }

  /**
    `loadPages`: without a size nothing happens; otherwise the worker's list
    is cleared, the active parts become passive, and the pages around the
    current one are swept. A current page outside the index list throws
    after the clearing, which stays done.
  */
  function LoadPages(v: Viewer, layouts: int -> PageLayout): (r: Result<Swept, Thrown>)
    ensures !v.sized ==> r == Success(Swept(v, 0, []))
    ensures v.sized ==> (r.Success? <==> CurrentIndex(v).Success?)
    ensures r.Failure? ==> r.error.viewer == Cleared(v)
  {
    if !v.sized then Success(Swept(v, 0, []))
    else
      var cleared := Cleared(v);
      match CurrentIndex(cleared)
      case Failure(e) => Failure(Thrown(e, cleared))
      case Success(index) => Success(Sweep(cleared, PageLoader(layouts), index, 0, 0))
  }

  /** Neither version of `loadPage` reports a negative number of parts, so `SweepSpec` applies to both. */
  lemma PageLoadersCountParts(layouts: int -> PageLayout)
    ensures CountsParts(PageLoader(layouts))
    ensures CountsParts(CorrectedPageLoader(layouts))
  {
    forall x: Viewer, userPage: int, n: int
      ensures PageLoader(layouts)(x, userPage, n).count >= 0
      ensures CorrectedPageLoader(layouts)(x, userPage, n).count >= 0
    {
      LoadPageNonNegative(x, layouts(userPage), userPage, n);
    }
  }

  /**
    A successful `loadPages` sweeps from the cleared viewer, whose worker
    list is empty and whose active pool is empty, the pages around the
    current one as `SweepSpec` describes.
  */
  lemma LoadPagesSweeps(v: Viewer, layouts: int -> PageLayout)
    requires v.sized && CurrentIndex(v).Success?
    ensures var r := LoadPages(v, layouts).value;
            var index := CurrentIndex(v).value;
            && r == Sweep(Cleared(v), PageLoader(layouts), index, 0, 0)
            && Cleared(v).worker.tasks == [] && Cleared(v).cache.active == []
            && 1 <= |r.calls| <= 3
            && (forall k | 0 <= k < |r.calls| :: r.calls[k].userPage == SweepOrder(index)[k])
            && (forall k | 0 <= k < |r.calls| :: 1 <= r.calls[k].nbOfPartsLoadable <= CACHE_SIZE)
            && (|r.calls| < 3 ==> r.parts >= CACHE_SIZE)
  {
    PageLoadersCountParts(layouts);
    assert CurrentIndex(Cleared(v)) == CurrentIndex(v);
    SweepSpec(Cleared(v), PageLoader(layouts), CurrentIndex(v).value);
  }

  /**
    With the index list as written, a user list (5, 5, 6) sends the first page
    to filtered index 5, which `loadPage` refuses: the current page is never
    loaded. The documented index list sends it to 0, which shows document
    page 5.
  */
  lemma UserPagesAsWrittenLoseFirstPage(v: Viewer, l: PageLayout)
    requires v.currentPage == 0 && v.documentPageCount == 10
    ensures var listed := WithUserPages(v, Some([5, 5, 6]));
            && CurrentIndex(listed) == Success(5)
            && LoadPage(listed, l, 5, CACHE_SIZE) == Loaded(listed, 0)
    ensures var listed := WithUserPagesCorrected(v, Some([5, 5, 6]));
            && CurrentIndex(listed) == Success(0)
            && PageToRender(listed, 0) == Some(5)
  {
    RunIndexesAsWrittenMisplacesFirst();
  }

  // ---------------------------------------------------------------------------
  // Rendered parts

  /** `onBitmapRendered`: a thumbnail goes to the thumbnail list, any other part to the active pool. */
  function OnBitmapRendered(v: Viewer, part: PagePart): (r: Viewer)
    ensures part.thumbnail ==>
              && |r.cache.thumbnails| >= 1 && r.cache.thumbnails[|r.cache.thumbnails| - 1] == part
              && r.cache.passive == v.cache.passive && r.cache.active == v.cache.active
    ensures !part.thumbnail ==>
              && part in r.cache.active
              && |r.cache.passive| + |r.cache.active| <= CACHE_SIZE
              && r.cache.thumbnails == v.cache.thumbnails
    ensures Valid(v.cache) ==> Valid(r.cache)
    ensures r == v.(cache := r.cache)
  {
    if part.thumbnail then v.(cache := CacheThumbnail(v.cache, part).cache)
    else v.(cache := CachePart(v.cache, part).cache)
  }

  /**
    The worker finishing a rendering: the part is handed to
    `onBitmapRendered` if it was published, and dropped otherwise.
  */
  function FinishRendering(v: Viewer, render: Bitmap): (r: Viewer)
    ensures Valid(v.cache) ==> Valid(r.cache)
  {
    var step := Rendering.Finish(v.worker, render);
    var next := v.(worker := step.worker);
    if step.outcome.Published? then OnBitmapRendered(next, step.outcome.part) else next
  }

  /**
    A rendering finished for a task still in the list lands in the cache,
    with its own fields; one finished for a cleared task leaves the cache
    unchanged.
  */
  lemma FinishedPartReachesCache(v: Viewer, render: Bitmap)
    requires v.worker.inFlight.Some?
    ensures var t := v.worker.inFlight.value;
            var part := Rendering.Proceed(t, render);
            var r := FinishRendering(v, render);
            && (Rendering.Queued(v.worker.tasks, t.id) && t.request.thumbnail ==> part in r.cache.thumbnails)
            && (Rendering.Queued(v.worker.tasks, t.id) && !t.request.thumbnail ==> part in r.cache.active)
            && (!Rendering.Queued(v.worker.tasks, t.id) ==> r.cache == v.cache)
  {
    var t := v.worker.inFlight.value;
    var r := FinishRendering(v, render);
    if Rendering.Queued(v.worker.tasks, t.id) && t.request.thumbnail {
      assert r.cache.thumbnails[|r.cache.thumbnails| - 1] == Rendering.Proceed(t, render);
    }
  }
}
