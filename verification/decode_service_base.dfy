/**
  The decode service of the older rendering path: a bounded pool of opened
  document pages and a registry of pending decode jobs.

  The pool maps a page index to a soft reference to the opened page. A
  reference may be cleared by the garbage collector at any time; the model
  takes that as an explicit input step (`ClearReference`). Opened pages are
  tracked in a FIFO eviction queue of at most PAGE_POOL_SIZE indexes: a hit
  on a live reference leaves the queue alone, a (re)open moves the index to
  the back, and an overflow drops the oldest index and releases its page.

  The registry maps a decode key (any object the caller chooses) to the
  future of the job submitted for it. Futures are numbered; cancelling one
  records its number. The executor itself is not modelled.
*/
module DecodeServiceBase {
  import opened Wrappers

  const PAGE_POOL_SIZE: nat := 16

  /** An opened document page; `serial` tells apart two openings of the same index. */
  datatype Page = Page(index: int, serial: nat)

  /** A soft reference: still holding its page, or cleared by the collector. */
  datatype Ref = Live(page: Page) | Cleared

  /** `nextSerial` counts the pages opened so far. */
  datatype Pool = Pool(pages: map<int, Ref>, queue: seq<int>, nextSerial: nat)

  const EmptyPool := Pool(map[], [], 0)

  predicate NoDuplicates(q: seq<int>) {
    forall a, b | 0 <= a < b < |q| :: q[a] != q[b]
  }

  /**
    The eviction queue lists every key of the map exactly once and never more
    than the pool size, and every live reference holds the page of its own index.
  */
  predicate Valid(p: Pool) {
    Consistent(p) && |p.queue| <= PAGE_POOL_SIZE
  }

  /** Valid without the size bound: what holds between the offer and the eviction of getPage. */
  predicate Consistent(p: Pool) {
    && NoDuplicates(p.queue)
    && (forall j | j in p.pages :: j in p.queue)
    && (forall j | j in p.queue :: j in p.pages)
    && (forall j | j in p.pages && p.pages[j].Live? :: p.pages[j].page.index == j)
  }

  /** Makes the parts of Valid available to a proof. */
  lemma ValidIsConsistent(p: Pool)
    requires Valid(p)
    ensures Consistent(p)
  {
  }

  /** Removes the first occurrence of x, as the queue's remove(Object) does. */
  function RemoveValue(q: seq<int>, x: int): (r: seq<int>)
    ensures x !in q ==> r == q
    ensures x in q ==> |r| == |q| - 1
    ensures forall y :: y in r ==> y in q
    ensures forall y :: y in q && y != x ==> y in r
    ensures NoDuplicates(q) ==> NoDuplicates(r) && x !in r
  {
    if |q| == 0 then []
    else if q[0] == x then q[1..]
    else
      var rest := RemoveValue(q[1..], x);
      assert NoDuplicates(q) ==> q[0] !in q[1..] && NoDuplicates(q[1..]) by {
        if NoDuplicates(q) {
          forall k | 0 <= k < |q| - 1 ensures q[1..][k] != q[0] {
            assert q[1..][k] == q[k + 1];
          }
          assert NoDuplicates(q[1..]) by {
            forall a, b | 0 <= a < b < |q| - 1 ensures q[1..][a] != q[1..][b] {
              assert q[1..][a] == q[a + 1] && q[1..][b] == q[b + 1];
            }
          }
        }
      }
      [q[0]] + rest
  }

  /** The result of getPage: the new pool, the page handed back, and the page released by an eviction, if any. */
  datatype Fetched = Fetched(pool: Pool, page: Page, released: Option<Page>)

  predicate IsHit(p: Pool, i: int) {
    i in p.pages && p.pages[i].Live?
  }

  lemma AppendKeepsNoDuplicates(q: seq<int>, x: int)
    requires NoDuplicates(q) && x !in q
    ensures NoDuplicates(q + [x])
  {
    forall a, b | 0 <= a < b < |q| + 1 ensures (q + [x])[a] != (q + [x])[b] {
      if b == |q| {
        assert (q + [x])[a] == q[a];
      } else {
        assert (q + [x])[a] == q[a] && (q + [x])[b] == q[b];
      }
    }
  }

  lemma TailKeepsNoDuplicates(q: seq<int>)
    requires NoDuplicates(q) && |q| > 0
    ensures NoDuplicates(q[1..]) && q[0] !in q[1..]
  {
    forall a, b | 0 <= a < b < |q| - 1 ensures q[1..][a] != q[1..][b] {
      assert q[1..][a] == q[a + 1] && q[1..][b] == q[b + 1];
    }
    forall k | 0 <= k < |q| - 1 ensures q[1..][k] != q[0] {
      assert q[1..][k] == q[k + 1];
    }
  }

  /**
    getPage: a live reference is a hit and changes nothing; otherwise the page
    is opened again, its index moves to the back of the queue, and when the
    queue outgrows the pool its head is evicted: its entry leaves the map and
    its page, if still referenced, is released.
  */
  function GetPage(p: Pool, i: int): (r: Fetched)
    requires Valid(p)
    ensures Valid(r.pool)
    ensures i in r.pool.pages && r.pool.pages[i] == Live(r.page) && r.page.index == i
    ensures IsHit(p, i) ==> r.pool == p && r.page == p.pages[i].page && r.released.None?
    ensures r.released.Some? ==> r.released.value.index != i && r.released.value.index !in r.pool.pages
    ensures !IsHit(p, i) ==> r.pool.queue[|r.pool.queue| - 1] == i && r.page.serial == p.nextSerial
  {
    if IsHit(p, i) then Fetched(p, p.pages[i].page, None)
    else
      var reopened := Reopen(p, i);
      if |reopened.queue| > PAGE_POOL_SIZE then
        var evicted := reopened.queue[0];
        var released := if reopened.pages[evicted].Live? then Some(reopened.pages[evicted].page) else None;
        Fetched(EvictHead(reopened), reopened.pages[i].page, released)
      else
        Fetched(reopened, reopened.pages[i].page, None)
  }

  /** Re-fetching after the collector cleared the reference moves the index to the back and releases nothing. */
  lemma GetPageAfterClear(p: Pool, i: int)
    requires Valid(p) && i in p.pages && p.pages[i].Cleared?
    ensures GetPage(p, i).pool.queue == RemoveValue(p.queue, i) + [i]
    ensures GetPage(p, i).released.None?
  {
  }

  /** A new index joins the back of a queue with room; nothing is released. */
  lemma GetPageJoins(p: Pool, i: int)
    requires Valid(p) && i !in p.pages && |p.queue| < PAGE_POOL_SIZE
    ensures GetPage(p, i).pool.queue == p.queue + [i]
    ensures GetPage(p, i).released.None?
    ensures forall j :: j in GetPage(p, i).pool.pages <==> j in p.pages || j == i
  {
  }

  /** A new index joining a full queue evicts the oldest index and releases its page if still referenced. */
  lemma GetPageEvictsOldest(p: Pool, i: int)
    requires Valid(p) && i !in p.pages && |p.queue| == PAGE_POOL_SIZE
    ensures var r := GetPage(p, i);
            var oldest := p.queue[0];
            && r.pool.queue == p.queue[1..] + [i]
            && oldest in p.pages && oldest !in r.pool.pages
            && r.released == (if p.pages[oldest].Live? then Some(p.pages[oldest].page) else None)
  {
    var oldest := p.queue[0];
    assert oldest in p.pages && i !in p.queue by {
      ValidIsConsistent(p);
      assert forall j | j in p.queue :: j in p.pages;
      assert oldest in p.queue;
    }
    var reopened := Reopen(p, i);
    assert reopened.queue[0] == oldest && reopened.queue[1..] == p.queue[1..] + [i] && |reopened.queue| > PAGE_POOL_SIZE by {
      assert reopened.queue == p.queue + [i];
    }
    assert reopened.pages[oldest] == p.pages[oldest];
    var r := GetPage(p, i);
    assert r.pool == EvictHead(reopened);
  }

  /** The offer step of getPage: the page is opened and its index goes to the back of the queue. */
  function Reopen(p: Pool, i: int): (r: Pool)
    requires Valid(p) && !IsHit(p, i)
    ensures Consistent(r)
    ensures r.queue == RemoveValue(p.queue, i) + [i]
    ensures |r.queue| <= PAGE_POOL_SIZE + 1
    ensures i in p.pages ==> |r.queue| == |p.queue|
    ensures r.pages[i] == Live(Page(i, p.nextSerial)) && r.nextSerial == p.nextSerial + 1
  {
    ValidIsConsistent(p);
    AppendKeepsNoDuplicates(RemoveValue(p.queue, i), i);
    Pool(p.pages[i := Live(Page(i, p.nextSerial))], RemoveValue(p.queue, i) + [i], p.nextSerial + 1)
  }

  /** The eviction step of getPage: the head leaves the queue and its entry leaves the map. */
  function EvictHead(p: Pool): (r: Pool)
    requires Consistent(p) && |p.queue| > 0
    ensures Consistent(r)
    ensures r.queue == p.queue[1..] && r.nextSerial == p.nextSerial
    ensures p.queue[0] !in r.pages
  {
    var evicted := p.queue[0];
    TailKeepsNoDuplicates(p.queue);
    var r := Pool(p.pages - {evicted}, p.queue[1..], p.nextSerial);
    assert forall j | j in r.pages :: j in r.queue by {
      forall j | j in r.pages ensures j in r.queue {
        var k :| 0 <= k < |p.queue| && p.queue[k] == j;
        assert r.queue[k - 1] == j;
      }
    }
    r
  }

  /** The collector clears the soft reference held for index i, if there is one. */
  function ClearReference(p: Pool, i: int): (r: Pool)
    ensures r.queue == p.queue && r.nextSerial == p.nextSerial
    ensures forall j :: j in r.pages <==> j in p.pages
    ensures i in p.pages ==> r.pages[i] == Cleared
    ensures forall j | j in p.pages && j != i :: r.pages[j] == p.pages[j]
    ensures Valid(p) ==> Valid(r)
  {
    if i in p.pages then p.(pages := p.pages[i := Cleared]) else p
  }

  /** preloadNextPage: opens page n + 1 unless it lies past the end of the document. */
  function PreloadNextPage(p: Pool, n: int, pageCount: int): (r: Pool)
    requires Valid(p)
    ensures Valid(r)
    ensures n + 1 >= pageCount ==> r == p
    ensures n + 1 < pageCount ==> n + 1 in r.pages && r.pages[n + 1].Live?
  {
    if n + 1 >= pageCount then p else GetPage(p, n + 1).pool
  }

  /** A single getPage call keeps the pool within its size; stated over any sequence of requests and collections. */
  datatype PoolStep = Fetch(index: int) | Collect(index: int)

  function RunPool(p: Pool, steps: seq<PoolStep>): (r: Pool)
    requires Valid(p)
    ensures Valid(r)
    decreases |steps|
  {
    if |steps| == 0 then p
    else
      var next := match steps[0]
        case Fetch(i) => GetPage(p, i).pool
        case Collect(i) => ClearReference(p, i);
      RunPool(next, steps[1..])
  }

  /** Whatever the requests and the collector do, the pool never holds more than PAGE_POOL_SIZE pages. */
  lemma PoolStaysBounded(steps: seq<PoolStep>)
    ensures |RunPool(EmptyPool, steps).queue| <= PAGE_POOL_SIZE
    ensures |RunPool(EmptyPool, steps).pages| <= PAGE_POOL_SIZE
  {
    var r := RunPool(EmptyPool, steps);
    KeysAsQueue(r);
  }

  /** The map has exactly as many entries as the queue. */
  lemma KeysAsQueue(p: Pool)
    requires Valid(p)
    ensures |p.pages| == |p.queue|
  {
    ValidIsConsistent(p);
    assert forall j | j in p.pages :: j in p.queue;
    assert forall j | j in p.queue :: j in p.pages;
    assert p.pages.Keys == set j | j in p.queue;
    DistinctElements(p.queue);
  }

  /** A sequence without duplicates has as many elements as its set of values. */
  lemma {:induction false} DistinctElements(q: seq<int>)
    requires NoDuplicates(q)
    ensures |set j | j in q| == |q|
    decreases |q|
  {
    if |q| > 0 {
      var n := |q| - 1;
      var init := q[..n];
      assert NoDuplicates(init) by {
        forall a, b | 0 <= a < b < n ensures init[a] != init[b] {
          assert init[a] == q[a] && init[b] == q[b];
        }
      }
      DistinctElements(init);
      assert q[n] !in init by {
        forall k | 0 <= k < n ensures init[k] != q[n] {
          assert init[k] == q[k];
        }
      }
      assert q == init + [q[n]];
      assert (set j | j in q) == (set j | j in init) + {q[n]};
    }
  }

  // ---------------------------------------------------------------------------
  // Decode jobs
  // ---------------------------------------------------------------------------

  /** Decode keys: the callers' key objects; the page number is a boxed Integer, a key of its own kind. */
  datatype DecodeKey = PageNumberKey(n: int) | ObjectKey(id: nat)

  /** A decode job as submitted: its key and the page it renders. */
  datatype DecodeTask = DecodeTask(key: DecodeKey, pageNumber: int)

  /** Pending futures by key, the numbers of the cancelled futures, the next future number, and the recycled flag. */
  datatype Registry = Registry(futures: map<DecodeKey, nat>, cancelled: set<nat>, nextFuture: nat, isRecycled: bool)

  const NewRegistry := Registry(map[], {}, 0, false)

  /** Every registered future was numbered before the counter. */
  predicate Numbered(g: Registry) {
    forall k | k in g.futures :: g.futures[k] < g.nextFuture
  }

  /** isTaskDead: a job is dead once its key is no longer registered. */
  predicate IsTaskDead(g: Registry, t: DecodeTask) {
    t.key !in g.futures
  }

  /**
    decodePage: once recycled nothing is submitted. Otherwise a reopened future
    is registered under the key, and the future the key held before, if any,
    is cancelled.
  */
  function DecodePage(g: Registry, t: DecodeTask): (r: Registry)
    ensures g.isRecycled ==> r == g
    ensures !g.isRecycled ==>
              && r.futures == g.futures[t.key := g.nextFuture]
              && r.nextFuture == g.nextFuture + 1
              && !IsTaskDead(r, t)
              && r.cancelled == g.cancelled + (if t.key in g.futures then {g.futures[t.key]} else {})
    ensures r.isRecycled == g.isRecycled
    ensures Numbered(g) ==> Numbered(r)
  {
    if g.isRecycled then g
    else
      var cancelled := if t.key in g.futures then g.cancelled + {g.futures[t.key]} else g.cancelled;
      Registry(g.futures[t.key := g.nextFuture], cancelled, g.nextFuture + 1, false)
  }

  /** stopDecoding: unregisters the key and cancels its future; other keys keep theirs. */
  function StopDecoding(g: Registry, key: DecodeKey): (r: Registry)
    ensures key !in r.futures
    ensures forall k | k in g.futures && k != key :: k in r.futures && r.futures[k] == g.futures[k]
    ensures forall k | k in r.futures :: k in g.futures
    ensures key in g.futures ==> r.cancelled == g.cancelled + {g.futures[key]}
    ensures key !in g.futures ==> r == g
    ensures r.isRecycled == g.isRecycled && r.nextFuture == g.nextFuture
  {
    if key in g.futures then
      g.(futures := map k | k in g.futures && k != key :: g.futures[k],
         cancelled := g.cancelled + {g.futures[key]})
    else g
  }

  /** recycle: sets the flag and stops every registered key; every pending future ends up cancelled. */
  function Recycle(g: Registry): (r: Registry)
    ensures r.isRecycled
    ensures r.futures == map[]
    ensures forall k | k in g.futures :: g.futures[k] in r.cancelled
    ensures g.cancelled <= r.cancelled
  {
    Registry(map[], g.cancelled + set k | k in g.futures :: g.futures[k], g.nextFuture, true)
  }

  /** After recycle, no decode request registers anything again. */
  lemma {:induction false} RecycledRegistersNothing(g: Registry, tasks: seq<DecodeTask>)
    ensures Submit(Recycle(g), tasks) == Recycle(g)
    decreases |tasks|
  {
    if |tasks| > 0 {
      RecycledRegistersNothing(g, tasks[1..]);
    }
  }

  /** Feeds decode requests one after the other. */
  function Submit(g: Registry, tasks: seq<DecodeTask>): (r: Registry)
    ensures r.isRecycled == g.isRecycled
    decreases |tasks|
  {
    if |tasks| == 0 then g else Submit(DecodePage(g, tasks[0]), tasks[1..])
  }

  /** A repeated key replaces the earlier job: the first future is cancelled, the second one is registered. */
  lemma RepeatKeyReplaces(g: Registry, t: DecodeTask, u: DecodeTask)
    requires !g.isRecycled && t.key == u.key
    ensures var r := DecodePage(DecodePage(g, t), u);
            && r.futures[u.key] == g.nextFuture + 1
            && g.nextFuture in r.cancelled
            && !IsTaskDead(r, t)
  {
  }

  /** finishDecoding as written: hands over the bitmap, then stops the page number rather than the task's key. */
  function FinishDecodingAsWritten(g: Registry, t: DecodeTask): (r: Registry)
    ensures PageNumberKey(t.pageNumber) !in r.futures
  {
    StopDecoding(g, PageNumberKey(t.pageNumber))
  }

  /** finishDecoding as intended: the finished job's own key is unregistered, and nothing else changes. */
  function FinishDecoding(g: Registry, t: DecodeTask): (r: Registry)
    ensures IsTaskDead(r, t)
    ensures forall k | k in g.futures && k != t.key :: k in r.futures && r.futures[k] == g.futures[k]
  {
    StopDecoding(g, t.key)
  }

  /**
    With an object key, as the page tree passes, the job stays registered after
    it finished as written: it is never considered dead and its entry is never
    released. The intended version unregisters it.
  */
  lemma FinishedTaskStaysRegistered()
    ensures var t := DecodeTask(ObjectKey(7), 3);
            var g := DecodePage(NewRegistry, t);
            && !IsTaskDead(FinishDecodingAsWritten(g, t), t)
            && FinishDecodingAsWritten(g, t).futures == g.futures
            && IsTaskDead(FinishDecoding(g, t), t)
  {
    var t := DecodeTask(ObjectKey(7), 3);
    var g := DecodePage(NewRegistry, t);
    assert PageNumberKey(3) !in g.futures;
  }


  // ---------------------------------------------------------------------------
  // One run of a decode job
  // ---------------------------------------------------------------------------

  datatype Service = Service(pool: Pool, registry: Registry, pageCount: int)

  /** The pool's visible effects during a run, in order: a page released by an eviction, the page rendered. */
  datatype Effect = Release(page: Page) | Render(page: Page)

  /** What a run produced: the new state, the page rendered and the bitmap handed to the job's callback, and the effects. */
  datatype Decoded<B> = Decoded(service: Service, rendered: Option<Page>, delivered: Option<B>, effects: seq<Effect>)

  function Releases(f: Fetched): seq<Effect> {
    if f.released.Some? then [Release(f.released.value)] else []
  }

  /** The pool step of preloadNextPage, with the page it released. */
  function Preload(p: Pool, n: int, pageCount: int): (r: Fetched)
    requires Valid(p)
    ensures r.pool == PreloadNextPage(p, n, pageCount)
    ensures n + 1 >= pageCount ==> r.released.None?
  {
    if n + 1 >= pageCount then Fetched(p, Page(n + 1, p.nextSerial), None) else GetPage(p, n + 1)
  }

  /** Some page is rendered after the pool released it. */
  predicate RendersReleasedPage(effects: seq<Effect>) {
    exists a, b | 0 <= a < b < |effects| :: effects[a].Release? && effects[b] == Render(effects[a].page)
  }

  /**
    performDecode as written, run without interleaving: a dead job is skipped;
    otherwise the page is fetched, the next page preloaded, the fetched page
    rendered (the renderer is a parameter), the bitmap delivered and
    finishDecoding as written called.
  */
  function PerformDecodeAsWritten<B>(s: Service, t: DecodeTask, render: Page -> B): (r: Decoded<B>)
    requires Valid(s.pool)
    ensures Valid(r.service.pool)
    ensures IsTaskDead(s.registry, t) ==> r == Decoded(s, None, None, [])
    ensures !IsTaskDead(s.registry, t) ==>
              && r.rendered.Some? && r.rendered.value.index == t.pageNumber
              && r.delivered == Some(render(r.rendered.value))
              && r.service.registry == FinishDecodingAsWritten(s.registry, t)
  {
    if IsTaskDead(s.registry, t) then Decoded(s, None, None, [])
    else
      var fetched := GetPage(s.pool, t.pageNumber);
      var next := Preload(fetched.pool, t.pageNumber, s.pageCount);
      Decoded(Service(next.pool, FinishDecodingAsWritten(s.registry, t), s.pageCount),
              Some(fetched.page), Some(render(fetched.page)),
              Releases(fetched) + Releases(next) + [Render(fetched.page)])
  }

  /**
    performDecode as intended: the fetched page is rendered before the next
    page is preloaded, so the preload cannot release the page being rendered,
    and the finished job's own key is unregistered.
  */
  function PerformDecode<B>(s: Service, t: DecodeTask, render: Page -> B): (r: Decoded<B>)
    requires Valid(s.pool)
    ensures Valid(r.service.pool)
    ensures IsTaskDead(s.registry, t) ==> r == Decoded(s, None, None, [])
    ensures !IsTaskDead(s.registry, t) ==>
              && r.rendered.Some? && r.rendered.value.index == t.pageNumber
              && r.delivered == Some(render(r.rendered.value))
              && IsTaskDead(r.service.registry, t)
              && (t.pageNumber + 1 < s.pageCount ==> t.pageNumber + 1 in r.service.pool.pages)
  {
    if IsTaskDead(s.registry, t) then Decoded(s, None, None, [])
    else
      var fetched := GetPage(s.pool, t.pageNumber);
      var next := Preload(fetched.pool, t.pageNumber, s.pageCount);
      Decoded(Service(next.pool, FinishDecoding(s.registry, t), s.pageCount),
              Some(fetched.page), Some(render(fetched.page)),
              Releases(fetched) + [Render(fetched.page)] + Releases(next))
  }

  /** The intended order never renders a page the pool has released. */
  lemma PerformDecodeRendersHeldPage<B>(s: Service, t: DecodeTask, render: Page -> B)
    requires Valid(s.pool)
    ensures !RendersReleasedPage(PerformDecode(s, t, render).effects)
  {
    if !IsTaskDead(s.registry, t) {
      var fetched := GetPage(s.pool, t.pageNumber);
      var next := Preload(fetched.pool, t.pageNumber, s.pageCount);
      RenderBetweenReleases(Releases(fetched), fetched.page, Releases(next));
    }
  }

  /** A render preceded only by releases of other pages and followed only by releases renders no released page. */
  lemma RenderBetweenReleases(before: seq<Effect>, page: Page, after: seq<Effect>)
    requires forall k | 0 <= k < |before| :: before[k].Release? && before[k].page != page
    requires forall k | 0 <= k < |after| :: after[k].Release?
    ensures !RendersReleasedPage(before + [Render(page)] + after)
  {
    var effects := before + [Render(page)] + after;
    forall a, b | 0 <= a < b < |effects| && effects[a].Release? ensures effects[b] != Render(effects[a].page) {
      if b < |before| {
        assert effects[b] == before[b];
      } else if b == |before| {
        assert effects[a] == before[a];
      } else {
        assert effects[b] == after[b - |before| - 1];
      }
    }
  }

  /**
    When the job's page is the oldest entry of a full pool and the next page
    is not pooled, the preload evicts the very page the job is about to render.
  */
  lemma PreloadReleasesRenderedPage<B>(s: Service, t: DecodeTask, render: Page -> B)
    requires Valid(s.pool) && !IsTaskDead(s.registry, t)
    requires |s.pool.queue| == PAGE_POOL_SIZE && s.pool.queue[0] == t.pageNumber
    requires IsHit(s.pool, t.pageNumber) && t.pageNumber + 1 !in s.pool.pages
    requires t.pageNumber + 1 < s.pageCount
    ensures RendersReleasedPage(PerformDecodeAsWritten(s, t, render).effects)
  {
    var fetched := GetPage(s.pool, t.pageNumber);
    var next := Preload(fetched.pool, t.pageNumber, s.pageCount);
    assert fetched.pool == s.pool;
    GetPageEvictsOldest(fetched.pool, t.pageNumber + 1);
    assert next.released == Some(fetched.page);
    var effects := PerformDecodeAsWritten(s, t, render).effects;
    assert effects == [Release(fetched.page), Render(fetched.page)];
    assert effects[0].Release? && effects[1] == Render(effects[0].page);
  }

  /** A full pool of pages 0 and 2 to 16, opened in that order. */
  function FullPool(): (p: Pool)
    ensures Valid(p) && |p.queue| == PAGE_POOL_SIZE && p.queue[0] == 0 && IsHit(p, 0) && 1 !in p.pages
  {
    var queue := [0] + seq(15, k => k + 2);
    var pages := map j | j in queue :: Live(Page(j, 0));
    assert forall j :: j in queue ==> j == 0 || j >= 2;
    assert NoDuplicates(queue) by {
      forall a, b | 0 <= a < b < |queue| ensures queue[a] != queue[b] {
        if a > 0 {
          assert queue[a] == a + 1 && queue[b] == b + 1;
        }
      }
    }
    Pool(pages, queue, 16)
  }

  /** Decoding page 0 of a 20-page document from that pool renders a page the preload of page 1 has just released. */
  lemma DecodeRendersReleasedPageExample(render: Page -> int)
    ensures var s := Service(FullPool(), DecodePage(NewRegistry, DecodeTask(ObjectKey(1), 0)), 20);
            && RendersReleasedPage(PerformDecodeAsWritten(s, DecodeTask(ObjectKey(1), 0), render).effects)
            && !RendersReleasedPage(PerformDecode(s, DecodeTask(ObjectKey(1), 0), render).effects)
  {
    var s := Service(FullPool(), DecodePage(NewRegistry, DecodeTask(ObjectKey(1), 0)), 20);
    PreloadReleasesRenderedPage(s, DecodeTask(ObjectKey(1), 0), render);
    PerformDecodeRendersHeldPage(s, DecodeTask(ObjectKey(1), 0), render);
  }

  // ---------------------------------------------------------------------------
  // Shutting the service down

  /**
    The pages the recycle job releases while walking the indexes `keys`:
    every reference that still holds its page, and nothing else.
  */
  function ReleaseLive(p: Pool, keys: seq<int>): (r: seq<Effect>)
    ensures |r| <= |keys|
    ensures forall e | e in r :: e.Release? && exists j | j in keys :: j in p.pages && p.pages[j] == Live(e.page)
    ensures forall j | j in keys && j in p.pages && p.pages[j].Live? :: Release(p.pages[j].page) in r
    decreases |keys|
  {
    if |keys| == 0 then []
    else
      var k := keys[0];
      var rest := ReleaseLive(p, keys[1..]);
      assert forall j | j in keys[1..] :: j in keys;
      (if k in p.pages && p.pages[k].Live? then [Release(p.pages[k].page)] else []) + rest
  }

  /**
    `recycle` on the whole service: the registry is recycled, and the job it
    submits releases every page the pool still references, and only those.
    The map's iteration order is not modelled: the pages are released in
    eviction-queue order, which lists every key of a consistent pool. The
    references stay in the map.
  */
  function RecycleService(s: Service): (r: (Service, seq<Effect>))
    ensures r.0 == s.(registry := Recycle(s.registry))
    ensures forall e | e in r.1 :: e.Release? && exists j | j in s.pool.pages :: s.pool.pages[j] == Live(e.page)
    ensures Consistent(s.pool) ==>
              forall j | j in s.pool.pages && s.pool.pages[j].Live? :: Release(s.pool.pages[j].page) in r.1
  {
    (s.(registry := Recycle(s.registry)), ReleaseLive(s.pool, s.pool.queue))
  }
}
