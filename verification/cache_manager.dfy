/**
  The cache of rendered parts: two priority pools ordered by `cacheOrder`
  (passive, the parts of the previous loading pass, and active, the parts of
  the current one) and a first-in first-out list of thumbnails.

  A priority queue's iteration order is not specified, so each pool is a
  sequence read as a bag: contracts speak of multisets, and `Poll` takes the
  first part of least `cacheOrder` in sequence order.
*/
module CacheManager {
  import opened Wrappers
  import opened Constants
  import opened PageParts

  datatype Cache = Cache(passive: seq<PagePart>, active: seq<PagePart>, thumbnails: seq<PagePart>)

  /** A new cache manager: three empty collections. */
  const EmptyCache := Cache([], [], [])

  /** The capacity bounds every operation keeps. */
  predicate Valid(c: Cache) {
    |c.passive| + |c.active| <= CACHE_SIZE && |c.thumbnails| <= THUMBNAILS_CACHE_SIZE
  }

  // ---------------------------------------------------------------------------
  // Ordering of the pools

  /** `PagePartComparator.compare`: the sign of the difference of the two cache orders. */
  function Compare(part1: PagePart, part2: PagePart): (r: int)
    ensures r == 0 <==> part1.cacheOrder == part2.cacheOrder
    ensures r == 1 <==> part1.cacheOrder > part2.cacheOrder
    ensures r == -1 <==> part1.cacheOrder < part2.cacheOrder
  {
    if part1.cacheOrder == part2.cacheOrder then 0
    else if part1.cacheOrder > part2.cacheOrder then 1 else -1
  }

  /** The comparator is a total preorder: antisymmetric in sign and transitive. */
  lemma CompareIsTotalPreorder(a: PagePart, b: PagePart, c: PagePart)
    ensures Compare(a, b) == -Compare(b, a)
    ensures Compare(a, b) <= 0 && Compare(b, c) <= 0 ==> Compare(a, c) <= 0
    ensures Compare(a, b) <= 0 || Compare(b, a) <= 0
  {
  }

  /** Position of the part `poll` returns: the first one of least cache order. */
  function MinIndex(pool: seq<PagePart>): (i: nat)
    requires |pool| > 0
    ensures i < |pool|
    ensures forall j | 0 <= j < |pool| :: pool[i].cacheOrder <= pool[j].cacheOrder
    ensures forall j | 0 <= j < i :: pool[j].cacheOrder > pool[i].cacheOrder
    decreases |pool|
  {
    if |pool| == 1 then 0
    else
      var k := MinIndex(pool[..|pool| - 1]);
      if pool[|pool| - 1].cacheOrder < pool[k].cacheOrder then |pool| - 1 else k
  }

  function RemoveAt(s: seq<PagePart>, i: nat): (r: seq<PagePart>)
    requires i < |s|
    ensures |r| == |s| - 1
    ensures multiset(r) + multiset{s[i]} == multiset(s)
  {
    assert s == s[..i] + [s[i]] + s[i + 1..];
    s[..i] + s[i + 1..]
  }

  datatype Polled = Polled(head: PagePart, rest: seq<PagePart>)

  /** `poll`: removes and returns a part of least cache order. */
  function Poll(pool: seq<PagePart>): (r: Polled)
    requires |pool| > 0
    ensures multiset(r.rest) + multiset{r.head} == multiset(pool)
    ensures |r.rest| == |pool| - 1
    ensures forall q | q in r.rest :: r.head.cacheOrder <= q.cacheOrder
  {
    var i := MinIndex(pool);
    var rest := RemoveAt(pool, i);
    assert forall q | q in rest :: q in multiset(pool);
    Polled(pool[i], rest)
  }

  // ---------------------------------------------------------------------------
  // Eviction

  /** Cache orders never decrease along s. */
  predicate NonDecreasing(s: seq<PagePart>) {
    forall i, j | 0 <= i < j < |s| :: s[i].cacheOrder <= s[j].cacheOrder
  }

  datatype Drained = Drained(kept: seq<PagePart>, evicted: seq<PagePart>)

  /**
    One eviction loop of `makeAFreeSpace`: while the two pools together hold
    CACHE_SIZE parts or more and this pool is not empty, poll this pool.
    `other` is the size of the other pool, which the loop does not touch.
  */
  function Drain(pool: seq<PagePart>, other: nat): (r: Drained)
    ensures multiset(r.kept) + multiset(r.evicted) == multiset(pool)
    ensures |r.kept| == if |pool| + other < CACHE_SIZE then |pool| else Max0(CACHE_SIZE - 1 - other)
    ensures |pool| + other < CACHE_SIZE ==> r.kept == pool && r.evicted == []
    decreases |pool|
  {
    if |pool| + other >= CACHE_SIZE && |pool| > 0 then
      var p := Poll(pool);
      var d := Drain(p.rest, other);
      Drained(d.kept, [p.head] + d.evicted)
    else
      Drained(pool, [])
  }

  /** A part ranked at most every element of a non-decreasing s can go in front of it. */
  lemma ConsNonDecreasing(h: PagePart, s: seq<PagePart>)
    requires NonDecreasing(s)
    requires forall x | x in s :: h.cacheOrder <= x.cacheOrder
    ensures NonDecreasing([h] + s)
  {
    var t := [h] + s;
    forall i, j | 0 <= i < j < |t|
      ensures t[i].cacheOrder <= t[j].cacheOrder
    {
      assert t[j] == s[j - 1];
      if i > 0 {
        assert t[i] == s[i - 1];
      }
    }
  }

  /** The loop evicts in rank order. */
  lemma {:induction false} DrainEvictsInOrder(pool: seq<PagePart>, other: nat)
    ensures NonDecreasing(Drain(pool, other).evicted)
    decreases |pool|
  {
    if |pool| + other >= CACHE_SIZE && |pool| > 0 {
      var p := Poll(pool);
      DrainEvictsInOrder(p.rest, other);
      var d := Drain(p.rest, other);
      assert forall x | x in d.evicted :: p.head.cacheOrder <= x.cacheOrder by {
        forall x | x in d.evicted
          ensures p.head.cacheOrder <= x.cacheOrder
        {
          assert x in multiset(d.evicted);
          assert x in multiset(p.rest);
        }
      }
      ConsNonDecreasing(p.head, d.evicted);
    }
  }

  /** The loop never evicts a part ranked above one it keeps. */
  lemma {:induction false} DrainEvictsLeast(pool: seq<PagePart>, other: nat)
    ensures RankedBelow(Drain(pool, other).evicted, Drain(pool, other).kept)
    decreases |pool|
  {
    if |pool| + other >= CACHE_SIZE && |pool| > 0 {
      var p := Poll(pool);
      DrainEvictsLeast(p.rest, other);
      var d := Drain(p.rest, other);
      forall e, k | e in [p.head] + d.evicted && k in d.kept
        ensures e.cacheOrder <= k.cacheOrder
      {
        if e !in d.evicted {
          assert k in multiset(p.rest);
        }
      }
    }
  }

  function Max0(x: int): nat {
    if x < 0 then 0 else x
  }

  /** Parts released by an operation, passive ones first. */
  datatype Eviction = Eviction(cache: Cache, fromPassive: seq<PagePart>, fromActive: seq<PagePart>)

  /** No part of `evicted` is ranked above a part of `kept`. */
  predicate RankedBelow(evicted: seq<PagePart>, kept: seq<PagePart>) {
    forall e, k | e in evicted && k in kept :: e.cacheOrder <= k.cacheOrder
  }

  /**
    `makeAFreeSpace`: drain the passive pool first, then the active one, until
    the two hold fewer than CACHE_SIZE parts. The active pool loses a part only
    once the passive pool is empty.
  */
  function MakeAFreeSpace(c: Cache): (r: Eviction)
    ensures |r.cache.passive| + |r.cache.active| < CACHE_SIZE
    ensures multiset(r.cache.passive) + multiset(r.fromPassive) == multiset(c.passive)
    ensures multiset(r.cache.active) + multiset(r.fromActive) == multiset(c.active)
    ensures |r.fromActive| > 0 ==> r.cache.passive == []
    ensures |c.passive| + |c.active| < CACHE_SIZE ==> r.cache == c && r.fromPassive == [] && r.fromActive == []
    ensures r.cache.thumbnails == c.thumbnails
  {
    var p := Drain(c.passive, |c.active|);
    var a := Drain(c.active, |p.kept|);
    Eviction(Cache(p.kept, a.kept, c.thumbnails), p.evicted, a.evicted)
  }

  /** Each pool loses its least-ranked parts, in rank order. */
  lemma MakeAFreeSpaceEvictsLeast(c: Cache)
    ensures var r := MakeAFreeSpace(c);
            && NonDecreasing(r.fromPassive) && NonDecreasing(r.fromActive)
            && RankedBelow(r.fromPassive, r.cache.passive)
            && RankedBelow(r.fromActive, r.cache.active)
  {
    var p := Drain(c.passive, |c.active|);
    DrainEvictsInOrder(c.passive, |c.active|);
    DrainEvictsInOrder(c.active, |p.kept|);
    DrainEvictsLeast(c.passive, |c.active|);
    DrainEvictsLeast(c.active, |p.kept|);
  }

  // ---------------------------------------------------------------------------
  // Operations

  /** `cachePart`: make room, then offer the part to the active pool. */
  function CachePart(c: Cache, part: PagePart): (r: Eviction)
    ensures |r.cache.passive| + |r.cache.active| <= CACHE_SIZE
    ensures Valid(c) ==> Valid(r.cache)
    ensures multiset(r.cache.passive) + multiset(r.fromPassive) == multiset(c.passive)
    ensures multiset(r.cache.active) + multiset(r.fromActive) == multiset(c.active) + multiset{part}
    ensures |r.fromActive| > 0 ==> r.cache.passive == []
    ensures part in r.cache.active
    ensures r.cache.thumbnails == c.thumbnails
  {
    var freed := MakeAFreeSpace(c);
    var active := freed.cache.active + [part];
    assert multiset(active) == multiset(freed.cache.active) + multiset{part};
    assert active[|active| - 1] == part;
    Eviction(freed.cache.(active := active), freed.fromPassive, freed.fromActive)
  }

  /** `cachePart` does not look for an equal part: caching a part twice keeps both copies. */
  lemma CachePartKeepsDuplicates(part: PagePart)
    ensures var c := CachePart(CachePart(EmptyCache, part).cache, part).cache;
            c.active == [part, part] && Equals(c.active[0], PartObject(c.active[1]))
  {
  }

  /** `makeANewSet`: every active part moves to the passive pool; no part is lost or added. */
  function MakeANewSet(c: Cache): (r: Cache)
    ensures r.active == []
    ensures multiset(r.passive) == multiset(c.passive) + multiset(c.active)
    ensures |r.passive| + |r.active| == |c.passive| + |c.active|
    ensures r.thumbnails == c.thumbnails
    ensures Valid(c) ==> Valid(r)
  {
    Cache(c.passive + c.active, [], c.thumbnails)
  }

  datatype Thumbnailed = Thumbnailed(cache: Cache, evicted: Option<PagePart>)

  /**
    `cacheThumbnail`: when THUMBNAILS_CACHE_SIZE thumbnails or more are kept,
    the oldest is released; the new one is appended. Nothing else is lost:
    the released thumbnail followed by the kept ones is the old list plus the new one.
  */
  function CacheThumbnail(c: Cache, part: PagePart): (r: Thumbnailed)
    ensures (if r.evicted.Some? then [r.evicted.value] else []) + r.cache.thumbnails == c.thumbnails + [part]
    ensures r.evicted.Some? <==> |c.thumbnails| >= THUMBNAILS_CACHE_SIZE
    ensures |r.cache.thumbnails| >= 1 && r.cache.thumbnails[|r.cache.thumbnails| - 1] == part
    ensures |c.thumbnails| <= THUMBNAILS_CACHE_SIZE ==> |r.cache.thumbnails| <= THUMBNAILS_CACHE_SIZE
    ensures Valid(c) ==> Valid(r.cache)
    ensures r.cache.passive == c.passive && r.cache.active == c.active
  {
    if |c.thumbnails| >= THUMBNAILS_CACHE_SIZE then
      Thumbnailed(c.(thumbnails := c.thumbnails[1..] + [part]), Some(c.thumbnails[0]))
    else
      Thumbnailed(c.(thumbnails := c.thumbnails + [part]), None)
  }

  /** `find`: the first part of the pool that equals the probe. */
  function Find(pool: seq<PagePart>, fakePart: PagePart): (r: Option<nat>)
    ensures r.Some? ==> r.value < |pool| && Equals(pool[r.value], PartObject(fakePart))
    ensures r.Some? ==> forall j | 0 <= j < r.value :: !Equals(pool[j], PartObject(fakePart))
    ensures r.None? ==> forall j | 0 <= j < |pool| :: !Equals(pool[j], PartObject(fakePart))
    decreases |pool|
  {
    if |pool| == 0 then None
    else if Equals(pool[0], PartObject(fakePart)) then Some(0)
    else
      match Find(pool[1..], fakePart)
      case None => None
      case Some(k) => Some(k + 1)
  }

  /** A part shows rectangle `bounds` of user page `userPage` / document page `page`. */
  predicate Shows(part: PagePart, userPage: int, page: int, bounds: Rect) {
    part.userPage == userPage && part.page == page && part.pageRelativeBounds == bounds
  }

  /** Some part of the pools shows that rectangle. */
  predicate HasPart(c: Cache, userPage: int, page: int, bounds: Rect) {
    exists part | part in c.passive + c.active :: Shows(part, userPage, page, bounds)
  }

  datatype Promotion = Promotion(cache: Cache, found: bool)

  /**
    `upPartIfContained`: a passive part equal to the probe moves to the active
    pool with cache order `toOrder`; an active one is left as it is. The answer
    is whether any part shows that rectangle (width and height play no part,
    since parts never store them).
  */
  function UpPartIfContained(c: Cache, userPage: int, page: int, width: real, height: real, bounds: Rect, toOrder: int): (r: Promotion)
    ensures r.found <==> HasPart(c, userPage, page, bounds)
    ensures (exists part | part in c.passive :: Shows(part, userPage, page, bounds)) ==>
              exists i | 0 <= i < |c.passive| ::
                && Shows(c.passive[i], userPage, page, bounds)
                && multiset(r.cache.passive) + multiset{c.passive[i]} == multiset(c.passive)
                && r.cache.active == c.active + [c.passive[i].(cacheOrder := toOrder)]
    ensures !(exists part | part in c.passive :: Shows(part, userPage, page, bounds)) ==> r.cache == c
    ensures |r.cache.passive| + |r.cache.active| == |c.passive| + |c.active|
    ensures r.cache.thumbnails == c.thumbnails
    ensures Valid(c) ==> Valid(r.cache)
  {
    var fakePart := NewPagePart(userPage, page, None, width, height, bounds, false, 0);
    match Find(c.passive, fakePart)
    case Some(i) =>
      var found := c.passive[i];
      assert found in c.passive && found in c.passive + c.active;
      Promotion(c.(passive := RemoveAt(c.passive, i), active := c.active + [SetCacheOrder(found, toOrder)]), true)
    case None =>
      assert forall part | part in c.passive :: !Shows(part, userPage, page, bounds) by {
        forall part | part in c.passive
          ensures !Shows(part, userPage, page, bounds)
        {
          var j :| 0 <= j < |c.passive| && c.passive[j] == part;
        }
      }
      var hit := Find(c.active, fakePart).Some?;
      assert hit ==> c.active[Find(c.active, fakePart).value] in c.passive + c.active;
      assert !hit ==> forall part | part in c.active :: !Shows(part, userPage, page, bounds) by {
        if !hit {
          forall part | part in c.active
            ensures !Shows(part, userPage, page, bounds)
          {
            var j :| 0 <= j < |c.active| && c.active[j] == part;
          }
        }
      }
      Promotion(c, hit)
  }

  /** Moving one passive part, with a new cache order, to the end of the active pool. */
  predicate MovedToActive(c: Cache, r: Cache, moved: PagePart, toOrder: int) {
    && moved in c.passive
    && multiset(r.passive) + multiset{moved} == multiset(c.passive)
    && r.active == c.active + [moved.(cacheOrder := toOrder)]
  }

  /** Such a move keeps every rectangle the pools held... */
  lemma MoveKeepsParts(c: Cache, r: Cache, moved: PagePart, toOrder: int, u: int, p: int, b: Rect)
    requires MovedToActive(c, r, moved, toOrder)
    requires HasPart(c, u, p, b)
    ensures HasPart(r, u, p, b)
  {
    var part :| part in c.passive + c.active && Shows(part, u, p, b);
    if part in c.passive {
      if part == moved {
        assert moved.(cacheOrder := toOrder) in r.passive + r.active;
      } else {
        assert multiset(c.passive)[part] == multiset(r.passive)[part] + multiset{moved}[part];
        assert part in r.passive + r.active;
      }
    } else {
      assert part in r.passive + r.active;
    }
  }

  /** ...and adds none. */
  lemma MoveAddsNoParts(c: Cache, r: Cache, moved: PagePart, toOrder: int, u: int, p: int, b: Rect)
    requires MovedToActive(c, r, moved, toOrder)
    requires HasPart(r, u, p, b)
    ensures HasPart(c, u, p, b)
  {
    var part :| part in r.passive + r.active && Shows(part, u, p, b);
    if part in r.passive {
      assert part in multiset(c.passive);
      assert part in c.passive + c.active;
    } else if part in c.active {
      assert part in c.passive + c.active;
    } else {
      assert part == moved.(cacheOrder := toOrder);
      assert moved in c.passive + c.active;
    }
  }

  /** Promotion never changes which rectangles the pools hold. */
  lemma UpPartKeepsContents(c: Cache, userPage: int, page: int, width: real, height: real, bounds: Rect, toOrder: int,
                            u: int, p: int, b: Rect)
    ensures HasPart(UpPartIfContained(c, userPage, page, width, height, bounds, toOrder).cache, u, p, b)
        <==> HasPart(c, u, p, b)
  {
    var r := UpPartIfContained(c, userPage, page, width, height, bounds, toOrder);
    if exists part | part in c.passive :: Shows(part, userPage, page, bounds) {
      var i :| 0 <= i < |c.passive|
                && Shows(c.passive[i], userPage, page, bounds)
                && multiset(r.cache.passive) + multiset{c.passive[i]} == multiset(c.passive)
                && r.cache.active == c.active + [c.passive[i].(cacheOrder := toOrder)];
      assert MovedToActive(c, r.cache, c.passive[i], toOrder);
      if HasPart(c, u, p, b) {
        MoveKeepsParts(c, r.cache, c.passive[i], toOrder, u, p, b);
      }
      if HasPart(r.cache, u, p, b) {
        MoveAddsNoParts(c, r.cache, c.passive[i], toOrder, u, p, b);
      }
    }
  }

  /** `containsThumbnail`: whether some thumbnail shows that rectangle of that page. */
  function ContainsThumbnail(c: Cache, userPage: int, page: int, width: real, height: real, bounds: Rect): (r: bool)
    ensures r <==> exists i | 0 <= i < |c.thumbnails| :: Shows(c.thumbnails[i], userPage, page, bounds)
  {
    var fakePart := NewPagePart(userPage, page, None, width, height, bounds, true, 0);
    Find(c.thumbnails, fakePart).Some?
  }

  /** `getPageParts`: the passive parts followed by the active ones. */
  function GetPageParts(c: Cache): (r: seq<PagePart>)
    ensures |r| == |c.passive| + |c.active|
    ensures r[..|c.passive|] == c.passive && r[|c.passive|..] == c.active
    ensures multiset(r) == multiset(c.passive) + multiset(c.active)
  {
    c.passive + c.active
  }

  datatype Recycled = Recycled(cache: Cache, released: seq<PagePart>)

  /**
    `recycle` as written: its release loops run over the active pool twice and
    over the thumbnails once; passive parts are dropped without being released.
  */
  function RecycleAsWritten(c: Cache): (r: Recycled)
    ensures r.cache == EmptyCache
    ensures multiset(r.released) == multiset(c.active) + multiset(c.active) + multiset(c.thumbnails)
  {
    Recycled(EmptyCache, c.active + c.active + c.thumbnails)
  }

  /** A cache with one passive and one active part: the passive one is never released, the active one twice. */
  lemma RecycleAsWrittenMissesPassive(p: PagePart, a: PagePart)
    requires p != a
    ensures var r := RecycleAsWritten(Cache([p], [a], []));
            p !in r.released && multiset(r.released)[a] == 2
  {
  }

  /** `recycle` with its first loop over the passive pool: every cached part is released exactly once. */
  function Recycle(c: Cache): (r: Recycled)
    ensures r.cache == EmptyCache && Valid(r.cache)
    ensures multiset(r.released) == multiset(c.passive) + multiset(c.active) + multiset(c.thumbnails)
  {
    Recycled(EmptyCache, c.passive + c.active + c.thumbnails)
  }
}
