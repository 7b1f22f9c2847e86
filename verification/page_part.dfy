/**
  A rendered fragment of a page: which page, which rectangle of it, the bitmap
  it was rendered into, whether it is a thumbnail, and its rank in the cache.
*/
module PageParts {
  import opened Wrappers

  /** A rectangle in page-relative coordinates (0 to 1 across the page), compared exactly. */
  datatype Rect = Rect(left: real, top: real, right: real, bottom: real)

  /** A rendered bitmap, known only by its identity. */
  datatype Bitmap = Bitmap(id: nat)

  /**
    A page part. The Java class also declares `width` and `height`, but its
    constructor never assigns them, so they keep the default 0 for every part:
    `Width()` and `Height()` say so.
  */
  datatype PagePart = PagePart(userPage: int, page: int, renderedBitmap: Option<Bitmap>,
                               pageRelativeBounds: Rect, thumbnail: bool, cacheOrder: int)
  {
    function Width(): real {
      0.0
    }

    function Height(): real {
      0.0
    }
  }

  /**
    The constructor: every argument is kept except `width` and `height`, which
    are dropped, so every getter returns its argument and the size getters return 0.
  */
  function NewPagePart(userPage: int, page: int, renderedBitmap: Option<Bitmap>, width: real, height: real,
                       pageRelativeBounds: Rect, thumbnail: bool, cacheOrder: int): (p: PagePart)
    ensures p.userPage == userPage && p.page == page && p.renderedBitmap == renderedBitmap
    ensures p.pageRelativeBounds == pageRelativeBounds && p.thumbnail == thumbnail && p.cacheOrder == cacheOrder
    ensures p.Width() == 0.0 && p.Height() == 0.0
  {
    PagePart(userPage, page, renderedBitmap, pageRelativeBounds, thumbnail, cacheOrder)
  }

  /** The size passed to the constructor never shows in the part. */
  lemma SizeNeverDistinguishes(userPage: int, page: int, bitmap: Option<Bitmap>, w1: real, h1: real, w2: real, h2: real,
                               bounds: Rect, thumbnail: bool, cacheOrder: int)
    ensures NewPagePart(userPage, page, bitmap, w1, h1, bounds, thumbnail, cacheOrder)
         == NewPagePart(userPage, page, bitmap, w2, h2, bounds, thumbnail, cacheOrder)
  {
  }

  /** The values `equals` compares. */
  datatype PartKey = PartKey(page: int, userPage: int, width: real, height: real, bounds: Rect)

  function Identity(p: PagePart): PartKey {
    PartKey(p.page, p.userPage, p.Width(), p.Height(), p.pageRelativeBounds)
  }

  /** The argument of `equals(Object)`: a page part or any other object. */
  datatype Obj = PartObject(part: PagePart) | OtherObject

  /**
    `equals`: false for anything but a page part; for a page part, true iff
    page, user page, width, height and the four bound coordinates agree.
  */
  function Equals(p: PagePart, obj: Obj): (r: bool)
    ensures obj.OtherObject? ==> !r
    ensures obj.PartObject? ==> (r <==> Identity(obj.part) == Identity(p))
  {
    match obj
    case OtherObject => false
    case PartObject(part) =>
      && part.page == p.page
      && part.userPage == p.userPage
      && part.Width() == p.Width()
      && part.Height() == p.Height()
      && part.pageRelativeBounds.left == p.pageRelativeBounds.left
      && part.pageRelativeBounds.right == p.pageRelativeBounds.right
      && part.pageRelativeBounds.top == p.pageRelativeBounds.top
      && part.pageRelativeBounds.bottom == p.pageRelativeBounds.bottom
  }

  /** Two parts are equal exactly when they show the same rectangle of the same page. */
  lemma EqualsIgnoresPayload(p: PagePart, q: PagePart)
    ensures Equals(p, PartObject(q)) <==>
            p.page == q.page && p.userPage == q.userPage && p.pageRelativeBounds == q.pageRelativeBounds
  {
  }

  /** `equals` is an equivalence relation on parts. */
  lemma EqualsIsEquivalence(p: PagePart, q: PagePart, s: PagePart)
    ensures Equals(p, PartObject(p))
    ensures Equals(p, PartObject(q)) ==> Equals(q, PartObject(p))
    ensures Equals(p, PartObject(q)) && Equals(q, PartObject(s)) ==> Equals(p, PartObject(s))
  {
  }

  /** `setCacheOrder`: only the order changes; the part stays equal to itself. */
  function SetCacheOrder(p: PagePart, cacheOrder: int): (q: PagePart)
    ensures q.cacheOrder == cacheOrder
    ensures q.(cacheOrder := p.cacheOrder) == p
    ensures Equals(q, PartObject(p)) && Identity(q) == Identity(p)
  {
    p.(cacheOrder := cacheOrder)
  }
}
