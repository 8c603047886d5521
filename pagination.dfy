/**
 Server-side pagination: the response descriptor and the computation that
 derives the page count and the two navigation flags from a page number, a
 page size and the total number of elements.

 Page numbers are 0-based. The page size is positive: Spring's `PageRequest`
 refuses a size below one, so every `Pageable` the computation receives carries one.
 */
module Pagination {

  datatype PaginationResponse<T> = PaginationResponse(
    content: seq<T>,
    pageNumber: nat,
    pageSize: nat,
    totalElements: nat,
    totalPages: nat,
    hasPreviousPage: bool,
    hasNextPage: bool)

  //--------------------------------------------------------------------------
  // Page counting
  //--------------------------------------------------------------------------

  /**
   Reference definition of the page count: fill one page of `pageSize`
   elements at a time until no element is left.
   */
  function PagesNeeded(totalElements: nat, pageSize: nat): nat
    requires pageSize > 0
    decreases totalElements
  {
    if totalElements == 0 then 0
    else 1 + PagesNeeded(if totalElements <= pageSize then 0 else totalElements - pageSize, pageSize)
  }

  /**
   `ceil(totalElements / pageSize)` in exact integer arithmetic: the fewest
   pages that hold every element, so that the last of them is not empty.
   */
  function TotalPages(totalElements: nat, pageSize: nat): (pages: nat)
    requires pageSize > 0
    ensures pages * pageSize >= totalElements
    ensures pages == 0 || (pages - 1) * pageSize < totalElements
  {
    var q := (totalElements + pageSize - 1) / pageSize;
    assert q * pageSize + (totalElements + pageSize - 1) % pageSize == totalElements + pageSize - 1;
    assert q == 0 || (q - 1) * pageSize == q * pageSize - pageSize;
    q
  }

  lemma MulMonotonic(a: nat, b: nat, pageSize: nat)
    requires a <= b
    ensures a * pageSize <= b * pageSize
  {
    assert b * pageSize == a * pageSize + (b - a) * pageSize;
  }

  /** More than `k` pages exist exactly when more than `k` full pages' worth of elements exist. */
  lemma MorePagesThan(totalElements: nat, pageSize: nat, k: nat)
    requires pageSize > 0
    ensures TotalPages(totalElements, pageSize) > k <==> k * pageSize < totalElements
  {
    var q := TotalPages(totalElements, pageSize);
    if q > k {
      MulMonotonic(k, q - 1, pageSize);
    } else {
      MulMonotonic(q, k, pageSize);
    }
  }

  /** Filling pages one at a time also yields the fewest pages with a non-empty last page. */
  lemma {:induction false} PagesNeededIsCeiling(totalElements: nat, pageSize: nat)
    requires pageSize > 0
    ensures var pages := PagesNeeded(totalElements, pageSize);
      pages * pageSize >= totalElements && (pages == 0 || (pages - 1) * pageSize < totalElements)
  {
    if totalElements > pageSize {
      var rest := totalElements - pageSize;
      PagesNeededIsCeiling(rest, pageSize);
      var p := PagesNeeded(rest, pageSize);
      assert (p + 1) * pageSize == p * pageSize + pageSize;
    }
  }

  /** At most one page count holds every element and leaves the last page non-empty. */
  lemma CeilingIsUnique(totalElements: nat, pageSize: nat, a: nat, b: nat)
    requires a * pageSize >= totalElements && (a == 0 || (a - 1) * pageSize < totalElements)
    requires b * pageSize >= totalElements && (b == 0 || (b - 1) * pageSize < totalElements)
    ensures a == b
  {
    if a < b {
      MulMonotonic(a, b - 1, pageSize);
    } else if b < a {
      MulMonotonic(b, a - 1, pageSize);
    }
  }

  /** The arithmetic page count agrees with filling the pages one at a time. */
  lemma TotalPagesCountsPages(totalElements: nat, pageSize: nat)
    requires pageSize > 0
    ensures TotalPages(totalElements, pageSize) == PagesNeeded(totalElements, pageSize)
  {
    PagesNeededIsCeiling(totalElements, pageSize);
    CeilingIsUnique(totalElements, pageSize, TotalPages(totalElements, pageSize), PagesNeeded(totalElements, pageSize));
  }

  //--------------------------------------------------------------------------
  // The computation
  //--------------------------------------------------------------------------

  /**
   Builds the response for one page: `content`, `pageNumber`, `pageSize` and
   `totalElements` are passed through unchanged; the page count is the
   ceiling of `totalElements / pageSize`; there is a previous page whenever
   this is not page 0, and a next page exactly when some element lies beyond
   the end of this page.
   */
  function Paginate<T>(content: seq<T>, pageNumber: nat, pageSize: nat, totalElements: nat): (r: PaginationResponse<T>)
    requires pageSize > 0
    ensures r.content == content && r.pageNumber == pageNumber
    ensures r.pageSize == pageSize && r.totalElements == totalElements
    ensures r.totalPages * pageSize >= totalElements
    ensures r.totalPages == 0 || (r.totalPages - 1) * pageSize < totalElements
    ensures r.hasPreviousPage <==> pageNumber > 0
    ensures r.hasNextPage <==> (pageNumber + 1) * pageSize < totalElements
  {
    var totalPages := TotalPages(totalElements, pageSize);
    MorePagesThan(totalElements, pageSize, pageNumber + 1);
    PaginationResponse(
      content,
      pageNumber,
      pageSize,
      totalElements,
      totalPages,
      pageNumber > 0,
      pageNumber < totalPages - 1)
  }

  //--------------------------------------------------------------------------
  // Properties of the flags
  //--------------------------------------------------------------------------

  /** With no elements there are no pages and never a next page. */
  lemma NoElementsNoPages<T>(content: seq<T>, pageNumber: nat, pageSize: nat)
    requires pageSize > 0
    ensures Paginate(content, pageNumber, pageSize, 0).totalPages == 0
    ensures !Paginate(content, pageNumber, pageSize, 0).hasNextPage
  {
  }

  /**
   The flags follow the page count: there is a next page exactly below the
   last page, so none on the last page or beyond it, and the previous-page
   flag ignores both the content and the page count.
   */
  lemma FlagsAgainstPageCount<T>(content: seq<T>, pageNumber: nat, pageSize: nat, totalElements: nat)
    requires pageSize > 0
    ensures var r := Paginate(content, pageNumber, pageSize, totalElements);
      && (r.hasNextPage <==> pageNumber + 1 < r.totalPages)
      && (pageNumber + 1 >= r.totalPages ==> !r.hasNextPage)
      && (r.hasPreviousPage <==> pageNumber > 0)
      && (r.totalPages == TotalPages(totalElements, pageSize))
  {
  }

  //--------------------------------------------------------------------------
  // Pagination over a paged scan
  //--------------------------------------------------------------------------

  function Min(a: int, b: int): int { if a <= b then a else b }

  /**
   The content of page `pageNumber` of a scan that yields `all` in order:
   the run of at most `pageSize` elements that starts at offset
   `pageNumber * pageSize`, empty past the end.
   */
  function PageOf<T>(all: seq<T>, pageNumber: nat, pageSize: nat): (page: seq<T>)
    requires pageSize > 0
    ensures |page| <= pageSize
    ensures pageNumber * pageSize >= |all| ==> page == []
    ensures pageNumber * pageSize < |all| ==> pageNumber * pageSize + |page| <= |all|
    ensures pageNumber * pageSize < |all| ==>
      && page == all[pageNumber * pageSize .. pageNumber * pageSize + |page|]
      && (|page| == pageSize || pageNumber * pageSize + |page| == |all|)
  {
    var start := pageNumber * pageSize;
    if start >= |all| then [] else all[start .. Min(start + pageSize, |all|)]
  }

  /**
   Paginating page `pageNumber` of a scan with its length as the total: the
   content is non-empty exactly on the pages below the page count, every page
   that has a next one is full, and the last page holds the remainder.
   */
  lemma PaginateScan<T>(all: seq<T>, pageNumber: nat, pageSize: nat)
    requires pageSize > 0
    ensures var r := Paginate(PageOf(all, pageNumber, pageSize), pageNumber, pageSize, |all|);
      && (|r.content| > 0 <==> pageNumber < r.totalPages)
      && (r.hasNextPage ==> |r.content| == pageSize)
      && (r.totalPages > 0 && pageNumber == r.totalPages - 1 ==>
            |r.content| == |all| - (r.totalPages - 1) * pageSize)
  {
    var page := PageOf(all, pageNumber, pageSize);
    var pages := TotalPages(|all|, pageSize);
    var start := pageNumber * pageSize;
    MorePagesThan(|all|, pageSize, pageNumber);
    assert |page| > 0 <==> start < |all|;
    assert (pageNumber + 1) * pageSize == start + pageSize;
    if pages > 0 && pageNumber == pages - 1 {
      assert pages * pageSize == start + pageSize;
    }
  }

  /** The worked scenarios: 25 elements in pages of 10, and an empty store. */
  lemma Scenarios<T>(all: seq<T>)
    requires |all| == 25
    ensures var first := Paginate(PageOf(all, 0, 10), 0, 10, 25);
      first.totalPages == 3 && !first.hasPreviousPage && first.hasNextPage
    ensures var last := Paginate(PageOf(all, 2, 10), 2, 10, 25);
      |last.content| == 5 && !last.hasNextPage && last.hasPreviousPage
    ensures var none := Paginate(PageOf(all[..0], 0, 10), 0, 10, 0);
      none.totalPages == 0 && none.content == [] && !none.hasNextPage && !none.hasPreviousPage
  {
  }

  //--------------------------------------------------------------------------
  // The response as the source's constructor builds it
  //--------------------------------------------------------------------------

  /**
   `paginate` composed with the seven-argument constructor as it is written:
   the constructor's body is empty, so every field keeps Java's default value
   (`null`, `0`, `false`); the `null` content list is shown as the empty sequence.
   Whatever the arguments, the response reports no elements, no pages and no
   neighbouring pages.
   */
  function PaginateAsWritten<T>(content: seq<T>, pageNumber: nat, pageSize: nat, totalElements: nat): (r: PaginationResponse<T>)
    requires pageSize > 0
    ensures r.totalElements == 0 && r.totalPages == 0
    ensures !r.hasPreviousPage && !r.hasNextPage
  {
    PaginationResponse([], 0, 0, 0, 0, false, false)
  }

  /** On the first of three pages, the as-written response loses the page count and the next-page flag. */
  lemma AsWrittenDropsFields<T>(content: seq<T>)
    ensures PaginateAsWritten(content, 0, 10, 25).totalPages == 0
    ensures Paginate(content, 0, 10, 25).totalPages == 3
    ensures Paginate(content, 0, 10, 25).hasNextPage && !PaginateAsWritten(content, 0, 10, 25).hasNextPage
  {
  }

}
