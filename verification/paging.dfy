/**
 * Page arithmetic of the user list: which records a page number shows, how
 * many pages there are, and when the page controls let the page move.
 */
module Paging {

  /** itemsPerPage: the number of records on one page. */
  const PageSize: nat := 10

  function Min(a: int, b: int): (m: int) { if a <= b then a else b }

  function Max(a: int, b: int): (m: int) { if a <= b then b else a }

  /**
   * How Array.prototype.slice (section 23.1.3.28 of ECMA-262) resolves a
   * relative index against a length: a negative index counts back from the
   * end, and the result is clamped into [0, len].
   */
  function ResolveIndex(rel: int, len: nat): (k: nat)
    ensures k <= len
    ensures 0 <= rel ==> k == Min(rel, len)
  {
    if rel < 0 then Max(len + rel, 0) else Min(rel, len)
  }

  /** Array.prototype.slice(start, end) applied to s. */
  function Slice<T>(s: seq<T>, start: int, end: int): (r: seq<T>)
    ensures |r| <= |s|
  {
    var k := ResolveIndex(start, |s|);
    var f := ResolveIndex(end, |s|);
    if k < f then s[k..f] else []
  }

  /** The index of the first record of a page; pages are numbered from 1. */
  function PageStart(page: int): (i: int)
  {
    (page - 1) * PageSize
  }

  /**
   * The records displayUsers shows for a page: at most one page of them,
   * exactly the stretch of s from the page's first index to the next page's,
   * cut off at the end of s, and nothing once the page starts past the end.
   */
  function PageSlice<T>(s: seq<T>, page: int): (r: seq<T>)
    ensures |r| <= PageSize
    ensures 1 <= page ==> r == s[Min(PageStart(page), |s|)..Min(PageStart(page) + PageSize, |s|)]
    ensures 1 <= page ==> (r == [] <==> |s| <= PageStart(page))
  {
    Slice(s, PageStart(page), PageStart(page) + PageSize)
  }

  /**
   * Math.ceil(n / itemsPerPage): the least page count whose pages hold n
   * records. An empty list has 0 pages; there is no floor of 1.
   */
  function TotalPages(n: nat): (r: nat)
    ensures n <= r * PageSize
    ensures r == 0 || (r - 1) * PageSize < n
    ensures r == 0 <==> n == 0
  {
    (n + PageSize - 1) / PageSize
  }

  /** Record i of the list is shown on page i / 10 + 1, at position i % 10, and that page exists. */
  lemma PageOfIndex<T>(s: seq<T>, i: nat)
    requires i < |s|
    ensures 1 <= i / PageSize + 1 <= TotalPages(|s|)
    ensures i % PageSize < |PageSlice(s, i / PageSize + 1)|
    ensures PageSlice(s, i / PageSize + 1)[i % PageSize] == s[i]
  {
    var p := i / PageSize + 1;
    assert PageStart(p) == i - i % PageSize;
  }

  /** A page shows some record exactly when it is one of the TotalPages pages. */
  lemma PageNonEmptyIff<T>(s: seq<T>, page: int)
    requires 1 <= page
    ensures PageSlice(s, page) != [] <==> page <= TotalPages(|s|)
  {
    var t := TotalPages(|s|);
    if page <= t {
      assert (page - 1) * PageSize <= (t - 1) * PageSize;
    } else {
      assert t * PageSize <= (page - 1) * PageSize;
    }
  }

  /** The records of pages 1 to k, page after page. */
  ghost function Pages<T>(s: seq<T>, k: nat): (r: seq<T>)
  {
    if k == 0 then [] else Pages(s, k - 1) + PageSlice(s, k)
  }

  /** Pages 1 to k together show the first k * 10 records, in order. */
  lemma {:induction false} PagesArePrefix<T>(s: seq<T>, k: nat)
    ensures Pages(s, k) == s[..Min(k * PageSize, |s|)]
  {
    if k > 0 {
      PagesArePrefix(s, k - 1);
      assert PageStart(k) == (k - 1) * PageSize;
      var a := Min((k - 1) * PageSize, |s|);
      var b := Min(k * PageSize, |s|);
      assert s[..a] + s[a..b] == s[..b];
    }
  }

  /** Paging through all TotalPages pages shows every record exactly once, in list order. */
  lemma PagesCoverList<T>(s: seq<T>)
    ensures Pages(s, TotalPages(|s|)) == s
  {
    PagesArePrefix(s, TotalPages(|s|));
  }

  /** The guard of the Next listener: there is a later page. */
  predicate CanGoNext(page: int, n: nat)
  {
    page < TotalPages(n)
  }

  /** The guard of the Previous listener: there is an earlier page. */
  predicate CanGoPrev(page: int)
  {
    page > 1
  }

  /** The page is one that exists, or page 1 when there are none. */
  predicate InRange(page: int, n: nat)
  {
    1 <= page <= Max(1, TotalPages(n))
  }

  /** updatePagination renders the Previous and Next buttons only when there is more than one page. */
  predicate ButtonsShown(n: nat)
  {
    TotalPages(n) > 1
  }

  predicate NextDisabled(page: int, n: nat)
  {
    page == TotalPages(n)
  }

  predicate PrevDisabled(page: int)
  {
    page == 1
  }

  /**
   * While the page is in range, the Next and Previous
   * listeners move the page exactly when the matching button is rendered
   * and enabled.
   */
  lemma GuardsMatchButtons(page: int, n: nat)
    requires InRange(page, n)
    ensures CanGoNext(page, n) <==> ButtonsShown(n) && !NextDisabled(page, n)
    ensures CanGoPrev(page) <==> ButtonsShown(n) && !PrevDisabled(page)
  {
  }
}
