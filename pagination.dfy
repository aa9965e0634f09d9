/**
 * The `Paginator` helper: the page count of a listing and the window of page
 * links around the current page. The HTML markup and the base URL of the links
 * are not modelled; a link is the page it points to and, for a numbered link,
 * whether it is marked as the current page.
 */
module Pagination {
  import opened Php

  datatype PageLink = Previous(page: int) | Page(page: int, active: bool) | Next(page: int)

  /** `max(1, (int)ceil($total / $perPage))`. */
  function TotalPages(total: int, perPage: int): (t: int)
    requires perPage > 0
    ensures t >= 1
    ensures total > 0 ==> (t - 1) * perPage < total <= t * perPage
    ensures t == 1 <==> total <= perPage
  {
    var q := CeilDiv(total, perPage);
    if q <= 1 then
      assert total <= perPage;
      1
    else
      assert total > perPage by {
        assert (q - 1) * perPage >= perPage;
      }
      q
  }

  /** The numbered links for pages `lo` to `hi` in ascending order, the current page marked active. */
  function Window(lo: int, hi: int, current: int): (r: seq<PageLink>)
    ensures |r| == Max(0, hi - lo + 1)
    ensures forall k :: 0 <= k < |r| ==> r[k] == Page(lo + k, lo + k == current)
    decreases hi - lo
  {
    if lo > hi then [] else [Page(lo, lo == current)] + Window(lo + 1, hi, current)
  }

  lemma {:induction false} WindowGrows(lo: int, hi: int, current: int)
    requires lo <= hi + 1
    ensures Window(lo, hi + 1, current) == Window(lo, hi, current) + [Page(hi + 1, hi + 1 == current)]
  {
    var w, w' := Window(lo, hi, current), Window(lo, hi + 1, current);
    assert |w'| == |w| + 1;
    forall k | 0 <= k < |w'|
      ensures w'[k] == (w + [Page(hi + 1, hi + 1 == current)])[k]
    {
    }
  }

  lemma WindowsOfNoPages(lo: int, hi: int, hi': int, current: int)
    requires hi == hi' || (hi < lo && hi' < lo)
    ensures Window(lo, hi, current) == Window(lo, hi', current)
  {
  }

  /**
   * The links of a listing: nothing when there is a single page; otherwise a
   * link to the previous page when there is one, the pages from two before to
   * two after the current one that exist, and a link to the next page when there is one.
   */
  function LinkList(current: int, totalPages: int): seq<PageLink> {
    if totalPages <= 1 then []
    else
      (if current > 1 then [Previous(current - 1)] else [])
      + Window(Max(1, current - 2), Min(totalPages, current + 2), current)
      + (if current < totalPages then [Next(current + 1)] else [])
  }

  /**
   * What the links of page `current` out of `totalPages` should be: the numbered
   * links are exactly the existing pages within two of the current one, in
   * ascending order, only the current page is active, and there is a previous
   * (next) link, to the neighbouring page, exactly when the current page is not the first (last).
   */
  ghost predicate WellFormedLinks(links: seq<PageLink>, current: int, totalPages: int) {
    && (forall i :: 0 <= i < |links| && links[i].Page? ==>
          1 <= links[i].page <= totalPages && current - 2 <= links[i].page <= current + 2
          && (links[i].active <==> links[i].page == current))
    && (forall p :: 1 <= p <= totalPages && current - 2 <= p <= current + 2 ==> Lists(links, p, current))
    && (forall i, j :: 0 <= i < j < |links| && links[i].Page? && links[j].Page? ==>
          links[i].page < links[j].page)
    && ((exists i :: 0 <= i < |links| && links[i].Previous?) <==> current > 1)
    && (forall i :: 0 <= i < |links| && links[i].Previous? ==> i == 0 && links[i].page == current - 1)
    && ((exists i :: 0 <= i < |links| && links[i].Next?) <==> current < totalPages)
    && (forall i :: 0 <= i < |links| && links[i].Next? ==> i == |links| - 1 && links[i].page == current + 1)
  }

  /** `links` has a numbered link to page `p`, active exactly when `p` is the current page. */
  ghost predicate Lists(links: seq<PageLink>, p: int, current: int) {
    exists i :: 0 <= i < |links| && links[i] == Page(p, p == current)
  }

  /** Where each kind of link sits in `LinkList`. */
  lemma LinkListShape(current: int, totalPages: int)
    requires current >= 1 && totalPages > 1
    ensures var links := LinkList(current, totalPages);
      var before := if current > 1 then 1 else 0;
      var lo, hi := Max(1, current - 2), Min(totalPages, current + 2);
      && |links| == before + Max(0, hi - lo + 1) + (if current < totalPages then 1 else 0)
      && (forall i :: 0 <= i < before ==> links[i] == Previous(current - 1))
      && (forall i :: before <= i < before + Max(0, hi - lo + 1) ==>
            links[i] == Page(lo + i - before, lo + i - before == current))
      && (forall i :: before + Max(0, hi - lo + 1) <= i < |links| ==> links[i] == Next(current + 1))
  {
    var links := LinkList(current, totalPages);
    var prev: seq<PageLink> := if current > 1 then [Previous(current - 1)] else [];
    var lo, hi := Max(1, current - 2), Min(totalPages, current + 2);
    var window := Window(lo, hi, current);
    var next: seq<PageLink> := if current < totalPages then [Next(current + 1)] else [];
    assert links == prev + window + next;
    forall i | |prev| <= i < |prev| + |window|
      ensures links[i] == window[i - |prev|]
    {
    }
  }

  /** With more than one page, the links of every page number are well formed. */
  lemma LinksAreWellFormed(current: int, totalPages: int)
    requires current >= 1 && totalPages > 1
    ensures WellFormedLinks(LinkList(current, totalPages), current, totalPages)
  {
    var links := LinkList(current, totalPages);
    LinkListShape(current, totalPages);
    var before := if current > 1 then 1 else 0;
    var lo := Max(1, current - 2);
    forall p | 1 <= p <= totalPages && current - 2 <= p <= current + 2
      ensures Lists(links, p, current)
    {
      assert links[before + p - lo] == Page(p, p == current);
    }
    if current > 1 {
      assert links[0].Previous?;
    }
    if current < totalPages {
      assert links[|links| - 1].Next?;
    }
  }

  /** A single page has no links at all. */
  lemma NoLinksForOnePage(current: int, totalPages: int)
    requires totalPages <= 1
    ensures LinkList(current, totalPages) == []
  {
  }

  // ---------------------------------------------------------------------
  // The page window as the source writes it, with PHP's `range()`.
  // ---------------------------------------------------------------------

  /** PHP's `range($lo, $hi)` on integers: ascending when `lo <= hi`, descending otherwise. */
  function PhpRange(lo: int, hi: int): (r: seq<int>)
    ensures |r| == (if lo <= hi then hi - lo + 1 else lo - hi + 1)
    ensures forall k :: 0 <= k < |r| ==> r[k] == if lo <= hi then lo + k else lo - k
    decreases if lo <= hi then hi - lo else lo - hi
  {
    if lo == hi then [lo]
    else if lo < hi then [lo] + PhpRange(lo + 1, hi)
    else [lo] + PhpRange(lo - 1, hi)
  }

  /** `Paginator::links` as written: the numbered pages are `range(max(1, cur-2), min(T, cur+2))`. */
  function LinkListAsWritten(current: int, totalPages: int): seq<PageLink> {
    if totalPages <= 1 then []
    else
      var pages := PhpRange(Max(1, current - 2), Min(totalPages, current + 2));
      (if current > 1 then [Previous(current - 1)] else [])
      + seq(|pages|, k requires 0 <= k < |pages| => Page(pages[k], pages[k] == current))
      + (if current < totalPages then [Next(current + 1)] else [])
  }

  /** Up to two pages past the last one, the written window and the intended one agree. */
  lemma AsWrittenAgreesNearRange(current: int, totalPages: int)
    requires current >= 1 && current <= totalPages + 2
    ensures LinkListAsWritten(current, totalPages) == LinkList(current, totalPages)
  {
    if totalPages > 1 {
      var lo, hi := Max(1, current - 2), Min(totalPages, current + 2);
      var pages := PhpRange(lo, hi);
      assert seq(|pages|, k requires 0 <= k < |pages| => Page(pages[k], pages[k] == current))
          == Window(lo, hi, current);
    }
  }

  /**
   * Requested page 10 of a three-page listing: `range(8, 3)` counts down, so the
   * written links point to the pages 8, 7, 6, 5 and 4 that do not exist, in descending order.
   */
  lemma LinksPastLastPage()
    ensures var links := LinkListAsWritten(10, 3);
      && |links| == 7
      && links[0] == Previous(9)
      && links[1] == Page(8, false)
      && links[6] == Page(3, false)
      && !WellFormedLinks(links, 10, 3)
  {
    var links := LinkListAsWritten(10, 3);
    var pages := PhpRange(8, 3);
    assert |pages| == 6 && pages[0] == 8 && pages[5] == 3;
    assert links[1].Page? && links[1].page == 8;
  }

  // ---------------------------------------------------------------------
  // The paginator object.
  // ---------------------------------------------------------------------

  class Paginator {
    var total: int
    var perPage: int
    var currentPage: int
    var totalPages: int

    ghost predicate Valid()
      reads this
    {
      perPage > 0 && currentPage >= 1 && totalPages == TotalPages(total, perPage)
    }

    /** The requested page is raised to 1 but never lowered to the last page. */
    constructor (total: int, perPage: int, currentPage: int)
      requires perPage > 0
      ensures Valid()
      ensures this.total == total && this.perPage == perPage
      ensures this.currentPage == Max(1, currentPage)
      ensures this.totalPages == TotalPages(total, perPage)
    {
      this.total := total;
      this.perPage := perPage;
      this.currentPage := Max(1, currentPage);
      this.totalPages := TotalPages(total, perPage);
    }

    /** There is more than one page exactly when there are more items than fit on one page. */
    function HasPages(): (b: bool)
      reads this
      requires Valid()
      ensures b <==> total > perPage
    {
      totalPages > 1
    }

    /** `links`, with the numbered window limited to the pages that exist (see the findings). */
    method Links() returns (links: seq<PageLink>)
      ensures links == LinkList(currentPage, totalPages)
    {
      var current, last := currentPage, totalPages;
      if last <= 1 {
        return [];
      }
      var previous: seq<PageLink> := [];
      if current > 1 {
        previous := [Previous(current - 1)];
      }
      var lo, hi := Max(1, current - 2), Min(last, current + 2);
      var numbered: seq<PageLink> := [];
      var p := lo;
      while p <= hi
        invariant lo <= p && (p <= hi + 1 || p == lo)
        invariant numbered == Window(lo, p - 1, current)
      {
        WindowGrows(lo, p - 1, current);
        numbered := numbered + [Page(p, p == current)];
        p := p + 1;
      }
      WindowsOfNoPages(lo, p - 1, hi, current);
      var next: seq<PageLink> := [];
      if current < last {
        next := [Next(current + 1)];
      }
      links := previous + numbered + next;
    }
  }
}
