/** The pagination loop of the scraper: up to three result pages, stopping
    once 30 records are collected, when the next-page control cannot be used,
    or when a page's results never appear. The browser is abstracted to the
    sequence of pages the site would show, one after the other. */
module Pagination {
  import opened Extraction

  const MAX_PAGES: nat := 3
  const SOFT_CAP: nat := 30

  /** One results page: whether the wait for a result item succeeds, the
      items then visible, and whether the next-page control is found
      clickable and the click goes through. */
  datatype Page = Page(resultsAppear: bool, items: seq<Item>, nextClickable: bool)

  /** The records one page contributes, one per item, in page order. */
  function PageRecords(p: Page): (r: seq<RawRecord>)
    ensures |r| == |p.items|
    ensures forall i :: 0 <= i < |r| ==> r[i] == ExtractBookInfo(p.items[i])
  {
    seq(|p.items|, i requires 0 <= i < |p.items| => ExtractBookInfo(p.items[i]))
  }

  /** The records of the first `k` pages, whole pages in page order. */
  function Gathered(pages: seq<Page>, k: nat): seq<RawRecord>
    requires k <= |pages|
  {
    if k == 0 then [] else Gathered(pages, k - 1) + PageRecords(pages[k - 1])
  }

  /** Collection takes exactly the first `k` pages: each of them showed
      results; every page before the last one left the total under the cap
      and had a usable next control; and, unless the page limit was reached,
      collection ended because the last page reached the cap or had no usable
      next control, or because the following page's results never appeared. */
  predicate StopsAfter(pages: seq<Page>, k: nat)
  {
    && k <= MAX_PAGES && k <= |pages|
    && (forall j :: 0 <= j < k ==> pages[j].resultsAppear)
    && (forall j :: 0 < j < k ==> |Gathered(pages, j)| < SOFT_CAP && pages[j - 1].nextClickable)
    && (k < MAX_PAGES ==>
          || (k > 0 && (|Gathered(pages, k)| >= SOFT_CAP || !pages[k - 1].nextClickable))
          || k == |pages| || !pages[k].resultsAppear)
  }

  /** The inner loop over a page's items: one record per item appended, in
      page order. */
  method AppendPage(books: seq<RawRecord>, p: Page) returns (out: seq<RawRecord>)
    ensures out == books + PageRecords(p)
  {
    out := books;
    for i := 0 to |p.items|
      invariant out == books + PageRecords(p)[..i]
    {
      out := out + [ExtractBookInfo(p.items[i])];
      assert PageRecords(p)[..i + 1] == PageRecords(p)[..i] + [ExtractBookInfo(p.items[i])];
    }
    assert PageRecords(p)[..|p.items|] == PageRecords(p);
  }

  /** The loop of the scraper: no exception escapes it, it returns what it
      collected so far. `taken` is the number of pages whose records were
      collected. */
  method Collect(pages: seq<Page>) returns (books: seq<RawRecord>, ghost taken: nat)
    ensures StopsAfter(pages, taken) && books == Gathered(pages, taken)
  {
    books := [];
    var page := 1;
    while page <= MAX_PAGES
      invariant 1 <= page <= MAX_PAGES + 1 && page - 1 <= |pages|
      invariant books == Gathered(pages, page - 1)
      invariant forall j :: 0 <= j < page - 1 ==> pages[j].resultsAppear
      invariant forall j :: 0 < j < page ==> |Gathered(pages, j)| < SOFT_CAP && pages[j - 1].nextClickable
    {
      // waiting for a result item times out
      if page > |pages| || !pages[page - 1].resultsAppear {
        return books, page - 1;
      }
      books := AppendPage(books, pages[page - 1]);
      if |books| >= SOFT_CAP {
        return books, page;
      }
      // the next control is not clickable, or clicking it fails
      if !pages[page - 1].nextClickable {
        return books, page;
      }
      page := page + 1;
    }
    assert page == MAX_PAGES + 1;
    taken := MAX_PAGES;
  }

  /** The stop rule singles out one page count: the postcondition of
      `Collect` determines its result. */
  lemma StopsAfterUnique(pages: seq<Page>, k1: nat, k2: nat)
    requires StopsAfter(pages, k1) && StopsAfter(pages, k2)
    ensures k1 == k2
  {
  }

  /** The cap is soft: before the last page was taken fewer than 30 records
      had been collected, so the overshoot is less than that page's size. */
  lemma SoftCapOvershoot(pages: seq<Page>, k: nat)
    requires StopsAfter(pages, k) && k > 0
    ensures |Gathered(pages, k - 1)| < SOFT_CAP
    ensures |Gathered(pages, k)| < SOFT_CAP + |pages[k - 1].items|
  {
  }

  /** The collected list is bounded by three pages' worth of items. */
  lemma {:induction false} GatheredBound(pages: seq<Page>, k: nat, perPage: nat)
    requires k <= |pages|
    requires forall j :: 0 <= j < |pages| ==> |pages[j].items| <= perPage
    ensures |Gathered(pages, k)| <= k * perPage
  {
    if k > 0 {
      GatheredBound(pages, k - 1, perPage);
      assert (k - 1) * perPage + perPage == k * perPage;
    }
  }

  lemma CollectBound(pages: seq<Page>, k: nat, perPage: nat)
    requires StopsAfter(pages, k)
    requires forall j :: 0 <= j < |pages| ==> |pages[j].items| <= perPage
    ensures |Gathered(pages, k)| <= MAX_PAGES * perPage
  {
    GatheredBound(pages, k, perPage);
    assert k * perPage <= MAX_PAGES * perPage;
  }

  /** When the results of the first page never appear, nothing is collected. */
  lemma FirstPageMissing(pages: seq<Page>, k: nat)
    requires StopsAfter(pages, k)
    requires |pages| == 0 || !pages[0].resultsAppear
    ensures Gathered(pages, k) == []
  {
  }

  /** Earlier pages' records are a prefix of the collected list. */
  lemma {:induction false} GatheredPrefix(pages: seq<Page>, j: nat, k: nat)
    requires j <= k <= |pages|
    ensures Gathered(pages, j) <= Gathered(pages, k)
    decreases k
  {
    if j < k {
      GatheredPrefix(pages, j, k - 1);
    }
  }
}
