/** The request handler: the blank-name guard, the search, the pagination
    loop and the normalizer, in that order. The storefront is abstracted to
    whether its search box can be found and to the result pages it would
    show for a query. */
module BookApp {
  import opened Text
  import opened SearchRequest
  import opened Extraction
  import opened Pagination
  import opened Normalizer

  datatype Site = Site(searchBoxPresent: bool, resultsFor: string -> seq<Page>)

  /** What the request ends in: the blank-name error, or the outcome of the
      normalizer, after a search error message when the search box was not
      found. */
  datatype Response =
    | BlankName
    | Shown(searchError: bool, result: Outcome)

  /** `scrape_books`: submit the composed query, then collect result pages;
      when the search box cannot be found nothing is collected. */
  method Scrape(site: Site, bookName: string, language: string) returns (searchFailed: bool, books: seq<RawRecord>)
    ensures searchFailed <==> !site.searchBoxPresent
    ensures searchFailed ==> books == []
    ensures !searchFailed ==>
              var pages := site.resultsFor(ComposeQuery(bookName, language));
              exists k :: StopsAfter(pages, k) && books == Gathered(pages, k)
  {
    if !site.searchBoxPresent {
      return true, [];
    }
    var query := ComposeQuery(bookName, language);
    searchFailed := false;
    ghost var taken;
    books, taken := Collect(site.resultsFor(query));
  }

  /** One press of the search button. */
  method Run(site: Site, bookName: string, language: string) returns (resp: Response)
    ensures resp.BlankName? <==> IsBlank(bookName)
    ensures resp.Shown? ==> resp.searchError == !site.searchBoxPresent
    ensures resp.Shown? && resp.searchError ==> resp.result.NoBooksFound?
    ensures resp.Shown? && !resp.searchError ==>
              var pages := site.resultsFor(ComposeQuery(bookName, language));
              exists k :: StopsAfter(pages, k) && Presents(Gathered(pages, k), bookName, resp.result)
  {
    if IsBlank(bookName) {
      return BlankName;
    }
    var searchFailed, raw := Scrape(site, bookName, language);
    var result := Normalize(raw, bookName);
    resp := Shown(searchFailed, result);
    if !searchFailed {
      ghost var pages := site.resultsFor(ComposeQuery(bookName, language));
      ghost var k :| StopsAfter(pages, k) && raw == Gathered(pages, k);
      assert Presents(Gathered(pages, k), bookName, result);
    }
  }
}
