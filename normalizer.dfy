/** The result normalizer: attach the searched name, clean and convert the
    price column, drop rows without a price, sort by price, format prices,
    take the three cheapest and compute the lowest and average price. */
module Normalizer {
  import opened Base
  import opened Extraction
  import opened PriceText
  import Statistics
  import SearchRequest

  /** A row once `Searched Book` is added and `Price` is converted. */
  datatype PricedRow = PricedRow(
    searchedBook: string,
    title: Option<string>,
    author: Option<string>,
    price: Option<real>,
    link: Option<string>)

  /** A row that survived the removal of rows without a price. */
  datatype Book = Book(
    searchedBook: string,
    title: Option<string>,
    author: Option<string>,
    price: real,
    link: Option<string>)

  /** A row of the final table: the book (its price is `NumericPrice`) and
      the formatted text that replaced `Price`. */
  datatype Listing = Listing(book: Book, priceText: string)

  /** The statistics shown beside the table. `fallback` is the branch taken
      when no price is positive; the shown texts are `Format(lowest)` and
      `Format(average)`. */
  datatype Stats = Stats(fallback: bool, lowest: real, average: real)

  /** The column beside the table: the three cheapest rows and the
      statistics. */
  datatype Summary = Summary(top3: seq<Listing>, stats: Stats)

  /** What the page ends up showing. With `Found`, `summary` is `None` when
      the title lookup of the top three fails, and the page shows the error
      of the outer handler in its place. */
  datatype Outcome =
    | NoBooksFound
    | NoValidPrices
    | Found(rows: seq<Listing>, csvName: string, summary: Option<Summary>)

  /** The two column assignments: every row gets the searched name, and its
      price text is cleaned and converted. */
  function CleanRows(raw: seq<RawRecord>, bookName: string): (r: seq<PricedRow>)
    ensures |r| == |raw|
    ensures forall i :: 0 <= i < |r| ==>
              r[i] == PricedRow(bookName, raw[i].title, raw[i].author, CleanPrice(raw[i].price), raw[i].link)
  {
    seq(|raw|, i requires 0 <= i < |raw| =>
      PricedRow(bookName, raw[i].title, raw[i].author, CleanPrice(raw[i].price), raw[i].link))
  }

  predicate HasPrice(row: PricedRow)
  {
    row.price.Some?
  }

  function AsRow(b: Book): PricedRow
  {
    PricedRow(b.searchedBook, b.title, b.author, Some(b.price), b.link)
  }

  function AsRows(bs: seq<Book>): (r: seq<PricedRow>)
    ensures |r| == |bs|
  {
    if bs == [] then [] else [AsRow(bs[0])] + AsRows(bs[1..])
  }

  /** `dropna(subset=['Price'])`: exactly the rows that have a price, in
      their original order. */
  function DropUnpriced(rows: seq<PricedRow>): (r: seq<Book>)
    ensures AsRows(r) == Filter(rows, HasPrice)
  {
    if rows == [] then []
    else
      var rest := DropUnpriced(rows[1..]);
      match rows[0].price
      case None => rest
      case Some(p) =>
        var b := Book(rows[0].searchedBook, rows[0].title, rows[0].author, p, rows[0].link);
        assert ([b] + rest)[1..] == rest;
        [b] + rest
  }

  /** The survivors are a subsequence of the rows, no more numerous, and
      empty exactly when no row has a price. */
  lemma DropUnpricedContents(rows: seq<PricedRow>)
    ensures IsSubsequence(AsRows(DropUnpriced(rows)), rows)
    ensures |DropUnpriced(rows)| <= |rows|
    ensures DropUnpriced(rows) == [] <==> forall i :: 0 <= i < |rows| ==> !HasPrice(rows[i])
  {
    FilterContents(rows, HasPrice);
    FilterEmptyIff(rows, HasPrice);
  }

  /** When the price of exactly one row fails to convert, exactly that row
      is dropped. */
  lemma DropOneUnpriced(rows: seq<PricedRow>, j: nat)
    requires j < |rows| && !HasPrice(rows[j])
    requires forall i :: 0 <= i < |rows| && i != j ==> HasPrice(rows[i])
    ensures |DropUnpriced(rows)| == |rows| - 1
  {
    var before, after := rows[..j], rows[j + 1..];
    assert rows == before + ([rows[j]] + after);
    FilterConcat(before, [rows[j]] + after, HasPrice);
    FilterConcat([rows[j]], after, HasPrice);
    assert Filter([rows[j]], HasPrice) == [] by {
      assert [rows[j]][1..] == [];
    }
    assert forall i :: 0 <= i < |before| ==> before[i] == rows[i];
    assert forall i :: 0 <= i < |after| ==> after[i] == rows[j + 1 + i];
    FilterKeepsAll(before, HasPrice);
    FilterKeepsAll(after, HasPrice);
  }

  /** The rows that reach the table, before sorting. */
  function Survivors(raw: seq<RawRecord>, bookName: string): seq<Book>
  {
    DropUnpriced(CleanRows(raw, bookName))
  }

  predicate SortedByPrice(bs: seq<Book>)
  {
    forall i, j :: 0 <= i < j < |bs| ==> bs[i].price <= bs[j].price
  }

  function InsertByPrice(b: Book, s: seq<Book>): (r: seq<Book>)
    requires SortedByPrice(s)
    ensures SortedByPrice(r)
    ensures multiset(r) == multiset(s) + multiset{b}
    ensures r != [] && (r[0] == b || (s != [] && r[0] == s[0]))
  {
    if s == [] then [b]
    else if b.price <= s[0].price then
      SortedCons(b, s);
      [b] + s
    else
      var rest := InsertByPrice(b, s[1..]);
      assert s == [s[0]] + s[1..];
      SortedCons(s[0], rest);
      [s[0]] + rest
  }

  /** A book no dearer than the first of a sorted list can go in front. */
  lemma SortedCons(b: Book, s: seq<Book>)
    requires SortedByPrice(s)
    requires s != [] ==> b.price <= s[0].price
    ensures SortedByPrice([b] + s)
  {
    var r := [b] + s;
    forall i, j | 0 <= i < j < |r| ensures r[i].price <= r[j].price {
      if i > 0 {
        assert r[i] == s[i - 1] && r[j] == s[j - 1];
      } else {
        assert r[j] == s[j - 1];
      }
    }
  }

  /** `sort_values(by='Price')`: a permutation in non-decreasing price order.
      Which of several equally priced rows comes first is not promised. */
  function SortByPrice(s: seq<Book>): (r: seq<Book>)
    ensures SortedByPrice(r)
    ensures multiset(r) == multiset(s)
  {
    if s == [] then []
    else
      assert s == [s[0]] + s[1..];
      InsertByPrice(s[0], SortByPrice(s[1..]))
  }

  function BooksOf(rows: seq<Listing>): (r: seq<Book>)
    ensures |r| == |rows|
    ensures forall i :: 0 <= i < |r| ==> r[i] == rows[i].book
  {
    seq(|rows|, i requires 0 <= i < |rows| => rows[i].book)
  }

  /** The formatted `Price` column beside the numeric one. */
  function FormatPrices(bs: seq<Book>): (r: seq<Listing>)
    ensures BooksOf(r) == bs
    ensures forall i :: 0 <= i < |r| ==> r[i].priceText == Format(bs[i].price)
  {
    seq(|bs|, i requires 0 <= i < |bs| => Listing(bs[i], Format(bs[i].price)))
  }

  /** `head(3)`: the first three rows, or all of them when there are fewer. */
  function TopThree<T>(rows: seq<T>): (r: seq<T>)
    ensures r <= rows && |r| <= 3
    ensures |rows| >= 3 ==> |r| == 3
    ensures |rows| < 3 ==> r == rows
  {
    rows[..if |rows| < 3 then |rows| else 3]
  }

  /** The first `min(3, n)` rows of the sorted table are the cheapest: no
      row left out is cheaper than any row kept. */
  lemma TopThreeCheapest(rows: seq<Listing>)
    requires SortedByPrice(BooksOf(rows))
    ensures var top := TopThree(rows);
      && |top| == (if |rows| < 3 then |rows| else 3)
      && top == rows[..|top|]
      && forall i, j :: 0 <= i < |top| <= j < |rows| ==> top[i].book.price <= rows[j].book.price
  {
    var books := BooksOf(rows);
    forall i, j | 0 <= i < |TopThree(rows)| <= j < |rows|
      ensures TopThree(rows)[i].book.price <= rows[j].book.price
    {
      assert TopThree(rows)[i] == rows[i];
      assert books[i].price <= books[j].price;
    }
  }

  predicate IsPositive(b: Book)
  {
    b.price > 0.0
  }

  function Prices(bs: seq<Book>): (r: seq<real>)
    ensures |r| == |bs|
    ensures forall i :: 0 <= i < |r| ==> r[i] == bs[i].price
  {
    seq(|bs|, i requires 0 <= i < |bs| => bs[i].price)
  }

  /** `df[df['NumericPrice'] > 0]`: rows of the table, each priced above
      zero. */
  function PositiveBooks(bs: seq<Book>): (r: seq<Book>)
    ensures |r| <= |bs|
    ensures forall i :: 0 <= i < |r| ==> r[i].price > 0.0
  {
    Filter(bs, IsPositive)
  }

  /** The positive set is exactly the rows priced above zero, in order and
      with their multiplicities. */
  lemma PositiveBooksContents(bs: seq<Book>)
    ensures IsSubsequence(PositiveBooks(bs), bs)
    ensures forall b :: multiset(PositiveBooks(bs))[b] == if b.price > 0.0 then multiset(bs)[b] else 0
    ensures PositiveBooks(bs) == [] <==> forall i :: 0 <= i < |bs| ==> bs[i].price <= 0.0
  {
    FilterContents(bs, IsPositive);
    FilterEmptyIff(bs, IsPositive);
  }

  /** The prices the fallback branch averages: each formatted price with the
      rupee sign and commas removed, converted back to a number. */
  function ReparsedPrices(bs: seq<Book>): (r: seq<real>)
    ensures |r| == |bs|
    ensures forall i :: 0 <= i < |r| ==> r[i] == Rounded(bs[i].price)
  {
    seq(|bs|, i requires 0 <= i < |bs| => Reparse(bs[i].price))
  }

  /** The lowest and average price: over the positive prices when there is
      one; otherwise the price of the first row and the mean of the prices
      read back from their formatted text. */
  function ComputeStatistics(bs: seq<Book>): (r: Stats)
    requires bs != []
    ensures r.fallback <==> forall i :: 0 <= i < |bs| ==> bs[i].price <= 0.0
    ensures !r.fallback ==>
              && (exists i :: 0 <= i < |bs| && bs[i].price > 0.0 && bs[i].price == r.lowest)
              && (forall i :: 0 <= i < |bs| && bs[i].price > 0.0 ==> r.lowest <= bs[i].price)
              && r.lowest <= r.average
              && (exists i :: 0 <= i < |bs| && bs[i].price > 0.0 && r.average <= bs[i].price)
              && PositiveBooks(bs) != []
              && r.average == Statistics.Mean(Prices(PositiveBooks(bs)))
    ensures r.fallback ==>
              && r.lowest == bs[0].price && r.lowest <= 0.0
              && r.average == Statistics.Mean(ReparsedPrices(bs)) && r.average <= 0.0
  {
    var positive := PositiveBooks(bs);
    PositiveBooksContents(bs);
    if positive != [] then
      PositiveStatsFacts(bs);
      Stats(false, Statistics.Min(Prices(positive)), Statistics.Mean(Prices(positive)))
    else
      FallbackStatsFacts(bs);
      Stats(true, bs[0].price, Statistics.Mean(ReparsedPrices(bs)))
  }

  lemma PositiveStatsFacts(bs: seq<Book>)
    requires PositiveBooks(bs) != []
    ensures var prices := Prices(PositiveBooks(bs));
      var lowest, average := Statistics.Min(prices), Statistics.Mean(prices);
      && (exists i :: 0 <= i < |bs| && bs[i].price > 0.0 && bs[i].price == lowest)
      && (forall i :: 0 <= i < |bs| && bs[i].price > 0.0 ==> lowest <= bs[i].price)
      && lowest <= average
      && (exists i :: 0 <= i < |bs| && bs[i].price > 0.0 && average <= bs[i].price)
  {
    var positive := PositiveBooks(bs);
    var prices := Prices(positive);
    var lowest, highest := Statistics.Min(prices), Statistics.Max(prices);
    PositivePriceIn(bs, lowest);
    PositivePriceIn(bs, highest);
    forall i | 0 <= i < |bs| && bs[i].price > 0.0
      ensures lowest <= bs[i].price
    {
      PositiveKept(bs, i);
    }
  }

  /** A price of the positive set is the price of a positive row. */
  lemma PositivePriceIn(bs: seq<Book>, x: real)
    requires x in Prices(PositiveBooks(bs))
    ensures exists i :: 0 <= i < |bs| && bs[i].price > 0.0 && bs[i].price == x
  {
    var positive := PositiveBooks(bs);
    PositiveBooksContents(bs);
    SubsequenceFacts(positive, bs);
    var k :| 0 <= k < |positive| && Prices(positive)[k] == x;
    assert positive[k] in bs;
    var i :| 0 <= i < |bs| && bs[i] == positive[k];
  }

  /** A positive row's price is in the positive set. */
  lemma PositiveKept(bs: seq<Book>, i: nat)
    requires i < |bs| && bs[i].price > 0.0
    ensures bs[i].price in Prices(PositiveBooks(bs))
  {
    var positive := PositiveBooks(bs);
    PositiveBooksContents(bs);
    assert multiset(positive)[bs[i]] == multiset(bs)[bs[i]];
    assert bs[i] in positive;
    var j :| 0 <= j < |positive| && positive[j] == bs[i];
    assert Prices(positive)[j] == bs[i].price;
  }

  lemma FallbackStatsFacts(bs: seq<Book>)
    requires bs != []
    requires forall i :: 0 <= i < |bs| ==> bs[i].price <= 0.0
    ensures Statistics.Mean(ReparsedPrices(bs)) <= 0.0
  {
    var reparsed := ReparsedPrices(bs);
    forall i | 0 <= i < |bs| ensures Statistics.Min(reparsed) <= reparsed[i] <= 0.0 {
      RoundedBounds(bs[i].price);
    }
    Statistics.AverageBetween(reparsed, Statistics.Min(reparsed), 0.0);
  }

  /** Zero-priced rows are left out of both statistics: prices 0, 0 and 50
      give a lowest and an average of 50. */
  lemma ZeroPricesExcluded(a: Book, b: Book, c: Book)
    requires a.price == 0.0 && b.price == 0.0 && c.price == 50.0
    ensures var s := ComputeStatistics([a, b, c]);
      !s.fallback && s.lowest == 50.0 && s.average == 50.0
  {
    var bs := [a, b, c];
    assert [c][1..] == [] && [b, c][1..] == [c] && bs[1..] == [b, c];
    assert Filter([c], IsPositive) == [c];
    assert Filter([b, c], IsPositive) == [c];
    assert PositiveBooks(bs) == [c];
    assert Prices([c]) == [50.0];
    assert Statistics.Sum([50.0]) == 50.0 by {
      assert [50.0][1..] == [];
    }
  }

  /** `top3["Link"] == x`: the rows whose link equals `x`. A missing link
      is NaN, which equals nothing, itself included. */
  function RowsLinkedTo(top: seq<Listing>, x: Option<string>): (r: seq<Listing>)
    ensures x.None? ==> r == []
    ensures forall k :: 0 <= k < |r| ==> r[k] in top && r[k].book.link == x
    ensures forall k :: 0 <= k < |top| && x.Some? && top[k].book.link == x ==> top[k] in r
  {
    if top == [] then []
    else
      var rest := RowsLinkedTo(top[1..], x);
      var r := if x.Some? && top[0].book.link == x then [top[0]] + rest else rest;
      assert forall k :: 1 <= k < |top| ==> top[k] == top[1..][k - 1];
      r
  }

  /** The title shown for a top-three row is looked up by its link:
      `top3["Title"][top3["Link"] == x].values[0]`. A missing link compares
      unequal to every link, the selection is empty and the lookup raises,
      so the top three and the statistics are not shown. */
  predicate HasUnlinkedRow(top: seq<Listing>)
    ensures HasUnlinkedRow(top) <==> exists i :: 0 <= i < |top| && RowsLinkedTo(top, top[i].book.link) == []
  {
    exists i :: 0 <= i < |top| && top[i].book.link.None?
  }

  /** What the page shows for the scraped records `raw`: "no books found"
      exactly when nothing was scraped; "no valid prices" exactly when no
      price text converts; otherwise every surviving row carrying the
      searched name, sorted by price, each with its formatted price, and the
      export file name; then, unless one of the first three rows has no
      link, those three rows and the statistics of the sorted rows. */
  predicate Presents(raw: seq<RawRecord>, bookName: string, out: Outcome)
  {
    && (out.NoBooksFound? <==> raw == [])
    && (out.NoValidPrices? <==>
          raw != [] && forall i :: 0 <= i < |raw| ==> CleanPrice(raw[i].price).None?)
    && (out.Found? ==>
          var books := BooksOf(out.rows);
          && books != []
          && SortedByPrice(books)
          && multiset(books) == multiset(Survivors(raw, bookName))
          && (forall i :: 0 <= i < |out.rows| ==>
                out.rows[i].priceText == Format(books[i].price) && books[i].searchedBook == bookName)
          && out.csvName == SearchRequest.ExportFileName(bookName)
          && (out.summary.None? <==> HasUnlinkedRow(TopThree(out.rows)))
          && (out.summary.Some? ==>
                out.summary.value == Summary(TopThree(out.rows), ComputeStatistics(books))))
  }

  /** The processing after the scrape, one reassignment of the table at a
      time. */
  method Normalize(raw: seq<RawRecord>, bookName: string) returns (out: Outcome)
    ensures Presents(raw, bookName, out)
  {
    if raw == [] {
      return NoBooksFound;
    }
    var rows := CleanRows(raw, bookName);
    var books := DropUnpriced(rows);
    SurvivorsFacts(raw, bookName);
    if books == [] {
      return NoValidPrices;
    }
    ghost var survivors := books;
    books := SortByPrice(books);
    NamedAfterSort(survivors, books, bookName);
    var listings := FormatPrices(books);
    var csvName := SearchRequest.ExportFileName(bookName);
    var top3 := TopThree(listings);
    if HasUnlinkedRow(top3) {
      return Found(listings, csvName, None);
    }
    var stats := ComputeStatistics(books);
    out := Found(listings, csvName, Some(Summary(top3, stats)));
  }

  /** The survivors all carry the searched name, and there are none exactly
      when no price text converts. */
  lemma SurvivorsFacts(raw: seq<RawRecord>, bookName: string)
    ensures Survivors(raw, bookName) == [] <==> forall i :: 0 <= i < |raw| ==> CleanPrice(raw[i].price).None?
    ensures forall k :: 0 <= k < |Survivors(raw, bookName)| ==> Survivors(raw, bookName)[k].searchedBook == bookName
  {
    var rows := CleanRows(raw, bookName);
    var books := DropUnpriced(rows);
    DropUnpricedContents(rows);
    SubsequenceFacts(AsRows(books), rows);
    forall k | 0 <= k < |books| ensures books[k].searchedBook == bookName {
      AsRowsAt(books, k);
      assert AsRows(books)[k] in rows;
    }
  }

  /** A scraped record whose price text is missing or does not convert is
      the only one to disappear, when all others convert: five records with
      the third unpriced leave four rows. */
  lemma MissingPriceDropped(raw: seq<RawRecord>, bookName: string, j: nat)
    requires j < |raw| && CleanPrice(raw[j].price).None?
    requires forall i :: 0 <= i < |raw| && i != j ==> CleanPrice(raw[i].price).Some?
    ensures |Survivors(raw, bookName)| == |raw| - 1
  {
    DropOneUnpriced(CleanRows(raw, bookName), j);
  }

  /** When every scraped record has a link, the title lookup of the top
      three cannot fail, so the top three and the statistics are shown. */
  lemma SummaryShownWhenLinked(raw: seq<RawRecord>, bookName: string, out: Outcome)
    requires Presents(raw, bookName, out) && out.Found?
    requires forall i :: 0 <= i < |raw| ==> raw[i].link.Some?
    ensures out.summary.Some?
  {
    var books := BooksOf(out.rows);
    SurvivorLinks(raw, bookName);
    LinkedAfterSort(Survivors(raw, bookName), books);
    var top := TopThree(out.rows);
    forall i | 0 <= i < |top| ensures top[i].book.link.Some? {
      assert top[i] == out.rows[i];
      assert books[i] == out.rows[i].book;
    }
  }

  /** Survivors keep the link of their record, so when every record has a
      link every survivor has one. */
  lemma SurvivorLinks(raw: seq<RawRecord>, bookName: string)
    requires forall i :: 0 <= i < |raw| ==> raw[i].link.Some?
    ensures forall k :: 0 <= k < |Survivors(raw, bookName)| ==> Survivors(raw, bookName)[k].link.Some?
  {
    var rows := CleanRows(raw, bookName);
    var books := DropUnpriced(rows);
    DropUnpricedContents(rows);
    SubsequenceFacts(AsRows(books), rows);
    forall k | 0 <= k < |books| ensures books[k].link.Some? {
      AsRowsAt(books, k);
      assert AsRows(books)[k] in rows;
    }
  }

  lemma LinkedAfterSort(s: seq<Book>, t: seq<Book>)
    requires multiset(s) == multiset(t)
    requires forall k :: 0 <= k < |s| ==> s[k].link.Some?
    ensures forall k :: 0 <= k < |t| ==> t[k].link.Some?
  {
    forall k | 0 <= k < |t| ensures t[k].link.Some? {
      assert t[k] in multiset(s);
    }
  }

  lemma NamedAfterSort(s: seq<Book>, t: seq<Book>, bookName: string)
    requires multiset(s) == multiset(t)
    requires forall k :: 0 <= k < |s| ==> s[k].searchedBook == bookName
    ensures forall k :: 0 <= k < |t| ==> t[k].searchedBook == bookName
  {
    forall k | 0 <= k < |t| ensures t[k].searchedBook == bookName {
      assert t[k] in multiset(s);
    }
  }

  lemma {:induction false} AsRowsAt(bs: seq<Book>, k: nat)
    requires k < |bs|
    ensures AsRows(bs)[k] == AsRow(bs[k])
  {
    if k > 0 {
      AsRowsAt(bs[1..], k - 1);
    }
  }
}
