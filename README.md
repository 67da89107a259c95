# Book price finder: a verified model of its data pipeline

`book_app.py` is a Streamlit page. It searches an online bookstore for a book
name (and optionally a language), walks up to three result pages with
Selenium, extracts title, author, price text and link from each result item,
and then cleans, sorts and summarises the prices. The model covers that
pipeline. The browser and the page are abstract inputs.

- `Text`: Python's `str.strip()` over the `str.isspace()` character set, and
  ASCII lower-casing.
- `SearchRequest`: the blank-name guard, the query text typed into the
  search box, and the CSV download name.
- `Extraction`: `extract_book_info`. A result item is the four things its
  lookups would find; a lookup that raises is `None`. The author rule is a
  token filter followed by a `", "` join.
- `Pagination`: the page loop. A page is "do results appear", its items and
  "is the next control clickable". The loop is a `while` over at most three
  pages with an inner `for` over the items. It is proved against
  `StopsAfter`, which pins down exactly how many pages are taken.
- `PriceText`: removing `₹` and `,`, parsing a decimal number exactly
  (`real`), and `₹{x:,.2f}` formatting with round-half-even on hundredths.
- `Statistics`: sum, minimum, maximum and mean of exact numbers.
- `Normalizer`: the table steps in source order. These are: add the searched
  name, convert the price, drop rows without a price, sort by price, format
  the prices, take the first three, and compute the lowest and average
  price. The last step includes the fallback branch used when no price is
  positive. `Normalize` performs these steps one assignment at a time.
- `BookApp`: one press of the search button. The store is a flag (is the
  search box found) plus the pages it shows for a query.
- `Base`: `Option`, subsequences and an order-preserving filter.

Points where the code behaves in ways that are easy to misread, and which the
model follows:

- `sort_values(by='Price')` is not a stable sort. The model promises only a
  sorted permutation.
- When no price is positive, the code still computes a lowest and an
  average:
  - the lowest is the first row's price; the page shows its formatted text,
    which is `Format` of the model's number;
  - the average is the mean of the formatted prices read back as numbers.
- The name and the language are joined with one space and the result is
  stripped. With an empty language the name is used as it is, unstripped.
- A leading minus sign is accepted by the price conversion, so negative
  prices survive.
- The title of each of the three cheapest rows is looked up by its link
  (book_app.py:222-225). A row without a link matches no row, and
  `.values[0]` raises. The handler at book_app.py:256-258 then shows an
  error. By that point the table and the download button are already on
  the page; the top three and the statistics never appear.

## Model

| member | source | states |
|---|---|---|
| SearchRequest.IsBlank | book_app.py:153-155 | a name is refused exactly when it is empty or all whitespace |
| SearchRequest.AcceptedQueryNotBlank | book_app.py:153-155 | a name that passes the guard never yields an empty query |
| SearchRequest.ComposeQuery | book_app.py:69 | with no language the query is the name, unchanged. Otherwise it is name, one space and language with the whitespace at both ends cut away and nothing else (`IsTrimOf`, which `TrimUnique` shows determines it). It is empty exactly when name and language are both all whitespace |
| SearchRequest.QueryOfTrimmedParts | book_app.py:69 | when the name does not start with whitespace and the language does not end with it, the query is name, one space, language |
| Text.IsSpace | book_app.py:153 | space, tab, newline and carriage return are whitespace; no digit, ASCII letter, comma or point is |
| Text.Strip | book_app.py:69 | the result is a trim of the input: an infix with only whitespace cut away at both ends and no whitespace at its own ends. It is empty exactly when the input is all whitespace |
| Text.TrimUnique | book_app.py:69 | two trims of the same text are equal, so the trim description determines `strip()` |
| Text.TrimEmptyIff | book_app.py:69 | a trim is empty exactly when the text is all whitespace |
| Text.StripTrimmed | book_app.py:69 | text with no whitespace at either end is its own strip |
| Text.StripIdempotent | book_app.py:69 | stripping twice equals stripping once |
| SearchRequest.ReplaceSpaces | book_app.py:211 | same length; each space becomes `_`, every other character stays |
| SearchRequest.ExportFileName | book_app.py:211 | the file name is the name with spaces replaced, then `_book_prices.csv`, and it contains no space |
| Extraction.IsByMarker | book_app.py:102 | a token counts as the marker exactly when it is `by`, `By`, `bY` or `BY` |
| Extraction.IsAuthorToken | book_app.py:102 | a token is kept exactly when it is not all whitespace and is not the marker |
| Extraction.AuthorTokens | book_app.py:102 | every kept token is non-blank and not the marker |
| Extraction.AuthorTokensContents | book_app.py:102 | the kept tokens are the non-blank, non-marker tokens, in original order and with their multiplicities |
| Extraction.SpacedMarkerKept | book_app.py:102 | tokens are compared untrimmed: `" by "` is kept, `"By"` and `" "` are dropped |
| Extraction.AuthorOf | book_app.py:100-105 | the author is absent exactly when the block lookup fails or no token survives; otherwise it is the kept tokens joined with `", "` |
| Extraction.JoinAuthors | book_app.py:103 | no parts join to the empty text and one part to itself; otherwise the join starts with the first part and the separator `", "` |
| Extraction.SplitJoin | book_app.py:103 | when no kept token contains a comma, splitting the author string at `", "` gives back exactly the kept tokens |
| Extraction.ExtractBookInfo | book_app.py:91-118 | title, price and link are what their lookups find, absent when a lookup fails. The author is absent exactly when its lookup fails or no token survives the filter; otherwise it is the surviving tokens joined with `", "` |
| Extraction.FieldIndependence | book_app.py:93-117 | each field depends on its own lookup only, whatever the other three find |
| Pagination.PageRecords | book_app.py:129-133 | one record per visible item, in page order, each the item's extraction |
| Pagination.AppendPage | book_app.py:132-133 | the item loop appends exactly the page's records, in order, to what was collected |
| Pagination.Collect | book_app.py:121-147 | the collected list is the concatenation of whole pages 1..k. Each taken page showed results. After every page but the last, the total was under 30 and the next control worked. Unless k is 3, collection stopped because the last page brought the total to 30 or more, or had no usable next control, or because the next page's results never appeared |
| Pagination.StopsAfterUnique | book_app.py:121-145 | the stop rule singles out one page count, so the collected list is determined by the pages |
| Pagination.SoftCapOvershoot | book_app.py:134-135 | before the last page the total was under 30, so the total is under 30 plus the last page's size |
| Pagination.CollectBound | book_app.py:122-133 | with at most n items per page, at most 3·n records are collected |
| Pagination.GatheredBound | book_app.py:122-133 | k pages of at most n items give at most k·n records |
| Pagination.FirstPageMissing | book_app.py:123-145 | when the first page's results never appear, nothing is collected |
| Pagination.GatheredPrefix | book_app.py:132-133 | the records of earlier pages are a prefix of those of later ones |
| PriceText.StripCurrency | book_app.py:168 | the cleaned text contains no `₹` and no `,` and is no longer than the input |
| PriceText.StripCurrencyIdempotent | book_app.py:168 | cleaning twice equals cleaning once |
| PriceText.StripCurrencyKeeps | book_app.py:168 | text without `₹` and `,` is left unchanged |
| PriceText.StripCurrencyConcat | book_app.py:168 | cleaning distributes over concatenation |
| PriceText.ParseDecimal | book_app.py:170 | a parsed text is non-empty, and without a leading minus its value is non-negative |
| PriceText.ParseDecimalIff | book_app.py:170 | the conversion succeeds exactly on the texts of the grammar `IsDecimalText`: an optional `+` or `-`, then digits, or digits, `.` and digits, with at least one digit in all; every other text becomes NA |
| PriceText.ParseSignedWhole | book_app.py:170 | an optional `+` or `-` followed by digits converts to the digits' value, negated after `-` |
| PriceText.ParseSignedPoint | book_app.py:170 | an optional `+` or `-` followed by digits, a point and digits converts to the value of both digit runs, negated after `-`; either run may be empty but not both, so `.5` is 0.5 |
| PriceText.SignedText | book_app.py:170 | a sign in front of unsigned text that does not itself start with a sign negates its value after `-` and keeps it otherwise |
| PriceText.ParseUnsignedWhole | book_app.py:170 | digits alone convert to their value |
| PriceText.CleanPrice | book_app.py:166-171 | a missing text stays missing; otherwise the value is the parse of the cleaned text (the `''` to NA step changes nothing, since empty text does not parse) |
| PriceText.CleanPlainPrice | book_app.py:166-171 | `₹`, digits, `.`, digits converts to the value of those digits |
| PriceText.CleanGroupedPrice | book_app.py:166-171 | `₹`, a leading group, `,`, three digits, `.`, digits converts to the value of the digits with the comma removed |
| PriceText.CleanWholePrice | book_app.py:166-171 | `₹` followed by digits converts to the value of the digits |
| PriceText.CleanPriceWhole | book_app.py:166-171 | `"₹499"` converts to 499 |
| PriceText.CleanPriceGrouped | book_app.py:166-171 | `"₹1,234.50"` converts to 1234.50 |
| PriceText.CleanPriceZero | book_app.py:166-171 | `"₹0.00"` converts to 0 |
| PriceText.CleanPriceEmpty | book_app.py:166-171 | empty price text converts to nothing, so the row is dropped |
| PriceText.NatToDigits | book_app.py:188 | the decimal digits of n have value n and no leading zero |
| PriceText.Group | book_app.py:188 | grouping gives digits and commas in groups of three from the right, starting with a digit; removing the commas gives back the digits |
| PriceText.RoundHalfEven | book_app.py:188 | the result is an integer within one half of the input. It is strictly nearer unless the fraction is exactly one half, and in that tie it is even |
| PriceText.Cents | book_app.py:188 | the number of hundredths shown is within one half of the absolute value times 100, and even on an exact tie |
| PriceText.Format | book_app.py:188 | a formatted price starts with `₹`, has `-` next exactly when the value is negative, has exactly two digits after its only `.`, and its integer part is grouped in threes with no leading zero (a `0` there is followed by the point) |
| PriceText.FormatRoundTrip | book_app.py:242-248 | cleaning and parsing a formatted price never fails and gives the value rounded to hundredths |
| PriceText.FormatParseIdentity | book_app.py:242-248 | for a value with at most two decimals, format, clean and parse give the value back |
| PriceText.RoundedBounds | book_app.py:188 | rounding to hundredths moves a value by at most 0.005 and keeps it on the same side of zero |
| PriceText.Reparse | book_app.py:243-246 | reading a formatted price back gives the value rounded to hundredths |
| Statistics.Min | book_app.py:232 | the minimum is one of the elements and no element is smaller |
| Statistics.Max | book_app.py:233 | the maximum is one of the elements and no element is larger |
| Statistics.Mean | book_app.py:233 | the mean lies between the minimum and the maximum |
| Statistics.AverageBetween | book_app.py:233 | the sum of values within bounds, divided by their number, is within the same bounds |
| Normalizer.CleanRows | book_app.py:163-171 | one row per record, each carrying the searched name and the converted price, other fields unchanged |
| Normalizer.DropUnpriced | book_app.py:173 | the rows kept are exactly the rows with a price, in their original order |
| Normalizer.DropUnpricedContents | book_app.py:173 | the survivors are a subsequence of the rows, no more numerous, and none survive exactly when no row has a price |
| Normalizer.DropOneUnpriced | book_app.py:173 | when exactly one row lacks a price, exactly one row is dropped |
| Normalizer.MissingPriceDropped | book_app.py:166-173 | of n records with only one unconvertible price, n − 1 rows remain (five items with the third unpriced leave four) |
| Normalizer.SurvivorsFacts | book_app.py:163-175 | every surviving row carries the searched name, and there are none exactly when no price text converts |
| Normalizer.InsertByPrice | book_app.py:179 | inserting into a sorted list keeps it sorted and adds exactly that row |
| Normalizer.SortByPrice | book_app.py:179 | the result is in non-decreasing price order and is a permutation of the input |
| Normalizer.FormatPrices | book_app.py:182-188 | the numeric column keeps the sorted rows and each formatted price is the format of that row's number |
| Normalizer.TopThree | book_app.py:217 | `head(3)` is a prefix of at most three rows: all rows when there are fewer than three, otherwise exactly three |
| Normalizer.TopThreeCheapest | book_app.py:217 | the top three are the first min(3, n) rows, and no row left out is cheaper than a row kept |
| Normalizer.PositiveBooks | book_app.py:185 | the selection is no longer than the table and every row in it is priced above zero |
| Normalizer.PositiveBooksContents | book_app.py:185 | the positive set is exactly the rows priced above zero, in order, and it is empty exactly when no price is above zero |
| Normalizer.ReparsedPrices | book_app.py:242-247 | one re-read price per row, each that row's price rounded to hundredths |
| Normalizer.ComputeStatistics | book_app.py:227-248 | the fallback runs exactly when no price is above zero. Otherwise the lowest price is a positive price no larger than any positive price, and the average, the mean of the positive prices, lies between it and some positive price. In the fallback the lowest is the first row's price, the average is the mean of the re-read prices, and both are at most zero |
| Normalizer.PositiveStatsFacts | book_app.py:231-233 | the minimum of the positive prices is a positive price, not above any positive price, and not above their mean, which is not above some positive price |
| Normalizer.FallbackStatsFacts | book_app.py:241-248 | when no price is positive, the mean of the re-read prices is at most zero |
| Normalizer.ZeroPricesExcluded | book_app.py:227-233 | prices 0, 0 and 50 give a lowest and an average of 50 |
| Normalizer.Normalize | book_app.py:161-258 | "no books found" exactly when nothing was scraped; "no valid prices" exactly when no price converts. Otherwise the rows are a sorted permutation of the survivors, each with the searched name and its formatted price, and the file name follows the export rule. The top three and the statistics are missing exactly when one of the first three rows has no link. When present, the top three are the first min(3, n) rows and the statistics are those of the sorted rows |
| Normalizer.RowsLinkedTo | book_app.py:222-225 | the selection `top3["Link"] == x` holds only top-three rows linked to `x`, holds every such row, and is empty for a missing link |
| Normalizer.HasUnlinkedRow | book_app.py:222-225 | the title lookup fails exactly when, for some top-three row, the selection by that row's link is empty |
| Normalizer.SummaryShownWhenLinked | book_app.py:222-233 | when every scraped record has a link, the top three and the statistics are shown |
| Normalizer.SurvivorLinks | book_app.py:163-173 | rows that survive the price cleaning keep their record's link |
| BookApp.Scrape | book_app.py:69-147 | the search fails exactly when the search box is missing, and then nothing is collected. Otherwise the records are those the page loop collects from the pages shown for the composed query |
| BookApp.Run | book_app.py:152-159 | a blank name is refused and nothing else happens. A failed search ends in "no books found". Otherwise the outcome is that of the normalizer on what the page loop collected for the composed query |

## Left out

- The Streamlit page itself is not modelled: the form, spinner, messages,
  metrics and columns (book_app.py:13-44, 157, 196-258). Only the outcome of
  each branch is modelled. From the outer handler, only its effect on the
  top-three column is modelled.
- Selenium is not modelled: driver setup and teardown, `WebDriverWait`
  timeouts, `time.sleep`, and typing with `send_keys`. A page is reduced to
  whether its results appear, its items and whether the next control is
  clickable. A missing page counts as results that never appear.
- The category drop-down and the sort control (book_app.py:60-66, 80-87)
  are not modelled as steps. Choosing "Books" and sorting by `review-rank`
  decide which items pages 1 to 3 show and in what order. That effect is
  folded into the pages `Site.resultsFor` gives for a query. Their failures
  are ignored, as in the code.
- HTML and CSV output (`to_html`, `to_csv`, the hyperlink column;
  book_app.py:191, 201-213, 219-226) are foreign library calls and are not
  modelled. Only the download file name is modelled.
- The title shown for each of the three cheapest rows is not modelled, only
  the lookup's failure on a row without a link. For a linked row, the code
  shows the title of the first top-three row with the same link. This
  differs from the row's own title only when two of the three share a link.
- Floating point is not modelled: prices are exact `real`s. The model does
  not capture `pd.to_numeric` and `.mean()` rounding, or the binary rounding
  behind `:,.2f`. Formatting is exact round-half-even on hundredths.
  There is no negative zero: the text `-0.00` converts to the model's 0,
  which `Format` shows as `₹0.00`, where pandas keeps `-0.0` and `:,.2f`
  shows `₹-0.00`. A fallback average computed from such prices shows
  `₹-0.00` in the code the same way (book_app.py:188, 248). A negative
  value that rounds to zero shows `₹-0.00` in both.
- ParseDecimal: accepts only an optional sign, digits and an optional
  fraction. `pd.to_numeric` also reads exponents, `inf`, `nan` and
  surrounding whitespace; the model treats those texts as unparseable.
- Extraction.IsByMarker: compares with ASCII lower-casing. This matches
  Python's `lower() == 'by'` but not full Unicode lower-casing of other
  characters, which cannot matter for a two-letter comparison with `by`.
- Normalizer.SortByPrice: deliberately promises no order among equally
  priced rows, because pandas' default sort is not stable.
