/** The search request: the guard on the book name, the text typed into the
    site's search box, and the name offered for the CSV download. */
module SearchRequest {
  import opened Text

  /** The name of the book is refused when it is empty or only whitespace. */
  predicate IsBlank(bookName: string)
    ensures IsBlank(bookName) <==> AllSpace(bookName)
  {
    Strip(bookName) == []
  }

  /** The query text: the book name alone when no language is given (not even
      stripped); otherwise name, one space and language, stripped at both ends. */
  function ComposeQuery(bookName: string, language: string): (q: string)
    ensures language == "" ==> q == bookName
    ensures language != "" ==> q == [] || (!IsSpace(q[0]) && !IsSpace(q[|q| - 1]))
    ensures language != "" ==> (q == [] <==> AllSpace(bookName) && AllSpace(language))
    ensures language != "" ==> IsTrimOf(q, bookName + " " + language)
  {
    if language != "" then
      var joined := bookName + " " + language;
      assert AllSpace(joined) <==> AllSpace(bookName) && AllSpace(language) by {
        assert forall k :: 0 <= k < |bookName| ==> joined[k] == bookName[k];
        assert forall k :: 0 <= k < |language| ==> joined[|bookName| + 1 + k] == language[k];
        assert joined[|bookName|] == ' ';
      }
      Strip(joined)
    else
      bookName
  }

  /** When the name does not start and the language does not end with
      whitespace, the query is exactly `name + " " + language`. */
  lemma QueryOfTrimmedParts(bookName: string, language: string)
    requires bookName != [] && !IsSpace(bookName[0])
    requires language != [] && !IsSpace(language[|language| - 1])
    ensures ComposeQuery(bookName, language) == bookName + " " + language
  {
    var joined := bookName + " " + language;
    assert joined[0] == bookName[0] && joined[|joined| - 1] == language[|language| - 1];
    StripTrimmed(joined);
  }

  /** A request that passes the guard never sends an empty query. */
  lemma AcceptedQueryNotBlank(bookName: string, language: string)
    requires !IsBlank(bookName)
    ensures ComposeQuery(bookName, language) != []
  {
    assert bookName != [];
  }

  const CSV_SUFFIX: string := "_book_prices.csv"

  /** `s` with every ASCII space replaced by an underscore. */
  function ReplaceSpaces(s: string): (r: string)
    ensures |r| == |s|
    ensures forall i :: 0 <= i < |s| ==> r[i] == if s[i] == ' ' then '_' else s[i]
  {
    if s == [] then []
    else [if s[0] == ' ' then '_' else s[0]] + ReplaceSpaces(s[1..])
  }

  /** The name of the CSV download: the book name with spaces turned into
      underscores, followed by the fixed suffix; it contains no space. */
  function ExportFileName(bookName: string): (r: string)
    ensures |r| == |bookName| + |CSV_SUFFIX|
    ensures r[..|bookName|] == ReplaceSpaces(bookName) && r[|bookName|..] == CSV_SUFFIX
    ensures ' ' !in r
  {
    var r := ReplaceSpaces(bookName) + CSV_SUFFIX;
    assert forall i :: 0 <= i < |r| ==> r[i] != ' ' by {
      forall i | 0 <= i < |r| ensures r[i] != ' ' {
        if i >= |bookName| { assert r[i] == CSV_SUFFIX[i - |bookName|]; }
      }
    }
    r
  }
}
