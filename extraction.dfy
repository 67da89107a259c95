/** Per-item field extraction (`extract_book_info`). A result item is not
    modelled as a document tree but as what each of the four lookups would
    find in it; a lookup that raises is `None`. */
module Extraction {
  import opened Base
  import opened Text

  /** One search result item, as seen by the four lookups. */
  datatype Item = Item(
    heading: Option<string>,         // text of the first `h2 span`
    authorBlock: Option<seq<string>>, // texts of the `a` and `span` descendants, in document
                                      // order, of the first `a-row` div whose text contains "by"
    offscreenPrice: Option<string>,  // `textContent` of the first `.a-price .a-offscreen`
    primaryHref: Option<string>)     // `href` of the primary result anchor (absent when the
                                      // anchor or its attribute is missing)

  /** The dictionary `extract_book_info` returns: always these four keys,
      each possibly NA. */
  datatype RawRecord = RawRecord(
    title: Option<string>,
    author: Option<string>,
    price: Option<string>,
    link: Option<string>)

  /** A token whose lower-case form is exactly "by": one of its four
      spellings. */
  predicate IsByMarker(t: string)
    ensures IsByMarker(t) <==> t == "by" || t == "By" || t == "bY" || t == "BY"
  {
    assert |t| == 2 ==> t == [t[0], t[1]];
    |t| == 2 && AsciiLower(t[0]) == 'b' && AsciiLower(t[1]) == 'y'
  }

  /** A token is kept when it is not blank and is not the marker itself;
      a kept token is not trimmed. */
  predicate IsAuthorToken(t: string)
    ensures IsAuthorToken(t) <==> !AllSpace(t) && !IsByMarker(t)
  {
    Strip(t) != [] && !IsByMarker(t)
  }

  function AuthorTokens(tokens: seq<string>): (r: seq<string>)
    ensures forall i :: 0 <= i < |r| ==> IsAuthorToken(r[i])
  {
    Filter(tokens, IsAuthorToken)
  }

  /** `", ".join(parts)`: empty for no parts, the part itself for one, and
      otherwise the first part, the separator and the join of the rest, so
      it starts with the first part. */
  function JoinAuthors(parts: seq<string>): (r: string)
    ensures parts == [] ==> r == []
    ensures |parts| == 1 ==> r == parts[0]
    ensures parts != [] ==> |r| >= |parts[0]| && r[..|parts[0]|] == parts[0]
    ensures |parts| >= 2 ==> |r| >= |parts[0]| + 2 && r[..|parts[0]| + 2] == parts[0] + ", "
  {
    if parts == [] then ""
    else if |parts| == 1 then parts[0]
    else parts[0] + ", " + JoinAuthors(parts[1..])
  }

  /** The index of the first ", " in `s`, or `|s|` when there is none. */
  function SeparatorIndex(s: string): (i: nat)
    ensures i <= |s|
    ensures i < |s| ==> i + 1 < |s| && s[i] == ',' && s[i + 1] == ' '
  {
    if |s| < 2 then |s|
    else if s[0] == ',' && s[1] == ' ' then 0
    else 1 + SeparatorIndex(s[1..])
  }

  /** `s.split(", ")`. */
  function SplitAuthors(s: string): (r: seq<string>)
    ensures r != []
    decreases |s|
  {
    var i := SeparatorIndex(s);
    if i == |s| then [s] else [s[..i]] + SplitAuthors(s[i + 2..])
  }

  lemma {:induction false} SeparatorAfterCommaFree(p: string, t: string)
    requires ',' !in p
    ensures SeparatorIndex(p + ", " + t) == |p|
  {
    var s := p + ", " + t;
    if p != [] {
      assert s[0] == p[0];
      assert s[1..] == p[1..] + ", " + t;
      SeparatorAfterCommaFree(p[1..], t);
    }
  }

  lemma {:induction false} SeparatorOfCommaFree(p: string)
    requires ',' !in p
    ensures SeparatorIndex(p) == |p|
  {
    if |p| >= 2 {
      assert p[0] in p;
      assert ',' !in p[1..];
      SeparatorOfCommaFree(p[1..]);
    }
  }

  /** When no author name contains a comma, the joined author string splits
      back into exactly the kept names. */
  lemma {:induction false} SplitJoin(parts: seq<string>)
    requires parts != []
    requires forall k :: 0 <= k < |parts| ==> ',' !in parts[k]
    ensures SplitAuthors(JoinAuthors(parts)) == parts
  {
    if |parts| == 1 {
      SeparatorOfCommaFree(parts[0]);
    } else {
      var p := parts[0];
      var rest := JoinAuthors(parts[1..]);
      var s := JoinAuthors(parts);
      assert s == p + ", " + rest;
      SeparatorAfterCommaFree(p, rest);
      assert s[..|p|] == p;
      assert s[|p| + 2..] == rest;
      assert SplitAuthors(s) == [p] + SplitAuthors(rest);
      SplitJoin(parts[1..]);
      assert parts == [p] + parts[1..];
    }
  }

  /** The author field: absent when the block lookup fails or when no token
      survives; otherwise the surviving tokens, in order, joined by ", ". */
  function AuthorOf(block: Option<seq<string>>): (r: Option<string>)
    ensures r.None? <==> block.None? || forall i :: 0 <= i < |block.value| ==> !IsAuthorToken(block.value[i])
    ensures r.Some? ==> r.value == JoinAuthors(AuthorTokens(block.value))
  {
    match block
    case None => None
    case Some(tokens) =>
      var kept := AuthorTokens(tokens);
      FilterEmptyIff(tokens, IsAuthorToken);
      if kept == [] then None else Some(JoinAuthors(kept))
  }

  /** The surviving tokens are exactly the non-blank, non-marker tokens of the
      block, with their multiplicities and in their original order. */
  lemma AuthorTokensContents(tokens: seq<string>)
    ensures IsSubsequence(AuthorTokens(tokens), tokens)
    ensures forall t :: multiset(AuthorTokens(tokens))[t] == if IsAuthorToken(t) then multiset(tokens)[t] else 0
  {
    FilterContents(tokens, IsAuthorToken);
  }

  /** Tokens are compared untrimmed: " by " survives the filter, while "By"
      and a blank token do not. */
  lemma SpacedMarkerKept()
    ensures IsAuthorToken(" by ")
    ensures !IsAuthorToken("By") && !IsAuthorToken(" ")
  {
    var spaced, marker, blank := " by ", "By", " ";
    assert !IsSpace(spaced[1]);
    assert AsciiLower(marker[0]) == 'b' && AsciiLower(marker[1]) == 'y';
    assert AllSpace(blank);
  }

  /** `extract_book_info`: the title, price and link are what their lookups
      find, NA when the lookup fails; the author is NA exactly when its
      lookup fails or no token survives the filter, and is otherwise the
      surviving tokens joined. */
  function ExtractBookInfo(item: Item): (r: RawRecord)
    ensures r.title == item.heading && r.price == item.offscreenPrice && r.link == item.primaryHref
    ensures r.author.None? <==> item.authorBlock.None? || AuthorTokens(item.authorBlock.value) == []
    ensures r.author.Some? ==> r.author.value == JoinAuthors(AuthorTokens(item.authorBlock.value))
  {
    var r := RawRecord(item.heading, AuthorOf(item.authorBlock), item.offscreenPrice, item.primaryHref);
    if item.authorBlock.Some? then
      FilterEmptyIff(item.authorBlock.value, IsAuthorToken);
      r
    else
      r
  }

  /** Field independence: a field of the record depends on its own lookup
      alone, whatever the other three lookups find. */
  lemma FieldIndependence(a: Item, b: Item)
    ensures a.heading == b.heading ==> ExtractBookInfo(a).title == ExtractBookInfo(b).title
    ensures a.authorBlock == b.authorBlock ==> ExtractBookInfo(a).author == ExtractBookInfo(b).author
    ensures a.offscreenPrice == b.offscreenPrice ==> ExtractBookInfo(a).price == ExtractBookInfo(b).price
    ensures a.primaryHref == b.primaryHref ==> ExtractBookInfo(a).link == ExtractBookInfo(b).link
  {
  }
}
