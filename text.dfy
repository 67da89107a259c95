/** Python's `str.strip()` (whitespace only) and the ASCII part of
    `str.lower()`, on strings as sequences of characters. */
module Text {

  /** The characters Python's `str.isspace()` accepts. */
  predicate IsSpace(c: char)
    ensures c == ' ' || c == '\t' || c == '\n' || c == '\r' ==> IsSpace(c)
    ensures IsSpace(c) ==> !('0' <= c <= '9') && !('a' <= c <= 'z') && !('A' <= c <= 'Z')
    ensures IsSpace(c) ==> c != ',' && c != '.'
  {
    || ('\U{0009}' <= c <= '\U{000D}')
    || ('\U{001C}' <= c <= '\U{0020}')
    || c == '\U{0085}' || c == '\U{00A0}' || c == '\U{1680}'
    || ('\U{2000}' <= c <= '\U{200A}')
    || c == '\U{2028}' || c == '\U{2029}' || c == '\U{202F}' || c == '\U{205F}' || c == '\U{3000}'
  }

  predicate AllSpace(s: string)
  {
    forall k :: 0 <= k < |s| ==> IsSpace(s[k])
  }

  /** The index of the first character of `s` that is not whitespace, or
      `|s|` when there is none. */
  function FirstNonSpace(s: string): (i: nat)
    ensures i <= |s|
    ensures forall k :: 0 <= k < i ==> IsSpace(s[k])
    ensures i < |s| ==> !IsSpace(s[i])
  {
    if s == [] || !IsSpace(s[0]) then 0 else 1 + FirstNonSpace(s[1..])
  }

  /** The end of `s` once trailing whitespace is removed, not going below
      `lo`. */
  function EndNonSpace(s: string, lo: nat): (j: nat)
    requires lo <= |s|
    ensures lo <= j <= |s|
    ensures forall k :: j <= k < |s| ==> IsSpace(s[k])
    ensures j > lo ==> !IsSpace(s[j - 1])
  {
    if |s| == lo || !IsSpace(s[|s| - 1]) then |s| else EndNonSpace(s[..|s| - 1], lo)
  }

  /** Cutting `s` at `i` and `j` removes only whitespace: everything before
      `i` and from `j` on is whitespace. */
  predicate CutAt(s: string, i: nat, j: nat)
  {
    && i <= j <= |s|
    && (forall k :: 0 <= k < i ==> IsSpace(s[k]))
    && (forall k :: j <= k < |s| ==> IsSpace(s[k]))
  }

  /** `r` is `s` with the whitespace at both ends cut away and nothing else:
      an infix of `s`, preceded and followed only by whitespace, with no
      whitespace at its own ends. */
  ghost predicate IsTrimOf(r: string, s: string)
  {
    && (r != [] ==> !IsSpace(r[0]) && !IsSpace(r[|r| - 1]))
    && exists i: nat, j: nat :: CutAt(s, i, j) && r == s[i..j]
  }

  /** Python's `s.strip()`: the infix of `s` left after removing whitespace at
      both ends; it is empty exactly when `s` is all whitespace. */
  function Strip(s: string): (r: string)
    ensures r == [] <==> AllSpace(s)
    ensures IsTrimOf(r, s)
  {
    var i := FirstNonSpace(s);
    var j := EndNonSpace(s, i);
    assert CutAt(s, i, j);
    if i == j then
      assert i == |s|;
      s[i..j]
    else
      assert !AllSpace(s) by { assert !IsSpace(s[i]); }
      s[i..j]
  }

  /** The description of a trim fixes it: `Strip` is the only function
      meeting it. */
  lemma TrimUnique(r1: string, r2: string, s: string)
    requires IsTrimOf(r1, s) && IsTrimOf(r2, s)
    ensures r1 == r2
  {
    var i1: nat, j1: nat :| CutAt(s, i1, j1) && r1 == s[i1..j1];
    var i2: nat, j2: nat :| CutAt(s, i2, j2) && r2 == s[i2..j2];
    TrimEmptyIff(r1, s);
    TrimEmptyIff(r2, s);
    if r1 != [] && r2 != [] {
      assert s[i1] == r1[0] && s[i2] == r2[0];
      assert s[j1 - 1] == r1[|r1| - 1] && s[j2 - 1] == r2[|r2| - 1];
      SameBounds(s, i1, j1, i2, j2);
    }
  }

  /** Two cuts of `s` that both start and end on non-whitespace are the same
      cut. */
  lemma SameBounds(s: string, i1: nat, j1: nat, i2: nat, j2: nat)
    requires CutAt(s, i1, j1) && CutAt(s, i2, j2) && i1 < j1 && i2 < j2
    requires !IsSpace(s[i1]) && !IsSpace(s[j1 - 1]) && !IsSpace(s[i2]) && !IsSpace(s[j2 - 1])
    ensures i1 == i2 && j1 == j2
  {
  }

  /** A trim is empty exactly when the string is all whitespace. */
  lemma TrimEmptyIff(r: string, s: string)
    requires IsTrimOf(r, s)
    ensures r == [] <==> AllSpace(s)
  {
    var i: nat, j: nat :| CutAt(s, i, j) && r == s[i..j];
    if r == [] {
      assert i == j;
      assert forall k :: 0 <= k < |s| ==> IsSpace(s[k]) by {
        forall k | 0 <= k < |s| ensures IsSpace(s[k]) {
          if k >= i { assert k >= j; }
        }
      }
    } else {
      assert s[i] == r[0];
    }
  }

  /** A string with no whitespace at either end is its own strip. */
  lemma StripTrimmed(s: string)
    requires s != [] && !IsSpace(s[0]) && !IsSpace(s[|s| - 1])
    ensures Strip(s) == s
  {
    assert FirstNonSpace(s) == 0;
    assert EndNonSpace(s, 0) == |s|;
    assert s[0..|s|] == s;
  }

  /** Stripping twice is the same as stripping once. */
  lemma StripIdempotent(s: string)
    ensures Strip(Strip(s)) == Strip(s)
  {
    if Strip(s) != [] {
      StripTrimmed(Strip(s));
    }
  }

  function AsciiLower(c: char): (d: char)
    ensures 'A' <= c <= 'Z' ==> d as int == c as int + 32
    ensures !('A' <= c <= 'Z') ==> d == c
  {
    if 'A' <= c <= 'Z' then (c as int + 32) as char else c
  }
}
