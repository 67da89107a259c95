/** Price text: removing the rupee sign and thousands separators, parsing the
    remainder as an exact decimal, and formatting a value as `₹{x:,.2f}`
    does (rupee sign, thousands grouped with commas, two decimals). */
module PriceText {
  import opened Base

  const RUPEE: char := '\U{20B9}'

  /** The characters `.str.replace('[₹,]', '')` keeps. */
  predicate KeptInPrice(c: char)
  {
    c != RUPEE && c != ','
  }

  /** Removes every rupee sign and every comma, keeping the rest in order. */
  function StripCurrency(s: string): (r: string)
    ensures forall i :: 0 <= i < |r| ==> r[i] != RUPEE && r[i] != ','
    ensures |r| <= |s|
  {
    Filter(s, KeptInPrice)
  }

  lemma StripCurrencyIdempotent(s: string)
    ensures StripCurrency(StripCurrency(s)) == StripCurrency(s)
  {
    FilterIdempotent(s, KeptInPrice);
  }

  /** Text without rupee signs and commas is left as it is. */
  lemma StripCurrencyKeeps(s: string)
    requires forall i :: 0 <= i < |s| ==> KeptInPrice(s[i])
    ensures StripCurrency(s) == s
  {
    FilterKeepsAll(s, KeptInPrice);
  }

  lemma StripCurrencyConcat(a: string, b: string)
    ensures StripCurrency(a + b) == StripCurrency(a) + StripCurrency(b)
  {
    FilterConcat(a, b, KeptInPrice);
  }

  predicate IsDigit(c: char)
  {
    '0' <= c <= '9'
  }

  predicate AllDigits(s: string)
  {
    forall i :: 0 <= i < |s| ==> IsDigit(s[i])
  }

  function DigitChar(d: nat): (c: char)
    requires d < 10
    ensures IsDigit(c) && c as int - '0' as int == d
  {
    ('0' as int + d) as char
  }

  /** The value of a string of decimal digits (0 for the empty string). */
  function DigitsValue(s: string): nat
    requires AllDigits(s)
  {
    if s == [] then 0 else DigitsValue(s[..|s| - 1]) * 10 + (s[|s| - 1] as int - '0' as int)
  }

  function Pow10(n: nat): (p: nat)
    ensures p >= 1
  {
    if n == 0 then 1 else 10 * Pow10(n - 1)
  }

  /** The decimal digits of `n`, without leading zeros. */
  function NatToDigits(n: nat): (r: string)
    ensures r != [] && AllDigits(r) && DigitsValue(r) == n
    ensures r[0] == '0' ==> r == "0"
  {
    if n < 10 then [DigitChar(n)]
    else
      var r := NatToDigits(n / 10) + [DigitChar(n % 10)];
      assert r[..|r| - 1] == NatToDigits(n / 10);
      r
  }

  /** The length of the run of digits at the start of `s`. */
  function DigitRun(s: string): (n: nat)
    ensures n <= |s| && AllDigits(s[..n])
    ensures n < |s| ==> !IsDigit(s[n])
  {
    if s == [] || !IsDigit(s[0]) then 0
    else
      var n := 1 + DigitRun(s[1..]);
      assert forall i :: 1 <= i < n ==> s[..n][i] == s[1..][..n - 1][i - 1];
      n
  }

  /** The value of digits after the decimal point. */
  function FracValue(s: string): (v: real)
    requires AllDigits(s)
    ensures v >= 0.0
  {
    DigitsValue(s) as real / Pow10(|s|) as real
  }

  /** Unsigned decimal text: digits, optionally a point and more digits, with
      at least one digit in all. */
  function ParseUnsigned(s: string): (r: Option<real>)
    ensures r.Some? ==> r.value >= 0.0
  {
    var n := DigitRun(s);
    var whole := s[..n];
    if n == |s| then
      if n == 0 then None else Some(DigitsValue(whole) as real)
    else if s[n] != '.' then None
    else
      var frac := s[n + 1..];
      if !AllDigits(frac) || (n == 0 && frac == []) then None
      else Some(DigitsValue(whole) as real + FracValue(frac))
  }

  /** The numeric conversion of the cleaned price text: an optional sign
      followed by unsigned decimal text; anything else does not parse. */
  function ParseDecimal(s: string): (r: Option<real>)
    ensures r.Some? ==> s != [] && (s[0] != '-' ==> r.value >= 0.0)
  {
    if s != [] && (s[0] == '-' || s[0] == '+') then
      match ParseUnsigned(s[1..])
      case None => None
      case Some(v) => Some(if s[0] == '-' then -v else v)
    else ParseUnsigned(s)
  }

  /** The price cleaning chain: strip, turn "" into NA, convert, NA when the
      conversion fails. The "" step never matters: empty text does not parse. */
  function CleanPrice(text: Option<string>): (r: Option<real>)
    ensures r == if text.None? then None else ParseDecimal(StripCurrency(text.value))
  {
    match text
    case None => None
    case Some(t) =>
      var cleaned := StripCurrency(t);
      if cleaned == "" then None else ParseDecimal(cleaned)
  }

  /** A leading rupee sign or comma is dropped and the rest cleaned. */
  lemma StripCurrencyDropsHead(c: char, s: string)
    requires c == RUPEE || c == ','
    ensures StripCurrency([c] + s) == StripCurrency(s)
  {
    assert ([c] + s)[1..] == s;
  }

  /** The value of digits written after other digits. */
  lemma {:induction false} DigitsValueAppend(a: string, b: string)
    requires AllDigits(a) && AllDigits(b)
    ensures AllDigits(a + b)
    ensures DigitsValue(a + b) == DigitsValue(a) * Pow10(|b|) + DigitsValue(b)
  {
    if b != [] {
      var b' := b[..|b| - 1];
      var last := b[|b| - 1] as int - '0' as int;
      assert (a + b)[..|a + b| - 1] == a + b';
      DigitsValueAppend(a, b');
      var d, p, e := DigitsValue(a), Pow10(|b'|), DigitsValue(b');
      assert DigitsValue(a + b) == (d * p + e) * 10 + last;
      ShiftDigit(d, p, e, last);
      assert Pow10(|b|) == p * 10 && DigitsValue(b) == e * 10 + last;
    } else {
      assert a + b == a;
    }
  }

  lemma ShiftDigit(d: int, p: int, e: int, last: int)
    ensures (d * p + e) * 10 + last == d * (p * 10) + (e * 10 + last)
  {
  }

  /** "₹" followed by digits, a point and digits converts to their value. */
  lemma CleanPlainPrice(ds: string, fs: string)
    requires ds != [] && AllDigits(ds) && AllDigits(fs)
    ensures CleanPrice(Some([RUPEE] + ds + "." + fs)) == Some(DigitsValue(ds) as real + FracValue(fs))
  {
    var plain := ds + "." + fs;
    assert [RUPEE] + ds + "." + fs == [RUPEE] + plain;
    StripCurrencyKeeps(plain);
    StripCurrencyDropsHead(RUPEE, plain);
    ParseDigitsPoint(ds, fs);
  }

  /** Removing the rupee sign and the comma from "₹" + lead + "," + group
      + "." + digits leaves lead + group + "." + digits. */
  lemma StripGroupedText(lead: string, group: string, fs: string)
    requires AllDigits(lead) && AllDigits(group) && AllDigits(fs)
    ensures StripCurrency([RUPEE] + lead + "," + group + "." + fs) == lead + group + "." + fs
  {
    var tail := group + "." + fs;
    assert [RUPEE] + lead + "," + group + "." + fs == [RUPEE] + (lead + ([','] + tail));
    StripCurrencyKeeps(tail);
    StripCurrencyKeeps(lead);
    StripCurrencyDropsHead(',', tail);
    StripCurrencyConcat(lead, [','] + tail);
    StripCurrencyDropsHead(RUPEE, lead + ([','] + tail));
    assert lead + tail == lead + group + "." + fs;
  }

  /** "₹" followed by a leading group, a comma, a group of three digits, a
      point and digits converts to the value of the digits without the
      comma. */
  lemma CleanGroupedPrice(lead: string, group: string, fs: string)
    requires lead != [] && AllDigits(lead) && |group| == 3 && AllDigits(group) && AllDigits(fs)
    ensures CleanPrice(Some([RUPEE] + lead + "," + group + "." + fs))
            == Some((DigitsValue(lead) * 1000 + DigitsValue(group)) as real + FracValue(fs))
  {
    StripGroupedText(lead, group, fs);
    ParseDigitsPoint(lead + group, fs);
    GroupValue(lead, group);
  }

  /** Unsigned decimal text with a point converts to its value. */
  lemma ParseDigitsPoint(ds: string, fs: string)
    requires ds != [] && AllDigits(ds) && AllDigits(fs)
    ensures ParseDecimal(ds + "." + fs) == Some(DigitsValue(ds) as real + FracValue(fs))
  {
    ParseUnsignedOf(ds, fs);
    assert (ds + "." + fs)[0] == ds[0];
  }

  /** A leading group followed by three more digits. */
  lemma GroupValue(lead: string, group: string)
    requires AllDigits(lead) && |group| == 3 && AllDigits(group)
    ensures AllDigits(lead + group)
    ensures DigitsValue(lead + group) == DigitsValue(lead) * 1000 + DigitsValue(group)
  {
    DigitsValueAppend(lead, group);
    assert Pow10(3) == 1000;
  }

  /** "₹1,234.50" converts to 1234.50. */
  lemma CleanPriceGrouped()
    ensures CleanPrice(Some([RUPEE] + "1" + "," + "234" + "." + "50")) == Some(1234.5)
  {
    CleanGroupedPrice("1", "234", "50");
    SmallDigitValues();
  }

  /** The values of the digit strings used in the examples. */
  lemma SmallDigitValues()
    ensures DigitsValue("1") == 1 && DigitsValue("234") == 234 && FracValue("50") == 0.5
    ensures DigitsValue("0") == 0 && FracValue("00") == 0.0
    ensures DigitsValue("499") == 499
  {
    assert "234"[..2] == "23" && "23"[..1] == "2" && "2"[..0] == [];
    assert "1"[..0] == [] && "50"[..1] == "5" && "5"[..0] == [];
    assert "00"[..1] == "0" && "0"[..0] == [];
    assert "499"[..2] == "49" && "49"[..1] == "4" && "4"[..0] == [];
    assert Pow10(2) == 100;
  }

  /** "₹0.00" converts to 0. */
  lemma CleanPriceZero()
    ensures CleanPrice(Some([RUPEE] + "0" + "." + "00")) == Some(0.0)
  {
    CleanPlainPrice("0", "00");
    SmallDigitValues();
  }

  /** Empty price text converts to nothing. */
  lemma CleanPriceEmpty()
    ensures CleanPrice(Some("")) == None
  {
  }

  /** The optional sign in front of a number. */
  predicate IsSign(t: string)
  {
    t == "" || t == "+" || t == "-"
  }

  /** A sign followed by digits converts to the signed value of the
      digits. */
  lemma ParseSignedWhole(sign: string, ds: string)
    requires IsSign(sign)
    requires ds != [] && AllDigits(ds)
    ensures var v := DigitsValue(ds) as real;
      ParseDecimal(sign + ds) == Some(if sign == "-" then -v else v)
  {
    ParseUnsignedWhole(ds);
    assert IsDigit(ds[0]);
    SignedText(sign, ds, DigitsValue(ds) as real);
  }

  /** A sign followed by digits, a point and more digits converts to the
      signed value of the digits; either run of digits may be empty, but not
      both. */
  lemma ParseSignedPoint(sign: string, ds: string, fs: string)
    requires IsSign(sign)
    requires ds + fs != [] && AllDigits(ds) && AllDigits(fs)
    ensures var v := DigitsValue(ds) as real + FracValue(fs);
      ParseDecimal(sign + (ds + "." + fs)) == Some(if sign == "-" then -v else v)
  {
    var u := ds + "." + fs;
    ParseUnsignedOf(ds, fs);
    assert u[0] == if ds == [] then '.' else ds[0];
    SignedText(sign, u, DigitsValue(ds) as real + FracValue(fs));
  }

  /** A sign in front of unsigned text that does not itself start with a
      sign negates the value or leaves it as it is. */
  lemma SignedText(sign: string, u: string, v: real)
    requires IsSign(sign)
    requires u != [] && u[0] != '-' && u[0] != '+' && ParseUnsigned(u) == Some(v)
    ensures ParseDecimal(sign + u) == Some(if sign == "-" then -v else v)
  {
    var t := sign + u;
    if sign == "" {
      assert t == u;
    } else {
      assert t[0] == sign[0] && t[1..] == u;
    }
  }

  /** `s` is made of the sign `sign`, the digits `ds` and, when written, a
      point followed by the digits `fs`, with at least one digit in all. */
  predicate DecimalParts(s: string, sign: string, ds: string, fs: string)
  {
    IsSign(sign) && AllDigits(ds) && AllDigits(fs) &&
    ((ds != [] && s == sign + ds) || (ds + fs != [] && s == sign + (ds + "." + fs)))
  }

  /** The grammar of the numbers the conversion accepts: an optional `+` or
      `-`, then digits, optionally a point and more digits. */
  ghost predicate IsDecimalText(s: string)
  {
    exists sign: string, ds: string, fs: string :: DecimalParts(s, sign, ds, fs)
  }

  /** The conversion succeeds exactly on the texts of the grammar. */
  lemma ParseDecimalIff(s: string)
    ensures ParseDecimal(s).Some? <==> IsDecimalText(s)
  {
    if IsDecimalText(s) {
      var sign: string, ds: string, fs: string :| DecimalParts(s, sign, ds, fs);
      if ds != [] && s == sign + ds {
        ParseSignedWhole(sign, ds);
      } else {
        ParseSignedPoint(sign, ds, fs);
      }
    }
    if ParseDecimal(s).Some? {
      var sign, ds, fs := DecimalSplit(s);
      assert DecimalParts(s, sign, ds, fs);
    }
  }

  /** Splits text the conversion accepts into its sign and digit runs. */
  lemma DecimalSplit(s: string) returns (sign: string, ds: string, fs: string)
    requires ParseDecimal(s).Some?
    ensures DecimalParts(s, sign, ds, fs)
  {
    sign := if s[0] == '-' || s[0] == '+' then s[..1] else [];
    var u := s[|sign|..];
    assert s == sign + u;
    ds, fs := UnsignedSplit(u);
  }

  /** Splits unsigned text the conversion accepts into its digit runs. */
  lemma UnsignedSplit(u: string) returns (ds: string, fs: string)
    requires ParseUnsigned(u).Some?
    ensures AllDigits(ds) && AllDigits(fs)
    ensures (ds != [] && u == ds) || (ds + fs != [] && u == ds + "." + fs)
  {
    var n := DigitRun(u);
    ds := u[..n];
    if n == |u| {
      fs := [];
      assert u == ds;
    } else {
      fs := u[n + 1..];
      assert u == ds + "." + fs;
    }
  }

  /** Digits alone convert to their value. */
  lemma ParseUnsignedWhole(ds: string)
    requires ds != [] && AllDigits(ds)
    ensures ParseUnsigned(ds) == Some(DigitsValue(ds) as real)
  {
    DigitRunOfDigits(ds, []);
    assert ds + [] == ds;
    assert ds[..|ds|] == ds;
  }

  /** "₹" followed by digits converts to their value. */
  lemma CleanWholePrice(ds: string)
    requires ds != [] && AllDigits(ds)
    ensures CleanPrice(Some([RUPEE] + ds)) == Some(DigitsValue(ds) as real)
  {
    StripCurrencyKeeps(ds);
    StripCurrencyDropsHead(RUPEE, ds);
    ParseUnsignedWhole(ds);
    assert ds[0] != '-' && ds[0] != '+';
  }

  /** "₹499" converts to 499. */
  lemma CleanPriceWhole()
    ensures CleanPrice(Some([RUPEE] + "499")) == Some(499.0)
  {
    CleanWholePrice("499");
    SmallDigitValues();
  }

  lemma {:induction false} DigitRunOfDigits(ds: string, rest: string)
    requires AllDigits(ds)
    requires rest == [] || !IsDigit(rest[0])
    ensures DigitRun(ds + rest) == |ds|
  {
    if ds != [] {
      assert (ds + rest)[1..] == ds[1..] + rest;
      DigitRunOfDigits(ds[1..], rest);
    }
  }

  lemma ParseUnsignedOf(ds: string, fs: string)
    requires AllDigits(ds) && AllDigits(fs) && ds + fs != []
    ensures ParseUnsigned(ds + "." + fs) == Some(DigitsValue(ds) as real + FracValue(fs))
  {
    if ds == [] {
      ParseFraction(fs);
    } else {
      ParseWholeAndFraction(ds, fs);
    }
  }

  /** Digits, a point and digits convert to the value of both runs. */
  lemma ParseWholeAndFraction(ds: string, fs: string)
    requires ds != [] && AllDigits(ds) && AllDigits(fs)
    ensures ParseUnsigned(ds + "." + fs) == Some(DigitsValue(ds) as real + FracValue(fs))
  {
    var s := ds + "." + fs;
    assert s == ds + ("." + fs);
    DigitRunOfDigits(ds, "." + fs);
    assert s[..|ds|] == ds && s[|ds|] == '.' && s[|ds| + 1..] == fs;
  }

  /** A point followed by digits converts to the value of the digits as a
      fraction. */
  lemma ParseFraction(fs: string)
    requires fs != [] && AllDigits(fs)
    ensures ParseUnsigned([] + "." + fs) == Some(DigitsValue([]) as real + FracValue(fs))
  {
    var s := [] + "." + fs;
    assert DigitRun(s) == 0;
    assert s[..0] == [] && s[0] == '.' && s[1..] == fs;
  }

  /** Inserts a comma before every group of three digits counted from the
      right. */
  function Group(ds: string): (r: string)
    requires ds != [] && AllDigits(ds)
    ensures r != [] && IsDigit(r[0]) && r[0] == ds[0]
    ensures |ds| <= 3 ==> r == ds
    ensures forall i :: 0 <= i < |r| ==> IsDigit(r[i]) || r[i] == ','
    ensures WellGrouped(r)
    ensures StripCurrency(r) == ds
  {
    if |ds| <= 3 then
      StripCurrencyKeeps(ds);
      ds
    else
      var head := Group(ds[..|ds| - 3]);
      var tail := ds[|ds| - 3..];
      GroupStep(ds, head, tail);
      head + "," + tail
  }

  /** One more group of three digits after what is already grouped. */
  lemma GroupStep(ds: string, head: string, tail: string)
    requires |ds| > 3 && AllDigits(ds) && tail == ds[|ds| - 3..]
    requires head != [] && IsDigit(head[0]) && WellGrouped(head)
    requires forall i :: 0 <= i < |head| ==> IsDigit(head[i]) || head[i] == ','
    requires StripCurrency(head) == ds[..|ds| - 3]
    ensures var r := head + "," + tail;
      && r != [] && IsDigit(r[0])
      && (forall i :: 0 <= i < |r| ==> IsDigit(r[i]) || r[i] == ',')
      && WellGrouped(r)
      && StripCurrency(r) == ds
  {
    GroupedChars(head, tail);
    GroupedStrip(ds, head, tail);
  }

  /** Appending a comma and three digits keeps the text grouped. */
  lemma GroupedChars(head: string, tail: string)
    requires |tail| == 3 && AllDigits(tail)
    requires head != [] && IsDigit(head[0]) && WellGrouped(head)
    requires forall i :: 0 <= i < |head| ==> IsDigit(head[i]) || head[i] == ','
    ensures var r := head + "," + tail;
      && r != [] && IsDigit(r[0])
      && (forall i :: 0 <= i < |r| ==> IsDigit(r[i]) || r[i] == ',')
      && WellGrouped(r)
  {
    var r := head + "," + tail;
    assert r[0] == head[0];
    forall i | 0 <= i < |r| ensures IsDigit(r[i]) || r[i] == ',' {
      if i > |head| {
        assert r[i] == tail[i - |head| - 1];
      } else if i < |head| {
        assert r[i] == head[i];
      }
    }
    assert r[..|r| - 4] == head && r[|r| - 3..] == tail && r[|r| - 4] == ',';
  }

  /** Removing the comma from head + "," + tail gives back the digits. */
  lemma GroupedStrip(ds: string, head: string, tail: string)
    requires |ds| > 3 && AllDigits(ds) && tail == ds[|ds| - 3..]
    requires StripCurrency(head) == ds[..|ds| - 3]
    ensures StripCurrency(head + "," + tail) == ds
  {
    assert AllDigits(tail);
    StripCurrencyConcat(head + ",", tail);
    StripCurrencyConcat(head, ",");
    StripCurrencyKeeps(tail);
    assert StripCurrency(",") == [];
    assert ds[..|ds| - 3] + tail == ds;
  }

  /** Digits split by commas into groups: a leading group of one to three
      digits, then groups of exactly three. */
  predicate WellGrouped(g: string)
    decreases |g|
  {
    || (1 <= |g| <= 3 && AllDigits(g))
    || (|g| >= 5 && g[|g| - 4] == ',' && AllDigits(g[|g| - 3..]) && WellGrouped(g[..|g| - 4]))
  }

  function Abs(x: real): real
  {
    if x < 0.0 then -x else x
  }

  /** Rounds a non-negative value to the nearest integer, ties to even. */
  function RoundHalfEven(v: real): (n: nat)
    requires v >= 0.0
    ensures -0.5 <= n as real - v <= 0.5
    ensures v - v.Floor as real != 0.5 ==> -0.5 < n as real - v < 0.5
    ensures v - v.Floor as real == 0.5 ==> n % 2 == 0
  {
    var f := v.Floor;
    var d := v - f as real;
    if d < 0.5 then f
    else if d > 0.5 then f + 1
    else if f % 2 == 0 then f else f + 1
  }

  /** The number of hundredths shown for `x`, ignoring its sign. */
  function Cents(x: real): (n: nat)
    ensures var v := Abs(x) * 100.0; -0.5 <= n as real - v <= 0.5
    ensures var v := Abs(x) * 100.0; v - v.Floor as real == 0.5 ==> n % 2 == 0
  {
    RoundHalfEven(Abs(x) * 100.0)
  }

  function TwoDigits(n: nat): (r: string)
    requires n < 100
    ensures |r| == 2 && AllDigits(r) && DigitsValue(r) == n
  {
    var r := [DigitChar(n / 10), DigitChar(n % 10)];
    assert r[..1] == [DigitChar(n / 10)] && r[..1][..0] == [];
    assert DigitsValue(r[..1]) == n / 10;
    r
  }

  /** `f'₹{x:,.2f}'` on the exact value `x`: the rupee sign, a minus sign
      exactly when `x` is negative, the integer digits grouped in threes by
      commas, then the only point in the text and exactly two digits. */
  function Format(x: real): (r: string)
    ensures |r| >= 5 && r[0] == RUPEE
    ensures (r[1] == '-') <==> x < 0.0
    ensures r[|r| - 3] == '.' && IsDigit(r[|r| - 2]) && IsDigit(r[|r| - 1])
    ensures forall i :: 0 <= i < |r| - 3 ==> r[i] != '.'
    ensures WellGrouped(r[(if x < 0.0 then 2 else 1)..|r| - 3])
    ensures var k := if x < 0.0 then 2 else 1; r[k] == '0' ==> r[k + 1] == '.'
  {
    var c := Cents(x);
    var r := [RUPEE] + SignText(x) + Group(NatToDigits(c / 100)) + "." + TwoDigits(c % 100);
    FormattedShape(x, c, r);
    r
  }

  /** The shape `Format` promises, for the text assembled from the cents
      `c` of `x`. */
  lemma FormattedShape(x: real, c: nat, r: string)
    requires r == [RUPEE] + SignText(x) + Group(NatToDigits(c / 100)) + "." + TwoDigits(c % 100)
    ensures |r| >= 5 && r[0] == RUPEE
    ensures (r[1] == '-') <==> x < 0.0
    ensures r[|r| - 3] == '.' && IsDigit(r[|r| - 2]) && IsDigit(r[|r| - 1])
    ensures forall i :: 0 <= i < |r| - 3 ==> r[i] != '.'
    ensures WellGrouped(r[(if x < 0.0 then 2 else 1)..|r| - 3])
    ensures var k := if x < 0.0 then 2 else 1; r[k] == '0' ==> r[k + 1] == '.'
  {
    GroupedLead(c / 100);
    AssembledShape(x < 0.0, SignText(x), Group(NatToDigits(c / 100)), TwoDigits(c % 100), r);
    AssembledDigits(x < 0.0, SignText(x), Group(NatToDigits(c / 100)), TwoDigits(c % 100), r);
  }

  /** The grouped integer digits start with a zero only when they are the
      single digit zero. */
  lemma GroupedLead(n: nat)
    ensures var g := Group(NatToDigits(n)); g[0] == '0' ==> g == "0"
  {
  }

  /** The frame of a rupee sign, an optional minus, grouped digits, a point
      and two digits: the sign, the only point and the two decimals. */
  lemma AssembledShape(neg: bool, sign: string, grouped: string, dd: string, r: string)
    requires sign == if neg then "-" else ""
    requires grouped != [] && IsDigit(grouped[0])
    requires forall i :: 0 <= i < |grouped| ==> IsDigit(grouped[i]) || grouped[i] == ','
    requires |dd| == 2 && AllDigits(dd)
    requires r == [RUPEE] + sign + grouped + "." + dd
    ensures |r| >= 5 && r[0] == RUPEE
    ensures (r[1] == '-') <==> neg
    ensures r[|r| - 3] == '.' && IsDigit(r[|r| - 2]) && IsDigit(r[|r| - 1])
    ensures forall i :: 0 <= i < |r| - 3 ==> r[i] != '.'
  {
    var lead := [RUPEE] + sign;
    assert r == lead + grouped + ("." + dd);
    assert r[1] == if sign == "-" then '-' else grouped[0];
    assert r[|r| - 3..] == "." + dd;
    forall i | 0 <= i < |r| - 3 ensures r[i] != '.' {
      if i < |lead| {
        assert r[i] == lead[i];
      } else {
        assert r[i] == grouped[i - |lead|];
      }
    }
  }

  /** Between the sign and the point lie the grouped digits, which start
      with a zero only when they are that single zero. */
  lemma AssembledDigits(neg: bool, sign: string, grouped: string, dd: string, r: string)
    requires sign == if neg then "-" else ""
    requires grouped != [] && WellGrouped(grouped)
    requires grouped[0] == '0' ==> grouped == "0"
    requires |dd| == 2
    requires r == [RUPEE] + sign + grouped + "." + dd
    ensures var k := if neg then 2 else 1; r[k..|r| - 3] == grouped && WellGrouped(r[k..|r| - 3])
    ensures var k := if neg then 2 else 1; r[k] == '0' ==> r[k + 1] == '.'
  {
    var lead := [RUPEE] + sign;
    assert r == lead + grouped + ("." + dd);
    assert r[|lead|..|r| - 3] == grouped;
    assert r[|lead|] == grouped[0];
  }

  /** The value the formatted text stands for: `x` rounded to hundredths. */
  function Rounded(x: real): real
  {
    (if x < 0.0 then -(Cents(x) as real) else Cents(x) as real) / 100.0
  }

  lemma CentsValue(c: nat)
    ensures (c / 100) as real + FracValue(TwoDigits(c % 100)) == c as real / 100.0
  {
    assert Pow10(2) == 100;
    assert c == (c / 100) * 100 + c % 100;
  }

  /** The formatted text of `x` before it is assembled: sign, integer
      digits and the two decimals. */
  function SignText(x: real): string
  {
    if x < 0.0 then "-" else ""
  }

  lemma StripFormatted(x: real)
    ensures StripCurrency(Format(x))
            == SignText(x) + NatToDigits(Cents(x) / 100) + "." + TwoDigits(Cents(x) % 100)
  {
    var c := Cents(x);
    var sign := SignText(x);
    var ds := NatToDigits(c / 100);
    var dd := TwoDigits(c % 100);
    var grouped := Group(ds);
    var lead := [RUPEE] + sign;
    assert Format(x) == lead + grouped + "." + dd;
    StripCurrencyConcat(lead + grouped + ".", dd);
    StripCurrencyConcat(lead + grouped, ".");
    StripCurrencyConcat(lead, grouped);
    StripCurrencyConcat([RUPEE], sign);
    assert StripCurrency([RUPEE]) == [];
    StripCurrencyKeeps(sign);
    StripCurrencyKeeps(".");
    StripCurrencyKeeps(dd);
  }

  lemma ParseSigned(x: real, u: string, v: real)
    requires u != [] && IsDigit(u[0]) && ParseUnsigned(u) == Some(v)
    ensures ParseDecimal(SignText(x) + u) == Some(if x < 0.0 then -v else v)
  {
    var s := SignText(x) + u;
    if x < 0.0 {
      assert s[0] == '-' && s[1..] == u;
    } else {
      assert s == u;
    }
  }

  /** Stripping the rupee sign and commas from the formatted text and parsing
      the rest gives back the rounded value; the parse never fails. */
  lemma FormatRoundTrip(x: real)
    ensures ParseDecimal(StripCurrency(Format(x))) == Some(Rounded(x))
  {
    var c := Cents(x);
    var ds := NatToDigits(c / 100);
    var dd := TwoDigits(c % 100);
    var unsigned := ds + "." + dd;
    StripFormatted(x);
    assert StripCurrency(Format(x)) == SignText(x) + unsigned;
    ParseUnsignedOf(ds, dd);
    CentsValue(c);
    var v := c as real / 100.0;
    assert ParseUnsigned(unsigned) == Some(v);
    assert unsigned[0] == ds[0];
    ParseSigned(x, unsigned, v);
    assert Rounded(x) == if x < 0.0 then -v else v;
  }

  /** A value with at most two decimals is exactly what its formatted text
      says. */
  predicate HasCents(x: real)
  {
    (x * 100.0).Floor as real == x * 100.0
  }

  lemma RoundedExact(x: real)
    requires HasCents(x)
    ensures Rounded(x) == x
  {
    var m := (x * 100.0).Floor;
    if x < 0.0 {
      assert Abs(x) * 100.0 == (-m) as real;
      assert Cents(x) == -m;
    } else {
      assert Abs(x) * 100.0 == m as real;
      assert Cents(x) == m;
    }
  }

  /** Format, strip, parse: the identity on values with at most two decimals. */
  lemma FormatParseIdentity(x: real)
    requires HasCents(x)
    ensures ParseDecimal(StripCurrency(Format(x))) == Some(x)
  {
    FormatRoundTrip(x);
    RoundedExact(x);
  }

  /** Rounding to hundredths moves a value by at most half a hundredth and
      keeps its sign. */
  lemma RoundedBounds(x: real)
    ensures -0.005 <= Rounded(x) - x <= 0.005
    ensures x <= 0.0 ==> Rounded(x) <= 0.0
    ensures x >= 0.0 ==> Rounded(x) >= 0.0
  {
  }

  /** What the fallback statistics do with one formatted price: strip the
      rupee sign and commas and convert back to a number. */
  function Reparse(x: real): (r: real)
    ensures r == Rounded(x)
  {
    FormatRoundTrip(x);
    ParseDecimal(StripCurrency(Format(x))).value
  }
}
