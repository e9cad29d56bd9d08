/** MatchSeasonNo of matcher/matcher.go: the season number a title carries,
    found with the regular expression `season ?([0-9]+)` on the lower-cased
    title whose punctuation has been blanked out. */
module Season {
  import opened Text
  import opened Normalizer

  /** The largest value strconv.Atoi accepts on a 64-bit platform. */
  const MaxInt: int := 0x7fff_ffff_ffff_ffff

  /** The text the regular expression runs over. */
  function SeasonText(title: string): (t: string)
    ensures |t| == |title|
    ensures forall i :: 0 <= i < |t| ==> IsLower(t[i]) || IsDigit(t[i]) || t[i] == ' '
  {
    ReplaceWithSpaces(ToLower(title))
  }

  lemma SeasonTextAppend(a: string, b: string)
    ensures SeasonText(a + b) == SeasonText(a) + SeasonText(b)
  {
  }

  // ---------------------------------------------------------------------
  // The regular expression, as a description of its matches
  // ---------------------------------------------------------------------

  predicate AllDigits(s: string, lo: int, hi: int)
    requires 0 <= lo <= hi <= |s|
  {
    forall i :: lo <= i < hi ==> IsDigit(s[i])
  }

  /** t[p..e] reads "season", an optional space, then the digits t[k..e],
      and no further digit follows: the greedy `?` takes the space exactly
      when a digit comes after it, and the greedy `+` takes the whole run. */
  predicate MatchShape(t: string, p: int, k: int, e: int) {
    && 0 <= p && p + 6 <= k < e <= |t|
    && StartsWith(t[p..], SeasonWord)
    && (k == p + 6 || (k == p + 7 && t[p + 6] == ' '))
    && AllDigits(t, k, e)
    && (e == |t| || !IsDigit(t[e]))
  }

  /** The match FindStringSubmatch reports: the leftmost one. */
  ghost predicate IsRegexMatch(t: string, p: int, k: int, e: int) {
    && MatchShape(t, p, k, e)
    && forall m, k', e' :: 0 <= m < p ==> !MatchShape(t, m, k', e')
  }

  // ---------------------------------------------------------------------
  // The search
  // ---------------------------------------------------------------------

  /** Where the digits of a match starting at p begin, if one starts there. */
  function DigitsFrom(t: string, p: nat): (k: Option<nat>)
    requires p <= |t|
    ensures k.Some? ==> && StartsWith(t[p..], SeasonWord)
                        && k.value < |t| && IsDigit(t[k.value])
                        && (k.value == p + 6 || (k.value == p + 7 && t[p + 6] == ' '))
    ensures k.Some? && t[p + 6] == ' ' ==> k.value == p + 7
  {
    if !StartsWith(t[p..], SeasonWord) then None
    else if p + 7 < |t| && t[p + 6] == ' ' && IsDigit(t[p + 7]) then Some(p + 7)
    else if p + 6 < |t| && IsDigit(t[p + 6]) then Some(p + 6)
    else None
  }

  /** The end of the run of digits that starts at k. */
  function DigitRunEnd(t: string, k: nat): (e: nat)
    requires k <= |t|
    ensures k <= e <= |t| && AllDigits(t, k, e)
    ensures e == |t| || !IsDigit(t[e])
    decreases |t| - k
  {
    if k < |t| && IsDigit(t[k]) then DigitRunEnd(t, k + 1) else k
  }

  /** The first position at or after `from` where a match starts. */
  function FindSeason(t: string, from: nat): (r: Option<nat>)
    requires from <= |t|
    ensures r.Some? ==> from <= r.value <= |t| && DigitsFrom(t, r.value).Some?
                        && forall m :: from <= m < r.value ==> DigitsFrom(t, m).None?
    ensures r.None? ==> forall m :: from <= m <= |t| ==> DigitsFrom(t, m).None?
    decreases |t| - from
  {
    if DigitsFrom(t, from).Some? then Some(from)
    else if from == |t| then None
    else FindSeason(t, from + 1)
  }

  /** The search agrees with MatchShape in both directions. */
  lemma DigitsFromShape(t: string, p: nat)
    requires p <= |t|
    ensures DigitsFrom(t, p).Some? ==>
              MatchShape(t, p, DigitsFrom(t, p).value, DigitRunEnd(t, DigitsFrom(t, p).value))
    ensures forall k, e :: MatchShape(t, p, k, e) ==>
              DigitsFrom(t, p) == Some(k) && e == DigitRunEnd(t, k)
  {
    forall k, e | MatchShape(t, p, k, e) ensures DigitsFrom(t, p) == Some(k) && e == DigitRunEnd(t, k) {
      assert DigitsFrom(t, p) == Some(k);
      RunEndUnique(t, k, e);
    }
  }

  /** A maximal run of digits ends where DigitRunEnd says. */
  lemma {:induction false} RunEndUnique(t: string, k: nat, e: nat)
    requires k <= e <= |t| && AllDigits(t, k, e) && (e == |t| || !IsDigit(t[e]))
    ensures e == DigitRunEnd(t, k)
    decreases e - k
  {
    if k < e {
      assert IsDigit(t[k]);
      RunEndUnique(t, k + 1, e);
    }
  }

  // ---------------------------------------------------------------------
  // Decimal values and strconv.Atoi
  // ---------------------------------------------------------------------

  function DigitValue(c: char): (v: nat)
    requires IsDigit(c)
    ensures v < 10
  {
    c as int - '0' as int
  }

  /** The value of a string of decimal digits, leading zeros allowed. */
  function DecimalValue(ds: string): (v: nat)
    requires forall i :: 0 <= i < |ds| ==> IsDigit(ds[i])
    decreases |ds|
  {
    if ds == [] then 0 else DecimalValue(ds[..|ds| - 1]) * 10 + DigitValue(ds[|ds| - 1])
  }

  function Pow10(n: nat): (r: nat)
    ensures r >= 1
  {
    if n == 0 then 1 else 10 * Pow10(n - 1)
  }

  /** n digits spell a value below 10^n. */
  lemma {:induction false} DecimalValueBound(ds: string)
    requires forall i :: 0 <= i < |ds| ==> IsDigit(ds[i])
    ensures DecimalValue(ds) < Pow10(|ds|)
    decreases |ds|
  {
    if ds != [] {
      DecimalValueBound(ds[..|ds| - 1]);
    }
  }

  /** Without a leading zero, n digits spell at least 10^(n-1). */
  lemma {:induction false} DecimalValueLowerBound(ds: string)
    requires forall i :: 0 <= i < |ds| ==> IsDigit(ds[i])
    requires ds != [] && ds[0] != '0'
    ensures DecimalValue(ds) >= Pow10(|ds| - 1)
    decreases |ds|
  {
    if |ds| > 1 {
      DecimalValueLowerBound(ds[..|ds| - 1]);
    }
  }

  /** Leading zeros do not change the value. */
  lemma {:induction false} DecimalValueLeadingZero(ds: string)
    requires forall i :: 0 <= i < |ds| ==> IsDigit(ds[i])
    ensures DecimalValue(['0'] + ds) == DecimalValue(ds)
    decreases |ds|
  {
    if ds != [] {
      var s := ['0'] + ds;
      assert s[..|s| - 1] == ['0'] + ds[..|ds| - 1];
      DecimalValueLeadingZero(ds[..|ds| - 1]);
    } else {
      assert (['0'] + ds)[..0] == [];
    }
  }

  // ---------------------------------------------------------------------
  // MatchSeasonNo
  // ---------------------------------------------------------------------

  /** MatchSeasonNo: the number captured by the leftmost match, or -1 when
      there is no match or strconv.Atoi rejects the number as out of range. */
  function MatchSeasonNo(title: string): (r: int)
    ensures r == -1 || 0 <= r <= MaxInt
    ensures var t := SeasonText(title);
            || (exists p, k, e :: IsRegexMatch(t, p, k, e) && r == DecimalValue(t[k..e]))
            || (r == -1 && forall p, k, e :: IsRegexMatch(t, p, k, e) ==> DecimalValue(t[k..e]) > MaxInt)
  {
    var t := SeasonText(title);
    match FindSeason(t, 0)
    case None =>
      NoMatchAnywhere(t);
      -1
    case Some(p) =>
      var k := DigitsFrom(t, p).value;
      var e := DigitRunEnd(t, k);
      LeftmostFound(t, p);
      var v := DecimalValue(t[k..e]);
      if v <= MaxInt then v else -1
  }

  lemma NoMatchAnywhere(t: string)
    requires FindSeason(t, 0).None?
    ensures forall p, k, e :: !IsRegexMatch(t, p, k, e)
  {
    forall p, k, e | MatchShape(t, p, k, e) ensures false {
      DigitsFromShape(t, p);
    }
  }

  lemma LeftmostFound(t: string, p: nat)
    requires FindSeason(t, 0) == Some(p)
    ensures var k := DigitsFrom(t, p).value;
            IsRegexMatch(t, p, k, DigitRunEnd(t, k))
    ensures forall p', k, e :: IsRegexMatch(t, p', k, e) ==>
              p' == p && k == DigitsFrom(t, p).value && e == DigitRunEnd(t, k)
  {
    DigitsFromShape(t, p);
    var k0 := DigitsFrom(t, p).value;
    assert MatchShape(t, p, k0, DigitRunEnd(t, k0));
    forall m, k', e' | 0 <= m < p ensures !MatchShape(t, m, k', e') {
      DigitsFromShape(t, m);
    }
    forall p', k, e | IsRegexMatch(t, p', k, e)
      ensures p' == p && k == k0 && e == DigitRunEnd(t, k)
    {
      DigitsFromShape(t, p');
    }
  }

  /** The reported match is the only one FindStringSubmatch could report. */
  lemma RegexMatchUnique(t: string, p: int, k: int, e: int, p': int, k': int, e': int)
    requires IsRegexMatch(t, p, k, e) && IsRegexMatch(t, p', k', e')
    ensures p == p' && k == k' && e == e'
  {
    assert MatchShape(t, p, k, e) && MatchShape(t, p', k', e');
    DigitsFromShape(t, p);
  }
}

/** What MatchSeasonNo returns, stated through the regular expression's
    match, and the cases of matcher/matcher_test.go. */
module SeasonFacts {
  import opened Text
  import opened Normalizer
  import opened Season

  /** With a match, the result is its number, or -1 when the number does
      not fit; without one, it is -1. */
  lemma MatchSeasonNoOfMatch(title: string, p: int, k: int, e: int)
    requires IsRegexMatch(SeasonText(title), p, k, e)
    ensures var t := SeasonText(title);
            var v := DecimalValue(t[k..e]);
            MatchSeasonNo(title) == if v <= MaxInt then v else -1
  {
    var t := SeasonText(title);
    forall p', k', e' | IsRegexMatch(t, p', k', e') ensures p' == p && k' == k && e' == e {
      RegexMatchUnique(t, p, k, e, p', k', e');
    }
  }

  lemma MatchSeasonNoWithoutMatch(title: string)
    requires forall p, k, e :: !MatchShape(SeasonText(title), p, k, e)
    ensures MatchSeasonNo(title) == -1
  {
  }

  /** A title without the word "season" has no season number. */
  lemma NoSeasonWordNoNumber(title: string)
    requires !Contains(SeasonText(title), SeasonWord)
    ensures MatchSeasonNo(title) == -1
  {
  }

  /** Up to 18 digits always fit, so the number is returned as written. */
  lemma ShortNumbersFit(title: string, p: int, k: int, e: int)
    requires IsRegexMatch(SeasonText(title), p, k, e) && e - k <= 18
    ensures MatchSeasonNo(title) == DecimalValue(SeasonText(title)[k..e])
  {
    var t := SeasonText(title);
    ShortValueFits(t[k..e]);
    MatchSeasonNoOfMatch(title, p, k, e);
  }

  /** Twenty digits or more, without a leading zero, never fit. */
  lemma LongNumbersRejected(title: string, p: int, k: int, e: int)
    requires IsRegexMatch(SeasonText(title), p, k, e) && e - k >= 20
    requires SeasonText(title)[k] != '0'
    ensures MatchSeasonNo(title) == -1
  {
    var t := SeasonText(title);
    assert t[k..e][0] == t[k];
    LongValueOverflows(t[k..e]);
    MatchSeasonNoOfMatch(title, p, k, e);
  }

  lemma ShortValueFits(ds: string)
    requires forall i :: 0 <= i < |ds| ==> IsDigit(ds[i])
    requires |ds| <= 18
    ensures DecimalValue(ds) <= MaxInt
  {
    DecimalValueBound(ds);
    Pow10Monotone(|ds|, 18);
    Pow10Eighteen();
  }

  lemma LongValueOverflows(ds: string)
    requires forall i :: 0 <= i < |ds| ==> IsDigit(ds[i])
    requires |ds| >= 20 && ds[0] != '0'
    ensures DecimalValue(ds) > MaxInt
  {
    DecimalValueLowerBound(ds);
    Pow10Monotone(19, |ds| - 1);
    Pow10Eighteen();
  }

  lemma {:induction false} Pow10Monotone(m: nat, n: nat)
    requires m <= n
    ensures Pow10(m) <= Pow10(n)
    decreases n - m
  {
    if m < n {
      Pow10Monotone(m, n - 1);
    }
  }

  lemma Pow10Eighteen()
    ensures Pow10(18) == 1_000_000_000_000_000_000
  {
    assert Pow10(6) == 1_000_000;
    assert Pow10(12) == 1_000_000_000_000;
  }

  /** No "season" can start where no 's' is followed by an 'e'. */
  predicate NoSeasonStart(u: string) {
    forall m :: 0 <= m < |u| - 1 ==> u[m] != 's' || u[m + 1] != 'e'
  }

  /** No match starts in [lo, hi) when t[lo..hi] has no "se". */
  lemma NoMatchBetween(t: string, lo: nat, hi: nat)
    requires lo <= hi < |t| && NoSeasonStart(t[lo..hi + 1])
    ensures forall m, k, e :: lo <= m < hi ==> !MatchShape(t, m, k, e)
  {
    forall m, k, e | lo <= m < hi ensures !MatchShape(t, m, k, e) {
      assert t[lo..hi + 1][m - lo] == t[m] && t[lo..hi + 1][m - lo + 1] == t[m + 1];
      if m + 7 <= |t| {
        assert t[m..][0] == t[m] && t[m..][1] == t[m + 1];
      }
    }
  }

  /** No match starts at or after d when t[d..] has no "se". */
  lemma NoMatchFrom(t: string, d: nat)
    requires d <= |t| && NoSeasonStart(t[d..])
    ensures forall m, k, e :: d <= m ==> !MatchShape(t, m, k, e)
  {
    forall m, k, e | d <= m ensures !MatchShape(t, m, k, e) {
      if m + 7 <= |t| {
        assert t[d..][m - d] == t[m] && t[d..][m - d + 1] == t[m + 1];
        assert t[m..][0] == t[m] && t[m..][1] == t[m + 1];
      }
    }
  }

  // The cases of matcher/matcher_test.go, and two more. Each title is
  // first reduced to the text the expression runs over.

  lemma MatchInSeasonThree(t: string)
    requires t == "hello world season 3"
    ensures IsRegexMatch(t, 12, 19, 20) && DecimalValue(t[19..20]) == 3
  {
    assert t[..13] == "hello world s";
    NoMatchBetween(t, 0, 12);
    assert t[12..][..6] == SeasonWord;
    assert t[19..20] == "3";
  }

  lemma MatchInSeasonThreeNoSpace(t: string)
    requires t == "hello world season3"
    ensures IsRegexMatch(t, 12, 18, 19) && DecimalValue(t[18..19]) == 3
  {
    assert t[..13] == "hello world s";
    NoMatchBetween(t, 0, 12);
    assert t[12..][..6] == SeasonWord;
    assert t[18..19] == "3";
  }

  lemma WithSpaces(title: string)
    requires title == "Hello World Season 3"
    ensures MatchSeasonNo(title) == 3
  {
    assert SeasonText(title) == "hello world season 3";
    MatchInSeasonThree(SeasonText(title));
    MatchSeasonNoOfMatch(title, 12, 19, 20);
  }

  lemma WithDots(title: string)
    requires title == "Hello.World.Season.3"
    ensures MatchSeasonNo(title) == 3
  {
    assert SeasonText(title) == "hello world season 3";
    MatchInSeasonThree(SeasonText(title));
    MatchSeasonNoOfMatch(title, 12, 19, 20);
  }

  lemma NoMatchInWordsThenSeason(t: string)
    requires t == "hello world season"
    ensures forall p, k, e :: !MatchShape(t, p, k, e)
  {
    assert t[..13] == "hello world s";
    NoMatchBetween(t, 0, 12);
    assert t[13..] == "eason";
    NoMatchFrom(t, 13);
  }

  lemma SeasonWithoutNumber(title: string)
    requires title == "Hello.World.Season"
    ensures MatchSeasonNo(title) == -1
  {
    assert SeasonText(title) == "hello world season";
    NoMatchInWordsThenSeason(SeasonText(title));
    MatchSeasonNoWithoutMatch(title);
  }

  /** The fourth test case: nothing matches before the "season"... */
  lemma NoMatchBeforeSeasonThenWords(t: string)
    requires t == "hello world season this test is good"
    ensures forall m, k, e :: 0 <= m <= 12 ==> !MatchShape(t, m, k, e)
  {
    assert t[..13] == "hello world s";
    NoMatchBetween(t, 0, 12);
    assert !IsDigit(t[18]) && !IsDigit(t[19]);
  }

  /** ... and nothing matches from its 'e' on. */
  lemma NoMatchAfterSeasonThenWords(t: string)
    requires t == "hello world season this test is good"
    ensures forall m, k, e :: 13 <= m ==> !MatchShape(t, m, k, e)
  {
    assert t[13..] == "eason this test is good";
    NoMatchFrom(t, 13);
  }

  // The title of the fourth test case is reduced to its text in two
  // pieces, the part up to "Season" and the words after it, joined by
  // SeasonTextAppend: the whole literal at once is too costly a step.

  /** The text of the part up to and including "Season". */
  lemma TextOfSeasonThenWordsHead(a: string)
    requires a == "Hello.World.Season"
    ensures SeasonText(a) == "hello world season"
  {
  }

  /** The words after "Season" are already lower case and plain. */
  lemma TextOfSeasonThenWordsTail(b: string)
    requires b == " this test is good"
    ensures SeasonText(b) == b
  {
  }

  /** Where the title splits into the two pieces. */
  lemma SplitSeasonThenWords(title: string)
    requires title == "Hello.World.Season this test is good"
    ensures title[..18] == "Hello.World.Season" && title[18..] == " this test is good"
    ensures title == title[..18] + title[18..]
  {
  }

  /** The text of the two pieces, put together. */
  lemma TextOfSeasonThenWordsPieces(a: string, b: string)
    requires a == "Hello.World.Season" && b == " this test is good"
    ensures SeasonText(a + b) == "hello world season this test is good"
  {
    SeasonTextAppend(a, b);
    TextOfSeasonThenWordsHead(a);
    TextOfSeasonThenWordsTail(b);
  }

  /** The text the expression runs over for the fourth test case. */
  lemma TextOfSeasonThenWords(title: string)
    requires title == "Hello.World.Season this test is good"
    ensures SeasonText(title) == "hello world season this test is good"
  {
    SplitSeasonThenWords(title);
    TextOfSeasonThenWordsPieces(title[..18], title[18..]);
  }

  /** A "season" followed by words and no number is no match. */
  lemma SeasonFollowedByWords(title: string)
    requires title == "Hello.World.Season this test is good"
    ensures MatchSeasonNo(title) == -1
  {
    TextOfSeasonThenWords(title);
    NoMatchBeforeSeasonThenWords(SeasonText(title));
    NoMatchAfterSeasonThenWords(SeasonText(title));
    MatchSeasonNoWithoutMatch(title);
  }

  lemma SeasonNoSpace(title: string)
    requires title == "Hello.World.Season3"
    ensures MatchSeasonNo(title) == 3
  {
    assert SeasonText(title) == "hello world season3";
    MatchInSeasonThreeNoSpace(SeasonText(title));
    MatchSeasonNoOfMatch(title, 12, 18, 19);
  }

  lemma NoMatchWithTwoSpaces(t: string)
    requires t == "show season  2"
    ensures forall p, k, e :: !MatchShape(t, p, k, e)
  {
    assert t[..6] == "show s";
    NoMatchBetween(t, 0, 5);
    assert t[6..] == "eason  2";
    NoMatchFrom(t, 6);
    assert !IsDigit(t[11]) && !IsDigit(t[12]);
  }

  /** The optional space is a single one. */
  lemma TwoSpacesBeforeNumber(title: string)
    requires title == "Show Season  2"
    ensures MatchSeasonNo(title) == -1
  {
    assert SeasonText(title) == "show season  2";
    NoMatchWithTwoSpaces(SeasonText(title));
    MatchSeasonNoWithoutMatch(title);
  }

  lemma NoMatchInSeasonOne(t: string)
    requires t == "season one  season 2"
    ensures forall m, k, e :: 0 <= m < 12 ==> !MatchShape(t, m, k, e)
  {
    assert !IsDigit(t[6]) && !IsDigit(t[7]);
    assert t[1..13] == "eason one  s";
    NoMatchBetween(t, 1, 12);
  }

  lemma MatchAfterSeasonOne(t: string)
    requires t == "season one  season 2"
    ensures IsRegexMatch(t, 12, 19, 20) && DecimalValue(t[19..20]) == 2
  {
    NoMatchInSeasonOne(t);
    assert t[12..][..6] == SeasonWord;
    assert t[19..20] == "2";
  }

  /** The leftmost match of the whole pattern counts: an earlier "season"
      without a number does not stop the search. */
  lemma LaterSeasonWins(title: string)
    requires title == "Season One, Season 2"
    ensures MatchSeasonNo(title) == 2
  {
    assert SeasonText(title) == "season one  season 2";
    MatchAfterSeasonOne(SeasonText(title));
    MatchSeasonNoOfMatch(title, 12, 19, 20);
  }
}
