/** The weighted common-subsequence score of matcher/matcher.go (lcs,
    scoreMatch, atWordStart, max). A matched pair of characters scores 2
    when the candidate's character starts a word or continues a run of
    equal neighbours, and 1 otherwise. MatchTV passes the candidate title
    as `a` and the normalised query as `b`. */
module Scorer {

  function Max(x: int, y: int): (r: int)
    ensures r >= x && r >= y
    ensures r == x || r == y
  {
    if x > y then x else y
  }

  function Min(x: int, y: int): (r: int)
    ensures r <= x && r <= y
    ensures r == x || r == y
  {
    if x < y then x else y
  }

  /** a[i] starts a word: it is the first character or follows a space. */
  predicate AtWordStart(a: string, i: int)
    requires 0 <= i <= |a|
  {
    i == 0 || a[i - 1] == ' '
  }

  /** The reward for matching a[i] with b[j]: 2 at the start of a word of
      `a` or when the preceding characters also agree, else 1. */
  function ScoreMatch(a: string, b: string, i: int, j: int): (r: int)
    requires 0 <= i <= |a| && 0 <= j <= |b|
    ensures r == 1 || r == 2
    ensures r == 2 <==> AtWordStart(a, i) || (i > 0 && j > 0 && a[i - 1] == b[j - 1])
  {
    if AtWordStart(a, i) then 2
    else if i > 0 && j > 0 && a[i - 1] == b[j - 1] then 2
    else 1
  }

  /** The table entry for the prefixes a[..i] and b[..j]. Equal last
      characters are always matched; otherwise the better of dropping one
      of them is kept. Each pair scores at most 2. */
  function Table(a: string, b: string, i: nat, j: nat): (r: int)
    requires i <= |a| && j <= |b|
    ensures 0 <= r <= 2 * Min(i, j)
    decreases i + j
  {
    if i == 0 || j == 0 then 0
    else if a[i - 1] == b[j - 1] then ScoreMatch(a, b, i - 1, j - 1) + Table(a, b, i - 1, j - 1)
    else Max(Table(a, b, i - 1, j), Table(a, b, i, j - 1))
  }

  /** lcs: 0 when either string is empty, else the full table's last entry. */
  function Lcs(a: string, b: string): (r: int)
    ensures 0 <= r <= 2 * Min(|a|, |b|)
    ensures |a| == 0 || |b| == 0 ==> r == 0
  {
    if |a| == 0 || |b| == 0 then 0 else Table(a, b, |a|, |b|)
  }

  /** The inner loop of lcs: row i of the table from row i - 1. */
  method FillRow(a: string, b: string, i: nat, prev: seq<int>) returns (row: seq<int>)
    requires 1 <= i <= |a|
    requires |prev| == |b| + 1
    requires forall c :: 0 <= c <= |b| ==> prev[c] == Table(a, b, i - 1, c)
    ensures |row| == |b| + 1
    ensures forall c :: 0 <= c <= |b| ==> row[c] == Table(a, b, i, c)
  {
    row := [0];
    var j := 1;
    while j <= |b|
      invariant 1 <= j <= |b| + 1
      invariant |row| == j
      invariant forall c :: 0 <= c < j ==> row[c] == Table(a, b, i, c)
    {
      var entry;
      if a[i - 1] == b[j - 1] {
        entry := ScoreMatch(a, b, i - 1, j - 1) + prev[j - 1];
        assert entry == Table(a, b, i, j);
      } else {
        entry := Max(prev[j], row[j - 1]);
        assert entry == Table(a, b, i, j);
      }
      row := row + [entry];
      j := j + 1;
    }
  }

  /** lcs as the loops of the source fill the table, row by row; only the
      previous row is read while the next one is filled. */
  method ComputeLcs(a: string, b: string) returns (score: int)
    ensures score == Lcs(a, b)
    ensures 0 <= score <= 2 * Min(|a|, |b|)
  {
    if |a| == 0 || |b| == 0 {
      return 0;
    }
    var prev := seq(|b| + 1, c => 0);
    var i := 1;
    while i <= |a|
      invariant 1 <= i <= |a| + 1
      invariant |prev| == |b| + 1
      invariant forall c :: 0 <= c <= |b| ==> prev[c] == Table(a, b, i - 1, c)
    {
      prev := FillRow(a, b, i, prev);
      i := i + 1;
    }
    score := prev[|b|];
  }
}

/** How the weighted score relates to the plain longest common subsequence,
    and what it says about candidates. */
module ScorerFacts {
  import opened Text
  import opened Scorer

  /** A position starts a word exactly when splitting the text before it
      at spaces leaves an empty last piece: nothing of a word precedes it. */
  lemma AtWordStartIffEmptyLastPiece(a: string, i: nat)
    requires i <= |a|
    ensures var ws := Split(a[..i], ' ');
            AtWordStart(a, i) <==> ws[|ws| - 1] == []
  {
    var s := a[..i];
    var ws := Split(s, ' ');
    var w := ws[|ws| - 1];
    JoinEndsWithLast(ws, ' ');
    if w != [] {
      assert s[|s| - 1] == w[|w| - 1];
      assert s[|s| - 1] != ' ';
    } else if |ws| >= 2 {
      assert s[|s| - 1] == ' ';
    }
  }

  /** The textbook length of a longest common subsequence of a[..i] and
      b[..j]. */
  function PlainTable(a: string, b: string, i: nat, j: nat): (r: nat)
    requires i <= |a| && j <= |b|
    decreases i + j
  {
    if i == 0 || j == 0 then 0
    else if a[i - 1] == b[j - 1] then 1 + PlainTable(a, b, i - 1, j - 1)
    else Max(PlainTable(a, b, i - 1, j), PlainTable(a, b, i, j - 1))
  }

  /** Every matched pair scores 1 or 2, so the weighted entry lies between
      the plain length and twice it. */
  lemma TableBetweenPlainAndDouble(a: string, b: string, i: nat, j: nat)
    requires i <= |a| && j <= |b|
    ensures PlainTable(a, b, i, j) <= Table(a, b, i, j) <= 2 * PlainTable(a, b, i, j)
  {
    PlainBelowTable(a, b, i, j);
    TableBelowDouble(a, b, i, j);
  }

  lemma {:induction false} PlainBelowTable(a: string, b: string, i: nat, j: nat)
    requires i <= |a| && j <= |b|
    ensures PlainTable(a, b, i, j) <= Table(a, b, i, j)
    decreases i + j
  {
    if i > 0 && j > 0 {
      if a[i - 1] == b[j - 1] {
        PlainBelowTable(a, b, i - 1, j - 1);
        PlainMatchedStep(a, b, i, j);
      } else {
        PlainBelowTable(a, b, i - 1, j);
        PlainBelowTable(a, b, i, j - 1);
        PlainUnmatchedStep(a, b, i, j);
      }
    }
  }

  lemma PlainMatchedStep(a: string, b: string, i: nat, j: nat)
    requires 0 < i <= |a| && 0 < j <= |b| && a[i - 1] == b[j - 1]
    requires PlainTable(a, b, i - 1, j - 1) <= Table(a, b, i - 1, j - 1)
    ensures PlainTable(a, b, i, j) <= Table(a, b, i, j)
  {
    MatchedEntries(a, b, i, j);
  }

  lemma PlainUnmatchedStep(a: string, b: string, i: nat, j: nat)
    requires 0 < i <= |a| && 0 < j <= |b| && a[i - 1] != b[j - 1]
    requires PlainTable(a, b, i - 1, j) <= Table(a, b, i - 1, j)
    requires PlainTable(a, b, i, j - 1) <= Table(a, b, i, j - 1)
    ensures PlainTable(a, b, i, j) <= Table(a, b, i, j)
  {
    UnmatchedEntries(a, b, i, j);
  }

  lemma {:induction false} TableBelowDouble(a: string, b: string, i: nat, j: nat)
    requires i <= |a| && j <= |b|
    ensures Table(a, b, i, j) <= 2 * PlainTable(a, b, i, j)
    decreases i + j
  {
    if i > 0 && j > 0 {
      if a[i - 1] == b[j - 1] {
        TableBelowDouble(a, b, i - 1, j - 1);
        DoubledMatchedStep(a, b, i, j);
      } else {
        TableBelowDouble(a, b, i - 1, j);
        TableBelowDouble(a, b, i, j - 1);
        DoubledUnmatchedStep(a, b, i, j);
      }
    }
  }

  lemma DoubledMatchedStep(a: string, b: string, i: nat, j: nat)
    requires 0 < i <= |a| && 0 < j <= |b| && a[i - 1] == b[j - 1]
    requires Table(a, b, i - 1, j - 1) <= 2 * PlainTable(a, b, i - 1, j - 1)
    ensures Table(a, b, i, j) <= 2 * PlainTable(a, b, i, j)
  {
    MatchedEntries(a, b, i, j);
  }

  lemma DoubledUnmatchedStep(a: string, b: string, i: nat, j: nat)
    requires 0 < i <= |a| && 0 < j <= |b| && a[i - 1] != b[j - 1]
    requires Table(a, b, i - 1, j) <= 2 * PlainTable(a, b, i - 1, j)
    requires Table(a, b, i, j - 1) <= 2 * PlainTable(a, b, i, j - 1)
    ensures Table(a, b, i, j) <= 2 * PlainTable(a, b, i, j)
  {
    UnmatchedEntries(a, b, i, j);
  }

  /** Both tables, one step back, when the last characters agree. */
  lemma MatchedEntries(a: string, b: string, i: nat, j: nat)
    requires 0 < i <= |a| && 0 < j <= |b| && a[i - 1] == b[j - 1]
    ensures 1 <= Table(a, b, i, j) - Table(a, b, i - 1, j - 1) <= 2
    ensures PlainTable(a, b, i, j) == 1 + PlainTable(a, b, i - 1, j - 1)
  {
  }

  /** Both tables, one step back, when the last characters differ. */
  lemma UnmatchedEntries(a: string, b: string, i: nat, j: nat)
    requires 0 < i <= |a| && 0 < j <= |b| && a[i - 1] != b[j - 1]
    ensures Table(a, b, i, j) == Max(Table(a, b, i - 1, j), Table(a, b, i, j - 1))
    ensures PlainTable(a, b, i, j) == Max(PlainTable(a, b, i - 1, j), PlainTable(a, b, i, j - 1))
  {
  }

  predicate SharedBefore(a: string, b: string, i: nat, j: nat)
    requires i <= |a| && j <= |b|
  {
    exists x, y :: 0 <= x < i && 0 <= y < j && a[x] == b[y]
  }

  /** An entry is positive exactly when the prefixes share a character. */
  lemma {:induction false} TablePositiveIffShared(a: string, b: string, i: nat, j: nat)
    requires i <= |a| && j <= |b|
    ensures Table(a, b, i, j) > 0 <==> SharedBefore(a, b, i, j)
    decreases i + j
  {
    if i > 0 && j > 0 {
      if a[i - 1] == b[j - 1] {
        assert a[i - 1] == b[j - 1];
      } else {
        TablePositiveIffShared(a, b, i - 1, j);
        TablePositiveIffShared(a, b, i, j - 1);
        if SharedBefore(a, b, i, j) {
          var x, y :| 0 <= x < i && 0 <= y < j && a[x] == b[y];
          if x < i - 1 {
            assert SharedBefore(a, b, i - 1, j);
          } else {
            assert SharedBefore(a, b, i, j - 1);
          }
        }
      }
    }
  }

  /** A candidate scores above 0 exactly when it shares a character with
      the query. */
  lemma LcsPositiveIffShared(a: string, b: string)
    ensures Lcs(a, b) > 0 <==> exists x, y :: 0 <= x < |a| && 0 <= y < |b| && a[x] == b[y]
  {
    TablePositiveIffShared(a, b, |a|, |b|);
  }

  lemma {:induction false} TableOfItself(s: string, i: nat)
    requires i <= |s|
    ensures Table(s, s, i, i) == 2 * i
  {
    if i > 0 {
      TableOfItself(s, i - 1);
    }
  }

  /** A string scores the most it can against itself: 2 per character. */
  lemma LcsOfItself(s: string)
    ensures Lcs(s, s) == 2 * |s|
  {
    TableOfItself(s, |s|);
  }

  /** No candidate outscores the query itself. */
  lemma QueryItselfScoresTop(t: string, q: string)
    ensures Lcs(t, q) <= Lcs(q, q)
  {
    LcsOfItself(q);
  }

  /** The score is not monotone in the candidate: equal last characters are
      always matched, even when skipping one would score more, so adding a
      character to "ab" lowers its score against "a". */
  lemma LongerCandidateCanScoreLess()
    ensures Lcs("ab", "a") == 2 && Lcs("aba", "a") == 1
  {
  }
}
