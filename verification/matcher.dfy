/** MatchTV of matcher/matcher.go: the candidate title, one per line, that
    scores best against the normalised directory name. The reader the
    source scans line by line is given here as the sequence of its lines. */
module Matcher {
  import opened Text
  import opened Normalizer
  import opened Scorer

  /** The score of one candidate line: its lower-cased text against the query. */
  function CandidateScore(query: string, line: string): (r: int)
    ensures 0 <= r <= 2 * |query|
  {
    Lcs(ToLower(line), query)
  }

  /** lines[k] scores at least as much as every line, and strictly more than
      every line before it. */
  predicate IsFirstBest(query: string, lines: seq<string>, k: int) {
    && 0 <= k < |lines|
    && (forall m :: 0 <= m < |lines| ==> CandidateScore(query, lines[m]) <= CandidateScore(query, lines[k]))
    && (forall m :: 0 <= m < k ==> CandidateScore(query, lines[m]) < CandidateScore(query, lines[k]))
  }

  /** MatchTV: normalise the directory name, then pick the best line. */
  method MatchTV(directoryName: string, lines: seq<string>) returns (bestMatch: string)
    ensures lines == [] ==> bestMatch == ""
    ensures lines != [] ==>
              exists k :: IsFirstBest(Normalize(directoryName), lines, k) && bestMatch == ToLower(lines[k])
  {
    var query := Normalize(directoryName);
    bestMatch := BestLine(query, lines);
  }

  /** The scan of MatchTV: keep the lower-cased line whose score first
      exceeds every score before it. The running best starts at -1, so the
      first line is always taken; a later line replaces it only with a
      strictly higher score. No lines give "". */
  method BestLine(query: string, lines: seq<string>) returns (bestMatch: string)
    ensures lines == [] ==> bestMatch == ""
    ensures lines != [] ==> exists k :: IsFirstBest(query, lines, k) && bestMatch == ToLower(lines[k])
  {
    bestMatch := "";
    var bestScore := -1;
    ghost var bestIndex := 0;
    var n := 0;
    while n < |lines|
      invariant 0 <= n <= |lines|
      invariant Scanned(query, lines, n, bestScore, bestMatch, bestIndex)
    {
      var title := ToLower(lines[n]);
      var score := ComputeLcs(title, query);
      assert score == CandidateScore(query, lines[n]);
      ScanStep(query, lines, n, bestScore, bestMatch, bestIndex);
      if score > bestScore {
        bestScore := score;
        bestMatch := title;
        bestIndex := n;
      }
      n := n + 1;
    }
    assert lines[..n] == lines;
    if lines != [] {
      assert IsFirstBest(query, lines, bestIndex) && bestMatch == ToLower(lines[bestIndex]);
    }
  }

  /** The state of the scan after the first n lines. */
  ghost predicate Scanned(query: string, lines: seq<string>, n: int, bestScore: int, bestMatch: string, k: int)
    requires 0 <= n <= |lines|
  {
    && (n == 0 ==> bestScore == -1 && bestMatch == "")
    && (n > 0 ==> && IsFirstBest(query, lines[..n], k)
                  && bestScore == CandidateScore(query, lines[k])
                  && bestMatch == ToLower(lines[k]))
  }

  /** One step of the scan keeps its state. */
  lemma ScanStep(query: string, lines: seq<string>, n: int, bestScore: int, bestMatch: string, k: int)
    requires 0 <= n < |lines| && Scanned(query, lines, n, bestScore, bestMatch, k)
    ensures var score := CandidateScore(query, lines[n]);
            if score > bestScore then Scanned(query, lines, n + 1, score, ToLower(lines[n]), n)
            else Scanned(query, lines, n + 1, bestScore, bestMatch, k)
  {
    var score := CandidateScore(query, lines[n]);
    if n == 0 {
      assert lines[..1][0] == lines[0];
      assert IsFirstBest(query, lines[..1], 0);
    } else if score > bestScore {
      NewBestStep(query, lines, n, k);
    } else {
      KeptBestStep(query, lines, n, k);
    }
  }

  lemma NewBestStep(query: string, lines: seq<string>, n: int, k: int)
    requires 0 < n < |lines|
    requires IsFirstBest(query, lines[..n], k)
    requires CandidateScore(query, lines[n]) > CandidateScore(query, lines[k])
    ensures IsFirstBest(query, lines[..n + 1], n)
  {
    var before, after := lines[..n], lines[..n + 1];
    assert forall m :: 0 <= m <= n ==> after[m] == lines[m];
    assert forall m :: 0 <= m < n ==> before[m] == lines[m];
  }

  lemma KeptBestStep(query: string, lines: seq<string>, n: int, k: int)
    requires 0 < n < |lines|
    requires IsFirstBest(query, lines[..n], k)
    requires CandidateScore(query, lines[n]) <= CandidateScore(query, lines[k])
    ensures IsFirstBest(query, lines[..n + 1], k)
  {
    var before, after := lines[..n], lines[..n + 1];
    assert forall m :: 0 <= m <= n ==> after[m] == lines[m];
    assert forall m :: 0 <= m < n ==> before[m] == lines[m];
  }
}

/** Consequences of MatchTV's contract. */
module MatcherFacts {
  import opened Text
  import opened Normalizer
  import opened Scorer
  import opened ScorerFacts
  import opened Matcher

  /** At most one line is the first best, so the result is determined. */
  lemma FirstBestUnique(query: string, lines: seq<string>, k1: int, k2: int)
    requires IsFirstBest(query, lines, k1) && IsFirstBest(query, lines, k2)
    ensures k1 == k2
  {
    assert CandidateScore(query, lines[k1]) == CandidateScore(query, lines[k2]);
  }

  /** Among lines that all score the same, the first one wins. */
  lemma TieGoesToFirst(query: string, lines: seq<string>)
    requires lines != []
    requires forall m :: 0 <= m < |lines| ==> CandidateScore(query, lines[m]) == CandidateScore(query, lines[0])
    ensures IsFirstBest(query, lines, 0)
  {
  }

  /** When no line shares a character with the query, every line scores 0
      and the first one wins, even when it is empty. */
  lemma NothingSharedFirstWins(query: string, lines: seq<string>)
    requires lines != []
    requires forall m, x, y :: 0 <= m < |lines| && 0 <= x < |lines[m]| && 0 <= y < |query| ==>
               ToLower(lines[m])[x] != query[y]
    ensures IsFirstBest(query, lines, 0)
    ensures forall m :: 0 <= m < |lines| ==> CandidateScore(query, lines[m]) == 0
  {
    forall m | 0 <= m < |lines| ensures CandidateScore(query, lines[m]) == 0 {
      LcsPositiveIffShared(ToLower(lines[m]), query);
    }
    TieGoesToFirst(query, lines);
  }

  /** A line that reads as the query in lower case reaches the top score
      2 * |query|, so the winner scores that much too. */
  lemma ExactTitleScoresTop(query: string, lines: seq<string>, e: int, k: int)
    requires 0 <= e < |lines| && ToLower(lines[e]) == query
    requires IsFirstBest(query, lines, k)
    ensures CandidateScore(query, lines[k]) == 2 * |query|
  {
    LcsOfItself(query);
  }
}
