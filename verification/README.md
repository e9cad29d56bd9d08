# match-fix-for-plex: the title matcher in Dafny

This project models the matching engine of `matcher/matcher.go` and proves
properties about it. The engine has three parts:

- **The normaliser.** It turns a directory name into a query. The steps are:
  lower-casing, cutting `season.*`, deleting bracketed metadata, stripping one
  media extension, blanking punctuation, dropping stop words, and trimming.
- **The weighted score.** `lcs`, `scoreMatch`, `atWordStart` and `max` form a
  longest-common-subsequence table. Each matched pair of characters scores 2
  when it starts a word of the candidate or follows equal characters, and 1
  otherwise.
- **The two entry points.**
  - `MatchTV` returns the lower-cased candidate line that first reaches the
    highest score against the query.
  - `MatchSeasonNo` reads the number after "season" with the regular
    expression `season ?([0-9]+)`.

Files:

- `text.dfy` (`Text`): character classes, `strings.ToLower`, `TrimSpace`,
  `Split`, `Join`, and the line end that bounds a regular-expression `.*`.
- `normalizer.dfy`:
  - `Normalizer` holds the helpers of the pipeline and `Normalize`.
  - `NormalizerFacts` holds round trips and idempotence, with the
    counterexample to idempotence.
- `season.dfy`:
  - `Season` describes the regular expression's matches, the search that
    finds the leftmost one, decimal values, and `MatchSeasonNo`.
  - `SeasonFacts` holds consequences and the test cases of
    `matcher/matcher_test.go`.
- `scorer.dfy`:
  - `Scorer` holds the score as a recursive table and as the row-by-row
    loops of `lcs`.
  - `ScorerFacts` relates it to the plain LCS length.
- `matcher.dfy`:
  - `Matcher` holds `MatchTV` and its scan.
  - `MatcherFacts` holds uniqueness, ties, and what wins when nothing matches.

Behaviour of the code worth knowing:

- **Scoring order.** `MatchTV` calls `lcs(title, directoryName)`
  (matcher/matcher.go:50), so word starts are looked up in the candidate
  title, not in the query. The model does the same.
- **Normalising is not idempotent.**
  - "sea(x)sons" normalises to "seasons", and a second pass cuts it away
    (`NormalizerFacts.NormalizeNotIdempotent`).
  - What holds is idempotence for results that do not contain "season"
    (`NormalizerFacts.NormalizeIdempotentWithoutSeason`).
- **Empty candidates can win.** The running best starts at -1 and is
  replaced only on a strictly higher score (matcher/matcher.go:46, :51).
  When no line shares a character with the query, every line scores 0 and
  the first one wins, empty or not (`MatcherFacts.NothingSharedFirstWins`).
- **Line breaks.** In Go `.` does not match a line break, so each match of
  `season.*` ends at its line (matcher/matcher.go:91). The bracket pattern
  likewise runs to the last closer on the same line (matcher/matcher.go:83).
  The model keeps line breaks.
- **The season pattern.** The number comes from the leftmost position where
  the whole pattern matches, not from the first "season"
  (matcher/matcher.go:68-69). For example, "Season One, Season 2" gives 2
  (`SeasonFacts.LaterSeasonWins`).

## Model

| member | source | states |
|---|---|---|
| Text.ToLower | matcher/matcher.go:37 | same length; no upper-case letter is left; each upper-case letter becomes its lower-case partner and every other character is kept |
| Text.TrimSpace | matcher/matcher.go:43 | the result is a slice of the input with only white space around it, and neither end of it is white space |
| Text.Split | matcher/matcher.go:116 | at least one piece; no piece holds the separator; each piece is made of input characters; joining the pieces with the separator gives the input back |
| Text.SplitJoin | matcher/matcher.go:116 | splitting undoes joining when no word holds the separator |
| Normalizer.FileTypes | matcher/matcher.go:12-21 | the eight media extensions, without their dot, in the order they are tried |
| Normalizer.StopWords | matcher/matcher.go:23-30 | the six tokens the query drops |
| Normalizer.RemoveSeasonDataOn | matcher/matcher.go:90-93 | on a single line, the result is the prefix of the input before the first "season" (all of it when there is none) |
| Normalizer.RemoveSeasonDataOnLeavesNoSeason | matcher/matcher.go:90-93 | no "season" is left in the output, whatever the line structure |
| Normalizer.SeasonAtHead | matcher/matcher.go:90-93 | the output starts with "season" only if the input did |
| Normalizer.RemoveSeasonDataOnFixed | matcher/matcher.go:90-93 | text without "season" is returned unchanged |
| Normalizer.RemoveSeasonDataOnKeepsChars | matcher/matcher.go:90-93 | every output character occurs in the input |
| Normalizer.LastIndexIn | matcher/matcher.go:83 | the last index of a character in a range, or none when the range lacks it |
| Normalizer.MetaDataMatch | matcher/matcher.go:83 | a match at the front starts with an opener, ends with its closer, stays on the first line, and leaves no later closer on that line; no match means no opener or no closer on the line |
| Normalizer.RemoveLikelyMetaData | matcher/matcher.go:82-85 | its own contract is only that the output is no longer than the input; the definition deletes each match of MetaDataMatch, leftmost first, and resumes after it, so the greedy run to the last closer on the line comes from MetaDataMatch; what the deletion leaves is stated by the lemmas below |
| Normalizer.RemoveLikelyMetaDataLeavesNone | matcher/matcher.go:82-85 | after the deletion no opener has its closer later on the same line |
| Normalizer.RemoveLikelyMetaDataFixed | matcher/matcher.go:82-85 | text with no bracketed span on any line is returned unchanged |
| Normalizer.RemoveLikelyMetaDataKeepsPlainPrefix | matcher/matcher.go:82-85 | a prefix with no opener passes through in front of the rest's output |
| Normalizer.RemoveLikelyMetaDataKeepsChars | matcher/matcher.go:82-85 | every output character occurs in the input |
| Normalizer.MetaDataFirstLine | matcher/matcher.go:83 | an output character before the output's first line break comes from the input's first line |
| Normalizer.RemoveMediaExtension | matcher/matcher.go:98-108 | with no listed suffix, the name comes back unchanged; otherwise the extension is the first listed suffix and basename + "." + extension is the name |
| Normalizer.StripFrom | matcher/matcher.go:99-107 | the loop over the list from index k: the first matching suffix from k on, or the name unchanged |
| Normalizer.RemoveMediaExtensionNoDot | matcher/matcher.go:98-108 | a name without a dot is returned unchanged |
| Normalizer.ReplaceWithSpaces | matcher/matcher.go:135-145 | same length; letters and digits are kept in place and every other character becomes a space |
| Normalizer.ReplaceWithSpacesFixed | matcher/matcher.go:135-145 | text of letters, digits and spaces is unchanged |
| Normalizer.Kept | matcher/matcher.go:117-121 | the surviving words are non-empty, not stop words, and taken from the input words |
| Normalizer.KeptFixed | matcher/matcher.go:117-121 | words that are all non-empty non-stop words all survive |
| Normalizer.WriteWords | matcher/matcher.go:117-128 | once the separator is set, the output is empty or starts with a space; every non-empty non-stop word fits in the output; the exact output is stated by the two lemmas below |
| Normalizer.WriteWordsAfterSeparator | matcher/matcher.go:117-128 | once the separator is set, the builder writes a space before every surviving word |
| Normalizer.WriteWordsFromStart | matcher/matcher.go:113-130 | the builder writes the survivors joined by single spaces, after one leading space exactly when a stop word precedes the first survivor with only empty words before it |
| Normalizer.RemoveStopWords | matcher/matcher.go:113-130 | the surviving words in order, joined by single spaces; one leading space exactly when a stop word comes before the first survivor (the separator is set after any non-empty word) |
| Normalizer.KeptAppend | matcher/matcher.go:117-126 | the words surviving from two lists of words in a row are those of the first followed by those of the second |
| Normalizer.EmptyFirstWord | matcher/matcher.go:118-120 | an empty first word neither sets the separator nor changes whether a stop word comes first |
| Normalizer.Prepared | matcher/matcher.go:37-41 | after every step before the stop-word filter, only lower-case letters, digits and spaces remain |
| Normalizer.CutsKeepLowerCase | matcher/matcher.go:38-40 | the three cuts only delete characters, so a lower-case name stays lower case |
| Normalizer.StopWordsThenTrim | matcher/matcher.go:42-43 | on prepared text, dropping stop words and trimming gives the survivors joined by single spaces, which is normalised |
| Normalizer.JoinNormalized | matcher/matcher.go:42-43 | non-stop words of lower-case letters and digits, joined by single spaces, have the normalised shape |
| Normalizer.Normalize | matcher/matcher.go:37-43 | the query holds only lower-case letters, digits and single inner spaces, has no stop-word token, and is the surviving tokens of the prepared name in order |
| NormalizerFacts.PreparedOfNormalized | matcher/matcher.go:37-41 | a normalised name without "season" passes every step before the stop-word filter unchanged |
| NormalizerFacts.TokensOfNormalized | matcher/matcher.go:42-43 | the stop-word filter keeps every token of a normalised name |
| NormalizerFacts.KeptOfJoin | matcher/matcher.go:116-128 | splitting and filtering recover words joined by single spaces |
| NormalizerFacts.NormalizeIdempotentWithoutSeason | matcher/matcher.go:37-43 | normalising twice equals normalising once when the result contains no "season" |
| NormalizerFacts.NormalizeSeasonHead | matcher/matcher.go:37-43 | a normalised name that starts with "season" is cut to nothing by a second pass |
| NormalizerFacts.NormalizeNotIdempotent | matcher/matcher.go:37-43 | "sea(x)sons" normalises to "seasons", whose second normalisation is empty |
| NormalizerFacts.MetaDataIsGreedy | matcher/matcher.go:83-84 | "a[b]c[d]e" loses everything from the first "[" to the last "]": "ae" |
| NormalizerFacts.MetaDataInsideWord | matcher/matcher.go:83-84 | brackets inside a word vanish and join its halves: "sea(x)sons" becomes "seasons" |
| Season.SeasonText | matcher/matcher.go:65-66 | the text the pattern runs over has the title's length and only lower-case letters, digits and spaces |
| Season.DigitRunEnd | matcher/matcher.go:68 | the end of the maximal run of digits starting at k |
| Season.DigitsFrom | matcher/matcher.go:68 | a hit at p means "season" at p, then at most one space, then a digit where the digits begin; the space is taken whenever it is there; DigitsFromShape shows this agrees with a match in both directions |
| Season.FindSeason | matcher/matcher.go:68-69 | the first position from `from` on where a match starts, or none when no position has one |
| Season.DigitsFromShape | matcher/matcher.go:68-69 | the search's view of a position agrees with MatchShape, the shape of a match, in both directions |
| Season.RunEndUnique | matcher/matcher.go:68 | a maximal run of digits ends exactly where DigitRunEnd says |
| Season.DecimalValueBound | matcher/matcher.go:71 | n digits spell a value below 10^n |
| Season.DecimalValueLowerBound | matcher/matcher.go:71 | n digits without a leading zero spell at least 10^(n-1) |
| Season.DecimalValueLeadingZero | matcher/matcher.go:71 | a leading zero does not change the value |
| Season.MatchSeasonNo | matcher/matcher.go:64-77 | the result is -1 or in 0..2^63-1; it is the number of the leftmost match of `season ?([0-9]+)`, or -1 when there is no match or its number exceeds the int range |
| Season.NoMatchAnywhere | matcher/matcher.go:69-70 | when the search finds nothing, the pattern has no match |
| Season.LeftmostFound | matcher/matcher.go:69 | the search's hit is the leftmost match, and it is the only one |
| Season.RegexMatchUnique | matcher/matcher.go:69 | the leftmost match, with its maximal digit run, is unique |
| SeasonFacts.MatchSeasonNoOfMatch | matcher/matcher.go:69-74 | given the leftmost match, the result is its number when that fits in an int and -1 otherwise |
| SeasonFacts.MatchSeasonNoWithoutMatch | matcher/matcher.go:70-76 | no match gives -1 |
| SeasonFacts.NoSeasonWordNoNumber | matcher/matcher.go:64-77 | a title without "season" has no season number |
| SeasonFacts.ShortNumbersFit | matcher/matcher.go:71-72 | a number of at most 18 digits is returned as written |
| SeasonFacts.LongNumbersRejected | matcher/matcher.go:71-76 | 20 digits or more, without a leading zero, give -1 |
| SeasonFacts.WithSpaces | matcher/matcher_test.go:5-12 | "Hello World Season 3" gives 3 |
| SeasonFacts.WithDots | matcher/matcher_test.go:14-21 | "Hello.World.Season.3" gives 3 |
| SeasonFacts.SeasonWithoutNumber | matcher/matcher_test.go:23-30 | "Hello.World.Season" gives -1 |
| SeasonFacts.SeasonFollowedByWords | matcher/matcher_test.go:32-39 | "Hello.World.Season this test is good" gives -1 |
| SeasonFacts.SeasonNoSpace | matcher/matcher_test.go:41-48 | "Hello.World.Season3" gives 3 |
| SeasonFacts.TwoSpacesBeforeNumber | matcher/matcher.go:68 | the optional space is a single one: "Show Season  2" gives -1 |
| SeasonFacts.LaterSeasonWins | matcher/matcher.go:68-69 | the leftmost match of the whole pattern counts: "Season One, Season 2" gives 2 |
| Scorer.Max | matcher/matcher.go:215-220 | the larger of the two arguments |
| Scorer.AtWordStart | matcher/matcher.go:150-156 | i = 0 or a[i-1] is a space; ScorerFacts.AtWordStartIffEmptyLastPiece ties this to the words of the text |
| Scorer.ScoreMatch | matcher/matcher.go:150-170 | the reward is 1 or 2, and it is 2 exactly when a[i] starts a word (i = 0 or a[i-1] is a space) or i, j > 0 and a[i-1] = b[j-1] |
| Scorer.Table | matcher/matcher.go:194-207 | every table entry lies between 0 and twice the shorter prefix length |
| Scorer.Lcs | matcher/matcher.go:175-179 | 0 when either string is empty; otherwise between 0 and twice the shorter length |
| Scorer.FillRow | matcher/matcher.go:196-206 | the inner loop fills row i of the table from row i - 1 |
| Scorer.ComputeLcs | matcher/matcher.go:175-209 | the loops return the table's last entry, the recursive score, within 0 and twice the shorter length |
| ScorerFacts.TableBetweenPlainAndDouble | matcher/matcher.go:172-209 | each entry lies between the plain LCS length of the prefixes and twice it |
| ScorerFacts.PlainBelowTable | matcher/matcher.go:194-207 | each entry is at least the plain LCS length |
| ScorerFacts.TableBelowDouble | matcher/matcher.go:194-207 | each entry is at most twice the plain LCS length |
| ScorerFacts.LcsPositiveIffShared | matcher/matcher.go:175-209 | the score is positive exactly when the two strings share a character |
| ScorerFacts.AtWordStartIffEmptyLastPiece | matcher/matcher.go:150-156 | a[i] starts a word exactly when splitting a[..i] at spaces leaves an empty last piece, that is, no part of a word comes right before it |
| ScorerFacts.LcsOfItself | matcher/matcher.go:175-209 | a string scores 2 per character against itself, the highest score possible |
| ScorerFacts.QueryItselfScoresTop | matcher/matcher.go:175-209 | no candidate outscores the query itself |
| ScorerFacts.LongerCandidateCanScoreLess | matcher/matcher.go:197-199 | equal last characters are always matched, so "aba" scores 1 against "a" where "ab" scores 2 |
| Matcher.CandidateScore | matcher/matcher.go:49-50 | a candidate's score against the query lies between 0 and twice the query length |
| Matcher.MatchTV | matcher/matcher.go:36-58 | no lines give ""; otherwise the result is the lower-cased line at the first index of highest score for the normalised directory name |
| Matcher.BestLine | matcher/matcher.go:45-57 | the scan returns "" for no lines, else the lower-cased first line of highest score |
| Matcher.ScanStep | matcher/matcher.go:48-55 | one step of the scan, with a strict `>`, keeps "first line of highest score so far" |
| Matcher.NewBestStep | matcher/matcher.go:51-53 | a strictly higher score makes the new line the first best |
| Matcher.KeptBestStep | matcher/matcher.go:51 | a score that is not higher leaves the first best in place |
| MatcherFacts.FirstBestUnique | matcher/matcher.go:51 | at most one line is the first best, so the result is determined |
| MatcherFacts.TieGoesToFirst | matcher/matcher.go:51-54 | among lines that all score the same, the first one wins |
| MatcherFacts.NothingSharedFirstWins | matcher/matcher.go:46-54 | when no line shares a character with the query, all score 0 and the first line wins, even an empty one |
| MatcherFacts.ExactTitleScoresTop | matcher/matcher.go:48-55 | when a line reads as the query, the winner reaches the top score 2 * length of the query |

## Left out

- The command-line tool (`cmds/match-fix/main.go`), the show database (`showdb/show_db.go`) and the downloader (`cmds/download-shows/main.go`) are not part of this model. They do interactive file-system and network I/O.
- `bufio.Scanner`: the candidates of `MatchTV` are given as the sequence of their lines. The scanner's line-length limit, its handling of "\r\n", and its read errors are not modelled.
- Unicode: letters, digits and case are classified over ASCII. `unicode.IsLetter`, `unicode.IsDigit` and `strings.ToLower` on other scripts are not modelled, and neither is the byte/rune split between `replaceWithSpaces` (runes) and `lcs` (bytes). A string is a sequence of characters throughout. White space for `strings.TrimSpace` follows Go's `unicode.IsSpace` in full.
- Go's regular-expression engine: the three patterns are modelled by their matches under Go's leftmost-first semantics. `.` stops at a line break, and the greedy operators are honoured. The engine itself is not modelled.
- `strconv.Atoi` is modelled for a 64-bit `int`: a digit run whose value exceeds 2^63 - 1 gives -1. A 32-bit platform is not modelled.
- The two-dimensional array of `lcs`: the loops keep only the previous row while filling the next one. The entries they compute are those of the full table, and the full table's storage is not modelled.
- Monotonicity of the score in either argument: it does not hold, because equal last characters are always matched (`ScorerFacts.LongerCandidateCanScoreLess`). Nothing is claimed about it.
- Normalizer.RemoveSeasonDataOn: its contract characterises the result for input without a line break (the prefix before the first "season"). For input with line breaks, the lemmas state that no "season" is left, that kept characters come from the input, and that the output up to its first line break repeats the input.
- Scorer.Table: its contract states bounds. The exact entries are its recursive definition, which follows matcher/matcher.go lines 197-205 branch for branch, and Scorer.ComputeLcs is proved to compute them.
- Scorer.Lcs: as for Scorer.Table, the contract states bounds and the empty case; the exact value is the definition.
- Matcher.CandidateScore: the contract states bounds; the score itself is Scorer.Lcs of the lower-cased line against the query.
