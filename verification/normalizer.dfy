/** The query normaliser of matcher/matcher.go: the steps MatchTV applies to a
    directory name before scoring it against candidate titles. The two
    regular expressions are modelled by what they match under Go's
    leftmost-first semantics, where `.` does not cross a line break. */
module Normalizer {
  import opened Text

  /** Media extensions, in the order they are tried. */
  const FileTypes: seq<string> := ["asf", "mp3", "mp4", "mkv", "wav", "alac", "aac", "avi"]

  /** Tokens dropped from a normalised name. */
  const StopWords: set<string> := {"brrip", "complete", "episode", "season", "web", "xvid"}

  const SeasonWord: string := "season"

  // ---------------------------------------------------------------------
  // removeSeasonDataOn: ReplaceAll of `season.*`
  // ---------------------------------------------------------------------

  /** r is the part of s before the first occurrence of "season". */
  predicate IsTextBeforeSeason(s: string, r: string) {
    && |r| <= |s| && r == s[..|r|]
    && (forall i :: 0 <= i < |r| ==> !StartsWith(s[i..], SeasonWord))
    && (|r| == |s| || StartsWith(s[|r|..], SeasonWord))
  }

  /** Each match of `season.*` runs from "season" to the end of its line and
      is deleted; scanning resumes at the line break. */
  function RemoveSeasonDataOn(s: string): (r: string)
    ensures (forall i :: 0 <= i < |s| ==> s[i] != '\n') ==> IsTextBeforeSeason(s, r)
    decreases |s|
  {
    if s == [] then []
    else if StartsWith(s, SeasonWord) then RemoveSeasonDataOn(s[LineEnd(s, 6)..])
    else
      var r := [s[0]] + RemoveSeasonDataOn(s[1..]);
      assert forall i :: 1 <= i <= |s| ==> s[i..] == s[1..][i - 1..];
      r
  }

  lemma {:induction false} RemoveSeasonDataOnKeepsChars(s: string)
    ensures forall i :: 0 <= i < |RemoveSeasonDataOn(s)| ==> RemoveSeasonDataOn(s)[i] in s
    decreases |s|
  {
    if s != [] {
      if StartsWith(s, SeasonWord) {
        RemoveSeasonDataOnKeepsChars(s[LineEnd(s, 6)..]);
      } else {
        RemoveSeasonDataOnKeepsChars(s[1..]);
      }
    }
  }

  /** A match runs to the end of its line, so what follows it starts with
      the line break or is empty. */
  lemma SeasonCutEndsLine(x: string)
    ensures StartsWith(x, SeasonWord) ==>
              RemoveSeasonDataOn(x) == [] || RemoveSeasonDataOn(x)[0] == '\n'
  {
    if StartsWith(x, SeasonWord) {
      var e := LineEnd(x, 6);
      if e < |x| {
        var y := x[e..];
        assert y[0] == '\n';
        assert !StartsWith(y, SeasonWord) by { assert SeasonWord[0] != '\n'; }
        assert RemoveSeasonDataOn(y) == [y[0]] + RemoveSeasonDataOn(y[1..]);
      }
    }
  }

  /** Up to its first line break, the output repeats its input. */
  lemma {:induction false} SeasonOutputPrefix(x: string, k: nat)
    requires k <= |RemoveSeasonDataOn(x)|
    requires forall m :: 0 <= m < k ==> RemoveSeasonDataOn(x)[m] != '\n'
    ensures k <= |x| && x[..k] == RemoveSeasonDataOn(x)[..k]
    decreases |x|
  {
    if k > 0 {
      SeasonCutEndsLine(x);
      assert !StartsWith(x, SeasonWord);
      var rest := RemoveSeasonDataOn(x[1..]);
      KeptFirstChar(x);
      assert forall m :: 0 <= m < k - 1 ==> rest[m] == RemoveSeasonDataOn(x)[m + 1];
      SeasonOutputPrefix(x[1..], k - 1);
      PrefixOfKeptFirstChar(x, rest, RemoveSeasonDataOn(x), k);
    }
  }

  /** Where no "season" starts, the first character is kept. */
  lemma KeptFirstChar(x: string)
    requires x != [] && !StartsWith(x, SeasonWord)
    ensures RemoveSeasonDataOn(x) == [x[0]] + RemoveSeasonDataOn(x[1..])
  {
  }

  lemma PrefixOfKeptFirstChar(x: string, rest: string, r: string, k: nat)
    requires x != [] && r == [x[0]] + rest
    requires 0 < k <= |r| && k - 1 <= |x[1..]| && x[1..][..k - 1] == rest[..k - 1]
    ensures k <= |x| && x[..k] == r[..k]
  {
    assert x[..k] == [x[0]] + x[1..][..k - 1];
  }

  /** The output starts with "season" only where the input did. */
  lemma SeasonAtHead(s: string)
    ensures StartsWith(RemoveSeasonDataOn(s), SeasonWord) ==> StartsWith(s, SeasonWord)
  {
    var r := RemoveSeasonDataOn(s);
    if StartsWith(r, SeasonWord) {
      assert forall m :: 0 <= m < 6 ==> r[m] == r[..6][m] == SeasonWord[m];
      SeasonOutputPrefix(s, 6);
      assert s[..6] == r[..6];
    }
  }

  /** No "season" survives, whatever the line structure of the input. */
  lemma {:induction false} RemoveSeasonDataOnLeavesNoSeason(s: string)
    ensures !Contains(RemoveSeasonDataOn(s), SeasonWord)
    decreases |s|
  {
    var r := RemoveSeasonDataOn(s);
    if s == [] {
    } else if StartsWith(s, SeasonWord) {
      RemoveSeasonDataOnLeavesNoSeason(s[LineEnd(s, 6)..]);
    } else {
      var rest := RemoveSeasonDataOn(s[1..]);
      RemoveSeasonDataOnLeavesNoSeason(s[1..]);
      assert r == [s[0]] + rest;
      forall i | 0 <= i <= |r| ensures !StartsWith(r[i..], SeasonWord) {
        if i == 0 {
          SeasonAtHead(s);
        } else {
          assert r[i..] == rest[i - 1..];
        }
      }
    }
  }

  lemma {:induction false} RemoveSeasonDataOnFixed(s: string)
    requires !Contains(s, SeasonWord)
    ensures RemoveSeasonDataOn(s) == s
    decreases |s|
  {
    if s != [] {
      assert s[0..] == s;
      assert forall i :: 0 <= i <= |s[1..]| ==> s[1..][i..] == s[i + 1..];
      RemoveSeasonDataOnFixed(s[1..]);
    }
  }

  // ---------------------------------------------------------------------
  // removeLikelyMetaData: ReplaceAll of `(\[.*\]|\(.*\))`
  // ---------------------------------------------------------------------

  predicate IsOpener(c: char) { c == '[' || c == '(' }

  function Closer(c: char): char { if c == '[' then ']' else ')' }

  /** The last index m in [lo, hi) with s[m] == c. */
  function LastIndexIn(s: string, c: char, lo: nat, hi: nat): (r: Option<nat>)
    requires lo <= hi <= |s|
    ensures r.Some? ==> lo <= r.value < hi && s[r.value] == c
                        && forall m :: r.value < m < hi ==> s[m] != c
    ensures r.None? ==> forall m :: lo <= m < hi ==> s[m] != c
    decreases hi - lo
  {
    if hi == lo then None
    else if s[hi - 1] == c then Some(hi - 1)
    else LastIndexIn(s, c, lo, hi - 1)
  }

  /** Where a greedy bracketed match starting at s[0] ends: from an opener to
      the last matching closer on the same line. */
  function MetaDataMatch(s: string): (r: Option<nat>)
    requires s != []
    ensures r.Some? ==> && 2 <= r.value <= |s| && IsOpener(s[0])
                        && s[r.value - 1] == Closer(s[0])
                        && (forall m :: 0 <= m < r.value ==> s[m] != '\n')
                        && (forall m :: r.value <= m < LineEnd(s, 1) ==> s[m] != Closer(s[0]))
    ensures r.None? ==> !IsOpener(s[0])
                        || forall m :: 1 <= m < LineEnd(s, 1) ==> s[m] != Closer(s[0])
  {
    if IsOpener(s[0]) then
      match LastIndexIn(s, Closer(s[0]), 1, LineEnd(s, 1))
      case Some(q) => Some(q + 1)
      case None => None
    else None
  }

  /** Every match, leftmost first, is deleted; scanning resumes after it. */
  function RemoveLikelyMetaData(s: string): (r: string)
    ensures |r| <= |s|
    decreases |s|
  {
    if s == [] then []
    else match MetaDataMatch(s)
      case Some(e) => RemoveLikelyMetaData(s[e..])
      case None => [s[0]] + RemoveLikelyMetaData(s[1..])
  }

  lemma {:induction false} RemoveLikelyMetaDataKeepsChars(s: string)
    ensures forall i :: 0 <= i < |RemoveLikelyMetaData(s)| ==> RemoveLikelyMetaData(s)[i] in s
    decreases |s|
  {
    if s != [] {
      match MetaDataMatch(s)
      case Some(e) => RemoveLikelyMetaDataKeepsChars(s[e..]);
      case None => RemoveLikelyMetaDataKeepsChars(s[1..]);
    }
  }

  /** No opener is followed by its closer on the same line. */
  predicate NoMetaData(r: string) {
    forall i, j :: 0 <= i < j < |r| && IsOpener(r[i]) && r[j] == Closer(r[i]) ==> '\n' in r[i + 1..j]
  }

  lemma LineEndShift(s: string, d: nat)
    requires d <= |s|
    ensures LineEnd(s[d..], 0) + d == LineEnd(s, d)
  {
    var k1 := LineEnd(s[d..], 0);
    var k2 := LineEnd(s, d);
    assert forall m :: d <= m < k1 + d ==> s[m] == s[d..][m - d];
  }

  /** A character the output shows before its first line break is on the
      first line of the input. */
  lemma {:induction false} MetaDataFirstLine(x: string, j: nat)
    requires j < |RemoveLikelyMetaData(x)|
    requires forall m :: 0 <= m <= j ==> RemoveLikelyMetaData(x)[m] != '\n'
    ensures RemoveLikelyMetaData(x)[j] in x[..LineEnd(x, 0)]
    decreases |x|
  {
    var r := RemoveLikelyMetaData(x);
    match MetaDataMatch(x)
    case Some(e) =>
      var y := x[e..];
      MetaDataFirstLine(y, j);
      var m' :| 0 <= m' < LineEnd(y, 0) && y[m'] == r[j];
      ShiftedOnFirstLine(x, e, m');
    case None =>
      UnmatchedFirstChar(x);
      if j > 0 {
        UnmatchedTail(x, j);
        MetaDataFirstLine(x[1..], j - 1);
        OnFirstLineAfterHead(x, r[j]);
      }
  }

  /** When x[0] is kept, the output from index 1 on is that of x[1..]. */
  lemma UnmatchedTail(x: string, j: nat)
    requires x != [] && MetaDataMatch(x).None?
    requires 0 < j < |RemoveLikelyMetaData(x)|
    requires forall m :: 0 <= m <= j ==> RemoveLikelyMetaData(x)[m] != '\n'
    ensures x[0] != '\n'
    ensures j - 1 < |RemoveLikelyMetaData(x[1..])|
    ensures forall m :: 0 <= m <= j - 1 ==> RemoveLikelyMetaData(x[1..])[m] != '\n'
    ensures RemoveLikelyMetaData(x[1..])[j - 1] == RemoveLikelyMetaData(x)[j]
  {
    var r := RemoveLikelyMetaData(x);
    UnmatchedFirstChar(x);
    assert r[0] == x[0];
    assert forall m :: 0 <= m <= j - 1 ==> RemoveLikelyMetaData(x[1..])[m] == r[m + 1];
  }

  lemma OnFirstLineAfterHead(x: string, c: char)
    requires x != [] && x[0] != '\n' && c in x[1..][..LineEnd(x[1..], 0)]
    ensures c in x[..LineEnd(x, 0)]
  {
    var m' :| 0 <= m' < LineEnd(x[1..], 0) && x[1..][m'] == c;
    ShiftedOnFirstLine(x, 1, m');
  }

  /** Where no bracketed span starts, the first character is kept. */
  lemma UnmatchedFirstChar(x: string)
    requires x != [] && MetaDataMatch(x).None?
    ensures RemoveLikelyMetaData(x) == [x[0]] + RemoveLikelyMetaData(x[1..])
  {
  }

  /** Position m' of the first line of x[d..] lies on the first line of x
      when x[..d] holds no line break. */
  lemma ShiftedOnFirstLine(x: string, d: nat, m': nat)
    requires d <= |x| && m' < LineEnd(x[d..], 0)
    requires forall m :: 0 <= m < d ==> x[m] != '\n'
    ensures d + m' < LineEnd(x, 0) && x[d + m'] == x[d..][m']
    ensures x[d..][m'] in x[..LineEnd(x, 0)]
  {
    LineEndShift(x, d);
    var k0 := LineEnd(x, 0);
    assert k0 >= d;
    assert k0 == LineEnd(x, d);
    assert x[..k0][d + m'] == x[d + m'];
  }

  lemma TailFirstLine(s: string, c: char)
    requires s != [] && c in s[1..][..LineEnd(s[1..], 0)]
    ensures exists m :: 1 <= m < LineEnd(s, 1) && s[m] == c
  {
    LineEndShift(s, 1);
    var m' :| 0 <= m' < LineEnd(s[1..], 0) && s[1..][m'] == c;
    assert s[1 + m'] == c;
  }

  /** An opener the deletion keeps has no closer after it on its line. */
  lemma KeptOpenerUnclosed(s: string, j: nat)
    requires s != [] && MetaDataMatch(s).None?
    requires 0 < j < |RemoveLikelyMetaData(s)|
    ensures var r := RemoveLikelyMetaData(s);
            IsOpener(s[0]) && '\n' !in r[1..j] ==> r[j] != Closer(s[0])
  {
    var r := RemoveLikelyMetaData(s);
    var rest := RemoveLikelyMetaData(s[1..]);
    assert r == [s[0]] + rest;
    if '\n' !in r[1..j] && rest[j - 1] != '\n' {
      assert forall m :: 0 <= m <= j - 1 ==> rest[m] != '\n' by {
        forall m | 0 <= m <= j - 1 ensures rest[m] != '\n' {
          if m < j - 1 { assert rest[m] == r[1..j][m]; }
        }
      }
      MetaDataFirstLine(s[1..], j - 1);
      TailFirstLine(s, rest[j - 1]);
    }
  }

  /** After the deletion no bracketed span is left on any line. */
  lemma {:induction false} RemoveLikelyMetaDataLeavesNone(s: string)
    ensures NoMetaData(RemoveLikelyMetaData(s))
    decreases |s|
  {
    var r := RemoveLikelyMetaData(s);
    if s != [] {
      match MetaDataMatch(s)
      case Some(e) =>
        RemoveLikelyMetaDataLeavesNone(s[e..]);
      case None =>
        var rest := RemoveLikelyMetaData(s[1..]);
        assert r == [s[0]] + rest;
        RemoveLikelyMetaDataLeavesNone(s[1..]);
        forall i, j | 0 <= i < j < |r| && IsOpener(r[i]) && r[j] == Closer(r[i])
          ensures '\n' in r[i + 1..j]
        {
          if i == 0 {
            KeptOpenerUnclosed(s, j);
            assert r[0] == s[0];
          } else {
            assert r[i] == rest[i - 1] && r[j] == rest[j - 1];
            assert r[i + 1..j] == rest[i..j - 1];
          }
        }
    }
  }

  lemma {:induction false} RemoveLikelyMetaDataFixed(s: string)
    requires NoMetaData(s)
    ensures RemoveLikelyMetaData(s) == s
    decreases |s|
  {
    if s != [] {
      assert MetaDataMatch(s).None?;
      assert NoMetaData(s[1..]) by {
        forall i, j | 0 <= i < j < |s[1..]| && IsOpener(s[1..][i]) && s[1..][j] == Closer(s[1..][i])
          ensures '\n' in s[1..][i + 1..j]
        {
          assert s[1..][i + 1..j] == s[i + 2..j + 1];
        }
      }
      RemoveLikelyMetaDataFixed(s[1..]);
    }
  }

  /** Text without an opener passes through, whatever follows it. */
  lemma {:induction false} RemoveLikelyMetaDataKeepsPlainPrefix(p: string, t: string)
    requires forall i :: 0 <= i < |p| ==> !IsOpener(p[i])
    ensures RemoveLikelyMetaData(p + t) == p + RemoveLikelyMetaData(t)
    decreases |p|
  {
    if p != [] {
      assert (p + t)[0] == p[0];
      assert (p + t)[1..] == p[1..] + t;
      UnmatchedFirstChar(p + t);
      RemoveLikelyMetaDataKeepsPlainPrefix(p[1..], t);
      assert p == [p[0]] + p[1..];
    } else {
      assert p + t == t;
    }
  }

  // ---------------------------------------------------------------------
  // removeMediaExtension
  // ---------------------------------------------------------------------

  /** The (extension, basename) pair; an empty extension means none was found. */
  datatype Stripped = Stripped(extension: string, basename: string)

  /** FileTypes[k] is the first listed extension that ends the file name. */
  predicate IsFirstExtension(filename: string, k: int) {
    && 0 <= k < |FileTypes|
    && EndsWith(filename, "." + FileTypes[k])
    && forall m :: 0 <= m < k ==> !EndsWith(filename, "." + FileTypes[m])
  }

  function StripFrom(filename: string, k: nat): (r: Stripped)
    requires k <= |FileTypes|
    ensures r.extension == [] ==> r.basename == filename
                                  && forall m :: k <= m < |FileTypes| ==> !EndsWith(filename, "." + FileTypes[m])
    ensures r.extension != [] ==>
              exists m :: && k <= m < |FileTypes| && r.extension == FileTypes[m]
                          && EndsWith(filename, "." + FileTypes[m])
                          && (forall n :: k <= n < m ==> !EndsWith(filename, "." + FileTypes[n]))
    ensures r.extension != [] ==> r.basename + "." + r.extension == filename
    decreases |FileTypes| - k
  {
    if k == |FileTypes| then Stripped([], filename)
    else
      var suffix := "." + FileTypes[k];
      if EndsWith(filename, suffix) then
        Stripped(FileTypes[k], filename[..|filename| - |suffix|])
      else StripFrom(filename, k + 1)
  }

  /** The first listed extension that ends the name is cut off with its dot;
      a name with none of them comes back unchanged. */
  function RemoveMediaExtension(filename: string): (r: Stripped)
    ensures r.extension == [] ==> r.basename == filename
                                  && forall m :: 0 <= m < |FileTypes| ==> !EndsWith(filename, "." + FileTypes[m])
    ensures r.extension != [] ==> exists k :: IsFirstExtension(filename, k) && r.extension == FileTypes[k]
    ensures r.extension != [] ==> r.basename + "." + r.extension == filename
  {
    StripFrom(filename, 0)
  }

  lemma RemoveMediaExtensionNoDot(s: string)
    requires '.' !in s
    ensures RemoveMediaExtension(s).basename == s
  {
  }

  // ---------------------------------------------------------------------
  // replaceWithSpaces
  // ---------------------------------------------------------------------

  /** Every character that is neither a letter nor a digit becomes a space. */
  function ReplaceWithSpaces(s: string): (r: string)
    ensures |r| == |s|
    ensures forall i :: 0 <= i < |r| ==> IsLetterOrDigit(r[i]) || r[i] == ' '
    ensures forall i :: 0 <= i < |s| && IsLetterOrDigit(s[i]) ==> r[i] == s[i]
    ensures forall i :: 0 <= i < |s| && !IsLetterOrDigit(s[i]) ==> r[i] == ' '
  {
    seq(|s|, i requires 0 <= i < |s| => if IsLetterOrDigit(s[i]) then s[i] else ' ')
  }

  lemma ReplaceWithSpacesFixed(s: string)
    requires forall i :: 0 <= i < |s| ==> IsLetterOrDigit(s[i]) || s[i] == ' '
    ensures ReplaceWithSpaces(s) == s
  {
  }

  // ---------------------------------------------------------------------
  // removeStopWords
  // ---------------------------------------------------------------------

  /** The words that survive: non-empty and not stop words, in order. */
  function Kept(ws: seq<string>): (ks: seq<string>)
    ensures forall k :: 0 <= k < |ks| ==> ks[k] != [] && ks[k] !in StopWords && ks[k] in ws
  {
    if ws == [] then []
    else if ws[0] != [] && ws[0] !in StopWords then [ws[0]] + Kept(ws[1..])
    else Kept(ws[1..])
  }

  lemma {:induction false} KeptFixed(ws: seq<string>)
    requires forall k :: 0 <= k < |ws| ==> ws[k] != [] && ws[k] !in StopWords
    ensures Kept(ws) == ws
  {
    if ws != [] {
      KeptFixed(ws[1..]);
      assert [ws[0]] + ws[1..] == ws;
    }
  }

  /** The builder loop of removeStopWords over the remaining words; sepSet
      records that the separator byte has been set to ' ', which happens after
      any non-empty word, kept or not. */
  function WriteWords(ws: seq<string>, sepSet: bool): (r: string)
    ensures sepSet && r != [] ==> r[0] == ' '
    ensures forall k :: 0 <= k < |ws| && ws[k] != [] && ws[k] !in StopWords ==> |ws[k]| <= |r|
  {
    if ws == [] then []
    else if ws[0] == [] then WriteWords(ws[1..], sepSet)
    else if ws[0] !in StopWords then (if sepSet then " " else "") + ws[0] + WriteWords(ws[1..], true)
    else WriteWords(ws[1..], true)
  }

  lemma {:induction false} WriteWordsAfterSeparator(ws: seq<string>)
    ensures WriteWords(ws, true) == if Kept(ws) == [] then [] else " " + Join(Kept(ws), ' ')
  {
    if ws != [] {
      WriteWordsAfterSeparator(ws[1..]);
    }
  }

  /** A stop word comes before the first surviving word, with only empty
      words before it: the separator is then set before anything is written. */
  predicate StopBeforeFirstKept(ws: seq<string>) {
    exists i :: 0 <= i < |ws| && ws[i] in StopWords && Kept(ws[..i]) == [] && Kept(ws[i + 1..]) != []
  }

  lemma {:induction false} WriteWordsFromStart(ws: seq<string>)
    ensures WriteWords(ws, false) == (if StopBeforeFirstKept(ws) then " " else "") + Join(Kept(ws), ' ')
  {
    if ws != [] {
      WriteWordsAfterSeparator(ws[1..]);
      if ws[0] == [] {
        WriteWordsFromStart(ws[1..]);
        EmptyFirstWord(ws);
      } else if ws[0] in StopWords {
        assert ws[..0] == [] && ws[1..] == ws[0 + 1..];
        if Kept(ws[1..]) == [] {
          NoKeptNoStopBefore(ws);
        }
      } else {
        NoStopBeforeKeptFirst(ws);
      }
    }
  }

  lemma EmptyFirstWord(ws: seq<string>)
    requires ws != [] && ws[0] == []
    ensures StopBeforeFirstKept(ws) <==> StopBeforeFirstKept(ws[1..])
  {
    if StopBeforeFirstKept(ws) {
      var i :| 0 <= i < |ws| && ws[i] in StopWords && Kept(ws[..i]) == [] && Kept(ws[i + 1..]) != [];
      EmptyFirstWordShift(ws, i);
    }
    if StopBeforeFirstKept(ws[1..]) {
      var i :| 0 <= i < |ws[1..]| && ws[1..][i] in StopWords && Kept(ws[1..][..i]) == [] && Kept(ws[1..][i + 1..]) != [];
      EmptyFirstWordShift(ws, i + 1);
    }
  }

  /** Index i of ws is index i - 1 of ws[1..], and an empty first word
      adds nothing to what survives before it. */
  lemma EmptyFirstWordShift(ws: seq<string>, i: nat)
    requires ws != [] && ws[0] == [] && 0 < i < |ws|
    ensures ws[i] == ws[1..][i - 1]
    ensures Kept(ws[..i]) == Kept(ws[1..][..i - 1])
    ensures ws[i + 1..] == ws[1..][i - 1 + 1..]
  {
    assert ws[..i][0] == [];
    assert ws[..i][1..] == ws[1..][..i - 1];
  }

  lemma NoKeptNoStopBefore(ws: seq<string>)
    requires ws != [] && Kept(ws[1..]) == [] && Kept([ws[0]]) == []
    ensures !StopBeforeFirstKept(ws)
  {
    forall i | 0 <= i < |ws| && Kept(ws[..i]) == [] ensures Kept(ws[i + 1..]) == [] {
      KeptAppend([ws[0]], ws[1..]);
      assert ws == [ws[0]] + ws[1..];
      assert ws == ws[..i + 1] + ws[i + 1..];
      KeptAppend(ws[..i + 1], ws[i + 1..]);
    }
  }

  lemma NoStopBeforeKeptFirst(ws: seq<string>)
    requires ws != [] && ws[0] != [] && ws[0] !in StopWords
    ensures !StopBeforeFirstKept(ws)
  {
    forall i | 0 < i < |ws| ensures Kept(ws[..i]) != [] {
      assert ws[..i] == [ws[0]] + ws[1..i];
    }
  }

  lemma {:induction false} KeptAppend(xs: seq<string>, ys: seq<string>)
    ensures Kept(xs + ys) == Kept(xs) + Kept(ys)
    decreases |xs|
  {
    if xs != [] {
      assert (xs + ys)[1..] == xs[1..] + ys;
      KeptAppend(xs[1..], ys);
    } else {
      assert xs + ys == ys;
    }
  }

  /** removeStopWords: the surviving words joined by single spaces, after
      one leading space exactly when a stop word comes before the first
      survivor. */
  function RemoveStopWords(name: string): (r: string)
    ensures var ws := Split(name, ' ');
            r == (if StopBeforeFirstKept(ws) then " " else "") + Join(Kept(ws), ' ')
  {
    var ws := Split(name, ' ');
    WriteWordsFromStart(ws);
    WriteWords(ws, false)
  }

  // ---------------------------------------------------------------------
  // The pipeline of MatchTV, matcher.go lines 37-43
  // ---------------------------------------------------------------------

  predicate IsQueryChar(c: char) { IsLower(c) || IsDigit(c) }

  predicate NoUpper(s: string) { forall i :: 0 <= i < |s| ==> !IsUpper(s[i]) }

  lemma NoUpperKept(s: string, r: string)
    requires NoUpper(s)
    requires forall i :: 0 <= i < |r| ==> r[i] in s
    ensures NoUpper(r)
  {
    forall i | 0 <= i < |r| ensures !IsUpper(r[i]) {
      var k :| 0 <= k < |s| && s[k] == r[i];
    }
  }

  /** Lower-case letters, digits and spaces only. */
  predicate IsQueryText(r: string) {
    forall i :: 0 <= i < |r| ==> IsQueryChar(r[i]) || r[i] == ' '
  }

  /** No space at either end and never two in a row. */
  predicate IsSingleSpaced(r: string) {
    && (r == [] || (r[0] != ' ' && r[|r| - 1] != ' '))
    && (forall i :: 0 <= i < |r| - 1 ==> r[i] != ' ' || r[i + 1] != ' ')
  }

  /** No space-separated token is a stop word. */
  predicate HasNoStopToken(r: string) {
    var ws := Split(r, ' '); forall k :: 0 <= k < |ws| ==> ws[k] !in StopWords
  }

  /** The shape of a normalised name. */
  predicate IsNormalized(r: string) {
    IsQueryText(r) && IsSingleSpaced(r) && HasNoStopToken(r)
  }

  /** The name after every step that precedes the stop-word filter. */
  function Prepared(raw: string): (r: string)
    ensures IsQueryText(r)
  {
    var lowered := ToLower(raw);
    var seasonless := RemoveSeasonDataOn(lowered);
    var cut := RemoveLikelyMetaData(seasonless);
    var base := RemoveMediaExtension(cut).basename;
    CutsKeepLowerCase(lowered);
    ReplaceWithSpaces(base)
  }

  /** Cutting season data, metadata and an extension only deletes
      characters, so no upper-case letter appears. */
  lemma CutsKeepLowerCase(lowered: string)
    requires NoUpper(lowered)
    ensures NoUpper(RemoveMediaExtension(RemoveLikelyMetaData(RemoveSeasonDataOn(lowered))).basename)
  {
    var seasonless := RemoveSeasonDataOn(lowered);
    RemoveSeasonDataOnKeepsChars(lowered);
    NoUpperKept(lowered, seasonless);
    var cut := RemoveLikelyMetaData(seasonless);
    RemoveLikelyMetaDataKeepsChars(seasonless);
    NoUpperKept(seasonless, cut);
    ExtensionKeepsLowerCase(cut);
  }

  lemma ExtensionKeepsLowerCase(s: string)
    requires NoUpper(s)
    ensures NoUpper(RemoveMediaExtension(s).basename)
  {
    var base := RemoveMediaExtension(s).basename;
    assert base == s[..|base|];
  }

  /** Query tokens joined by single spaces keep the normalised shape. */
  lemma {:induction false} JoinShape(ks: seq<string>)
    requires forall k, i :: 0 <= k < |ks| && 0 <= i < |ks[k]| ==> IsQueryChar(ks[k][i])
    requires forall k :: 0 <= k < |ks| ==> ks[k] != []
    ensures IsQueryText(Join(ks, ' ')) && IsSingleSpaced(Join(ks, ' '))
  {
    if |ks| > 1 {
      JoinShape(ks[1..]);
      var w := ks[0];
      var t := Join(ks[1..], ' ');
      var r := Join(ks, ' ');
      assert r == w + [' '] + t;
      assert forall i :: 0 <= i < |w| ==> r[i] == w[i];
      assert forall i :: |w| < i < |r| ==> r[i] == t[i - |w| - 1];
    }
  }

  /** normalise: lower-case, cut season data, delete bracketed metadata,
      strip one media extension, blank out punctuation, drop stop words,
      trim. The result is the surviving tokens of the prepared name, in
      order, joined by single spaces. */
  function Normalize(raw: string): (r: string)
    ensures IsNormalized(r)
    ensures r == Join(Kept(Split(Prepared(raw), ' ')), ' ')
  {
    var x := Prepared(raw);
    StopWordsThenTrim(x);
    TrimSpace(RemoveStopWords(x))
  }

  lemma KeptTokensAreWords(x: string)
    requires IsQueryText(x)
    ensures var ks := Kept(Split(x, ' '));
            forall k, i :: 0 <= k < |ks| && 0 <= i < |ks[k]| ==> IsQueryChar(ks[k][i])
  {
    var ws := Split(x, ' ');
    var ks := Kept(ws);
    forall k, i | 0 <= k < |ks| && 0 <= i < |ks[k]| ensures IsQueryChar(ks[k][i]) {
      var n :| 0 <= n < |ws| && ws[n] == ks[k];
      assert ks[k][i] != ' ';
      assert ks[k][i] in x;
    }
  }

  lemma QueryCharNotSpace(c: char)
    ensures IsQueryChar(c) ==> !IsSpace(c)
  {
  }

  /** Query tokens joined by single spaces form a normalised name. */
  lemma JoinNormalized(ks: seq<string>)
    requires forall k, i :: 0 <= k < |ks| && 0 <= i < |ks[k]| ==> IsQueryChar(ks[k][i])
    requires forall k :: 0 <= k < |ks| ==> ks[k] != [] && ks[k] !in StopWords
    ensures IsNormalized(Join(ks, ' '))
  {
    var j := Join(ks, ' ');
    JoinShape(ks);
    if ks == [] {
      assert Split(j, ' ') == [[]];
    } else {
      assert forall k :: 0 <= k < |ks| ==> ' ' !in ks[k];
      SplitJoin(ks, ' ');
    }
  }

  /** The last two steps of the pipeline on a prepared name. */
  lemma StopWordsThenTrim(x: string)
    requires IsQueryText(x)
    ensures var j := Join(Kept(Split(x, ' ')), ' ');
            IsNormalized(j) && TrimSpace(RemoveStopWords(x)) == j
  {
    var ks := Kept(Split(x, ' '));
    var j := Join(ks, ' ');
    KeptTokensAreWords(x);
    JoinNormalized(ks);
    var w := RemoveStopWords(x);
    if j != [] {
      QueryCharNotSpace(j[0]);
      QueryCharNotSpace(j[|j| - 1]);
    }
    if w == j { TrimSpaceNoEdges(j); } else { TrimSpaceLeadingBlank(j); }
  }
}

/** Consequences of the normaliser's contracts, and worked examples. */
module NormalizerFacts {
  import opened Text
  import opened Normalizer

  lemma QueryTextIsPlain(n: string)
    requires IsQueryText(n)
    ensures NoUpper(n) && NoMetaData(n) && '.' !in n
  {
    assert forall i :: 0 <= i < |n| ==> !IsOpener(n[i]) && n[i] != '.';
  }

  /** Every step before the stop-word filter leaves a normalised name
      without "season" as it is. */
  lemma PreparedOfNormalized(n: string)
    requires IsNormalized(n) && !Contains(n, SeasonWord)
    ensures Prepared(n) == n
  {
    QueryTextIsPlain(n);
    ToLowerFixed(n);
    RemoveSeasonDataOnFixed(n);
    RemoveLikelyMetaDataFixed(n);
    RemoveMediaExtensionNoDot(n);
    ReplaceWithSpacesFixed(n);
    var lowered := ToLower(n);
    var seasonless := RemoveSeasonDataOn(lowered);
    var cut := RemoveLikelyMetaData(seasonless);
    assert cut == n;
    var base := RemoveMediaExtension(cut).basename;
    assert base == n;
  }

  /** The stop-word filter keeps every token of a normalised name. */
  lemma TokensOfNormalized(raw: string)
    ensures var n := Normalize(raw); Join(Kept(Split(n, ' ')), ' ') == n
  {
    var x := Prepared(raw);
    KeptHasNoSpace(x);
    KeptOfJoin(Kept(Split(x, ' ')));
  }

  lemma KeptHasNoSpace(x: string)
    ensures var ks := Kept(Split(x, ' '));
            forall k :: 0 <= k < |ks| ==> ' ' !in ks[k]
  {
    var ws := Split(x, ' ');
    var ks := Kept(ws);
    forall k | 0 <= k < |ks| ensures ' ' !in ks[k] {
      var n :| 0 <= n < |ws| && ws[n] == ks[k];
    }
  }

  /** Splitting and filtering recover words that were joined by spaces. */
  lemma KeptOfJoin(ks: seq<string>)
    requires forall k :: 0 <= k < |ks| ==> ks[k] != [] && ks[k] !in StopWords && ' ' !in ks[k]
    ensures Kept(Split(Join(ks, ' '), ' ')) == ks
  {
    if ks == [] {
      var e: string := [];
      assert Split(e, ' ') == [e];
      assert Kept([e]) == [];
    } else {
      SplitJoin(ks, ' ');
      KeptFixed(ks);
    }
  }

  /** A normalised name passes through the pipeline unchanged unless it
      contains "season", which the second pass would cut off. */
  lemma NormalizeIdempotentWithoutSeason(raw: string)
    requires !Contains(Normalize(raw), SeasonWord)
    ensures Normalize(Normalize(raw)) == Normalize(raw)
  {
    var n := Normalize(raw);
    PreparedOfNormalized(n);
    TokensOfNormalized(raw);
  }

  /** Once a normalised name starts with "season", a second pass cuts it
      all away. */
  lemma PreparedSeasonHead(n: string)
    requires IsNormalized(n) && StartsWith(n, SeasonWord)
    ensures Prepared(n) == []
  {
    ToLowerFixed(n);
    assert forall i :: 0 <= i < |n| ==> n[i] != '\n';
    assert n[0..] == n;
    var r := RemoveSeasonDataOn(n);
    assert IsTextBeforeSeason(n, r);
    assert r == [];
    assert RemoveLikelyMetaData([]) == [];
    assert RemoveMediaExtension([]).basename == [];
  }

  lemma NormalizeOfEmptyPrepared(x: string)
    requires Prepared(x) == []
    ensures Normalize(x) == []
  {
    var e: string := [];
    assert Split(e, ' ') == [e];
    assert Kept([e]) == [];
  }

  lemma NormalizeSeasonHead(raw: string)
    requires StartsWith(Normalize(raw), SeasonWord)
    ensures Normalize(Normalize(raw)) == []
  {
    var n := Normalize(raw);
    PreparedSeasonHead(n);
    NormalizeOfEmptyPrepared(n);
  }

  /** The metadata match is greedy: it runs to the last closer on the line. */
  lemma MetaDataIsGreedy(p: string, t: string)
    requires p == "a" && t == "[b]c[d]e"
    ensures RemoveLikelyMetaData(p + t) == "ae"
  {
    LineEndWithoutBreak(t, 1);
    assert t[7] != ']' && t[6] == ']';
    assert LastIndexIn(t, ']', 1, 8) == Some(6);
    assert MetaDataMatch(t) == Some(7);
    var u := t[7..];
    RemoveLikelyMetaDataKeepsPlainPrefix(u, []);
    assert u + [] == u;
    RemoveLikelyMetaDataKeepsPlainPrefix(p, t);
  }

  /** Brackets inside a word disappear and glue its halves together. */
  lemma MetaDataInsideWord(p: string, t: string)
    requires p == "sea" && t == "(x)sons"
    ensures RemoveLikelyMetaData(p + t) == "seasons"
  {
    LineEndWithoutBreak(t, 1);
    var u := t[3..];
    RemoveLikelyMetaDataKeepsPlainPrefix(u, []);
    assert u + [] == u;
    RemoveLikelyMetaDataKeepsPlainPrefix(p, t);
  }

  lemma NoSeasonInExample(raw: string)
    requires raw == "sea(x)sons"
    ensures !Contains(raw, SeasonWord)
  {
    forall i | 0 <= i <= |raw| ensures !StartsWith(raw[i..], SeasonWord) {
      if i + 6 <= |raw| {
        assert raw[i..][0] == raw[i] && raw[i..][3] == raw[i + 3];
      }
    }
  }

  lemma SeasonsWord(w: string)
    requires w == "seasons"
    ensures forall i :: 0 <= i < |w| ==> IsLower(w[i])
    ensures w !in StopWords
    ensures StartsWith(w, SeasonWord)
  {
    assert |w| == 7;
  }

  lemma CutExample(raw: string)
    requires raw == "sea(x)sons"
    ensures RemoveLikelyMetaData(RemoveSeasonDataOn(ToLower(raw))) == "seasons"
  {
    ToLowerFixed(raw);
    NoSeasonInExample(raw);
    RemoveSeasonDataOnFixed(raw);
    MetaDataInsideWord(raw[..3], raw[3..]);
    assert raw[..3] + raw[3..] == raw;
  }

  lemma PreparedExample(raw: string, w: string)
    requires raw == "sea(x)sons" && w == "seasons"
    ensures Prepared(raw) == w
  {
    CutExample(raw);
    SeasonsWord(w);
    RemoveMediaExtensionNoDot(w);
    ReplaceWithSpacesFixed(w);
  }

  /** Normalisation is not idempotent: "sea(x)sons" normalises to "seasons",
      which a second pass reduces to nothing. */
  lemma NormalizeNotIdempotent(raw: string, w: string)
    requires raw == "sea(x)sons" && w == "seasons"
    ensures Normalize(raw) == w && Normalize(Normalize(raw)) == [] != w
  {
    PreparedExample(raw, w);
    SeasonsWord(w);
    SplitWord(w, ' ');
    KeptFixed([w]);
    var n := Normalize(raw);
    assert n == Join([w], ' ');
    NormalizeSeasonHead(raw);
  }
}
