/**
 * The hybrid sentiment classifier of util/sentiments.py.
 *
 * A review body that mentions a star rating ("5 stars", "4st", but also the
 * ordinal "1st") and says nothing else is classified from a fixed table; every
 * other body is classified by putting the lexicon scorer's compound score of
 * the ORIGINAL body through two strict thresholds at 0.05 and -0.05.
 *
 * The one regular expression involved, `(\d)\s*(st[a-z]*)` with IGNORECASE,
 * is written out by hand over ASCII: `\d` is '0' to '9', `\s` is the ASCII
 * whitespace of Python's `str.isspace` (the same set `str.strip` removes),
 * and `[a-z]` with IGNORECASE is any ASCII letter.  The lexicon scorer is an
 * opaque parameter `compound: string -> real`.
 */
module Sentiments {
  import opened Runtime

  datatype Sentiment = Positive | Negative | Neutral

  /** The label string the pipeline stores and later compares against "positive". */
  function Name(s: Sentiment): (name: string)
    ensures name == "positive" <==> s == Positive
    ensures name == "negative" <==> s == Negative
    ensures name == "neutral" <==> s == Neutral
  {
    match s
    case Positive => "positive"
    case Negative => "negative"
    case Neutral => "neutral"
  }

  /** STARS_TO_SENTIMENT: the only ratings it knows are "1" to "5". */
  const StarsToSentiment: map<string, Sentiment> :=
    map["1" := Negative, "2" := Negative, "3" := Neutral, "4" := Positive, "5" := Positive]

  // ---------------------------------------------------------------------------
  // Character classes (ASCII)
  // ---------------------------------------------------------------------------

  predicate IsDigit(c: char) { '0' <= c <= '9' }

  /** Python's whitespace below 128: space, \t \n \v \f \r and \x1c to \x1f. */
  predicate IsSpace(c: char) { c == ' ' || '\t' <= c <= '\r' || '\U{1C}' <= c <= '\U{1F}' }

  /** `[a-z]` under IGNORECASE. */
  predicate IsLetter(c: char) { 'a' <= c <= 'z' || 'A' <= c <= 'Z' }

  datatype CharClass = Space | Letter

  predicate InClass(c: char, cls: CharClass) {
    match cls
    case Space => IsSpace(c)
    case Letter => IsLetter(c)
  }

  function ToLower(c: char): char {
    if 'A' <= c <= 'Z' then (c as int + 32) as char else c
  }

  /** `str.lower()` on ASCII text. */
  function Lower(s: string): (r: string)
    ensures |r| == |s|
    ensures forall k | 0 <= k < |s| :: r[k] == ToLower(s[k])
  {
    seq(|s|, k requires 0 <= k < |s| => ToLower(s[k]))
  }

  // ---------------------------------------------------------------------------
  // str.strip()
  // ---------------------------------------------------------------------------

  function Min(a: nat, b: nat): nat { if a <= b then a else b }

  function Max(a: nat, b: nat): nat { if a <= b then b else a }

  /** The first index at or after i whose character is not in cls (greedy `\s*`, `[a-z]*`). */
  function SkipWhile(s: string, i: nat, cls: CharClass): (j: nat)
    requires i <= |s|
    ensures i <= j <= |s|
    ensures j == |s| || !InClass(s[j], cls)
    decreases |s| - i
  {
    if i < |s| && InClass(s[i], cls) then SkipWhile(s, i + 1, cls) else i
  }

  /** Everything SkipWhile skips is in the class. */
  lemma {:induction false} SkipWhileSpan(s: string, i: nat, cls: CharClass)
    requires i <= |s|
    ensures forall k | i <= k < SkipWhile(s, i, cls) :: InClass(s[k], cls)
    decreases |s| - i
  {
    if i < |s| && InClass(s[i], cls) {
      SkipWhileSpan(s, i + 1, cls);
    }
  }

  /** The end of s[..j] once trailing whitespace is cut off. */
  function TrimEnd(s: string, j: nat): (e: nat)
    requires j <= |s|
    ensures e <= j
    ensures forall k | e <= k < j :: IsSpace(s[k])
    ensures e == 0 || !IsSpace(s[e - 1])
  {
    if j > 0 && IsSpace(s[j - 1]) then TrimEnd(s, j - 1) else j
  }

  /** Where `str.strip()`'s result begins: after the leading whitespace. */
  function StripStart(s: string): (a: nat)
    ensures a <= |s|
  {
    SkipWhile(s, 0, Space)
  }

  /** Where `str.strip()`'s result ends: before the trailing whitespace, and never before it begins. */
  function StripEnd(s: string): (e: nat)
    ensures StripStart(s) <= e <= |s|
  {
    Max(StripStart(s), TrimEnd(s, |s|))
  }

  /** `str.strip()`: leading and trailing whitespace removed. */
  function Strip(s: string): string
  {
    s[StripStart(s)..StripEnd(s)]
  }

  /** Strip removes whitespace only. */
  lemma StripMargins(s: string)
    ensures forall k | 0 <= k < StripStart(s) :: IsSpace(s[k])
    ensures forall k | StripEnd(s) <= k < |s| :: IsSpace(s[k])
  {
    SkipWhileSpan(s, 0, Space);
    forall k | StripEnd(s) <= k < |s| ensures IsSpace(s[k]) {
      assert TrimEnd(s, |s|) <= k;
    }
  }

  /** Strip leaves nothing exactly when the text is all whitespace, and otherwise no whitespace at either end. */
  lemma StripEmptyIff(s: string)
    ensures Strip(s) == [] <==> forall k | 0 <= k < |s| :: IsSpace(s[k])
    ensures Strip(s) != [] ==> !IsSpace(Strip(s)[0]) && !IsSpace(Strip(s)[|Strip(s)| - 1])
  {
    SkipWhileSpan(s, 0, Space);
  }

  // ---------------------------------------------------------------------------
  // The pattern (\d)\s*(st[a-z]*), IGNORECASE
  // ---------------------------------------------------------------------------

  /** "st", in either case, begins at index j. */
  predicate StAt(s: string, j: nat) {
    j + 1 < |s| && (s[j] == 's' || s[j] == 'S') && (s[j + 1] == 't' || s[j + 1] == 'T')
  }

  /**
   * The pattern matches at index i.  Backtracking into `\s*` cannot help,
   * since giving up a whitespace character leaves a whitespace character
   * where the 's' must be; so a match exists exactly when "st" follows the
   * digit's longest run of whitespace.
   */
  predicate MatchAt(s: string, i: nat) {
    i < |s| && IsDigit(s[i]) && StAt(s, SkipWhile(s, i + 1, Space))
  }

  /**
   * MatchAt is the regex's reading: the digit, then SOME run of whitespace
   * (not necessarily the longest), then "st".  Greedy `\s*` loses nothing.
   */
  lemma MatchAtIsRegex(s: string, i: nat)
    ensures MatchAt(s, i) <==>
            i < |s| && IsDigit(s[i]) &&
            exists j | i + 1 <= j <= |s| :: (forall k | i + 1 <= k < j :: IsSpace(s[k])) && StAt(s, j)
  {
    if i < |s| {
      var w := SkipWhile(s, i + 1, Space);
      SkipWhileSpan(s, i + 1, Space);
      if MatchAt(s, i) {
        assert (forall k | i + 1 <= k < w :: IsSpace(s[k])) && StAt(s, w);
      }
      forall j | i + 1 <= j <= |s| && (forall k | i + 1 <= k < j :: IsSpace(s[k])) && StAt(s, j)
        ensures j == w
      {
        assert !IsSpace(s[j]);
      }
    }
  }

  /** Where the match at i ends: `[a-z]*` takes every letter after "st". */
  function MatchEnd(s: string, i: nat): (e: nat)
    requires MatchAt(s, i)
    ensures i + 3 <= e <= |s|
  {
    SkipWhile(s, SkipWhile(s, i + 1, Space) + 2, Letter)
  }

  /** `re.search` from index `from`: the leftmost index at or after it where the pattern matches. */
  function FindMatch(s: string, from: nat): (r: Option<nat>)
    requires from <= |s|
    ensures r.Some? ==> from <= r.value < |s| && MatchAt(s, r.value)
    ensures r.Some? ==> forall k | from <= k < r.value :: !MatchAt(s, k)
    ensures r.None? <==> forall k | from <= k < |s| :: !MatchAt(s, k)
    decreases |s| - from
  {
    if from == |s| then None
    else if MatchAt(s, from) then Some(from)
    else FindMatch(s, from + 1)
  }

  /** What `re.sub` leaves of s[i..] once it scans from i: every match, taken left to right without overlap, deleted. */
  function RemoveRatingsFrom(s: string, i: nat): string
    requires i <= |s|
    decreases |s| - i
  {
    if i == |s| then []
    else if MatchAt(s, i) then RemoveRatingsFrom(s, MatchEnd(s, i))
    else [s[i]] + RemoveRatingsFrom(s, i + 1)
  }

  /** `re.sub(pattern, "", s)`. */
  function RemoveRatings(s: string): string
  {
    RemoveRatingsFrom(s, 0)
  }

  // ---------------------------------------------------------------------------
  // Lemmas about the scanner
  // ---------------------------------------------------------------------------


  /** Skipping in a slice s[d..b] is skipping in s, cut off at b. */
  lemma SkipWhileSlice(s: string, d: nat, b: nat, i: nat, cls: CharClass)
    requires d + i <= b <= |s|
    ensures d + SkipWhile(s[d..b], i, cls) == Min(SkipWhile(s, d + i, cls), b)
  {
    var t := s[d..b];
    var j := SkipWhile(s, d + i, cls);
    var j' := SkipWhile(t, i, cls);
    SkipWhileSpan(s, d + i, cls);
    SkipWhileSpan(t, i, cls);
    forall k | d + i <= k < d + j' ensures InClass(s[k], cls) {
      assert s[k] == t[k - d];
    }
    if j' < |t| {
      assert t[j'] == s[d + j'];
    }
  }

  /**
   * A match in a slice s[d..b] is a match in s, and back, provided that
   * nothing but whitespace follows b.
   */
  lemma MatchAtSlice(s: string, d: nat, b: nat, i: nat)
    requires d + i <= b <= |s|
    requires forall k | b <= k < |s| :: IsSpace(s[k])
    ensures MatchAt(s[d..b], i) <==> MatchAt(s, d + i)
  {
    var t := s[d..b];
    if d + i == b {
      if b < |s| { assert IsSpace(s[b]); }
    } else {
      assert t[i] == s[d + i];
      SkipWhileSlice(s, d, b, i + 1, Space);
      var j := SkipWhile(s, d + i + 1, Space);
      if j + 1 < b {
        assert t[j - d] == s[j] && t[j - d + 1] == s[j + 1];
      } else if j + 1 == b && b < |s| {
        assert IsSpace(s[j + 1]);
      }
    }
  }

  /** A match with no match between `from` and it is what the search from `from` finds. */
  lemma LeftmostIsFound(s: string, from: nat, m: nat)
    requires from <= m
    requires MatchAt(s, m)
    requires forall k | from <= k < m :: !MatchAt(s, k)
    ensures FindMatch(s, from) == Some(m)
  {
  }

  /**
   * Searching a slice s[d..b] is searching s from d, provided that nothing
   * but whitespace follows b.
   */
  lemma FindMatchSlice(s: string, d: nat, b: nat)
    requires d <= b <= |s|
    requires forall k | b <= k < |s| :: IsSpace(s[k])
    ensures FindMatch(s[d..b], 0).None? <==> FindMatch(s, d).None?
    ensures FindMatch(s[d..b], 0).Some? ==> d + FindMatch(s[d..b], 0).value == FindMatch(s, d).value
  {
    var t := s[d..b];
    MatchesOfSlice(s, d, b);
    match FindMatch(t, 0)
    case Some(m) =>
      forall k | d <= k < d + m ensures !MatchAt(s, k) {
        assert !MatchAt(t, k - d);
      }
      LeftmostIsFound(s, d, d + m);
    case None =>
      forall k | d <= k < |s| ensures !MatchAt(s, k) {
        if k < b {
          assert !MatchAt(t, k - d);
        } else {
          assert IsSpace(s[k]);
        }
      }
  }

  /** The matches in a slice s[d..b] followed by whitespace only are the matches in s between d and b. */
  lemma MatchesOfSlice(s: string, d: nat, b: nat)
    requires d <= b <= |s|
    requires forall k | b <= k < |s| :: IsSpace(s[k])
    ensures forall k | 0 <= k < b - d :: MatchAt(s[d..b], k) <==> MatchAt(s, d + k)
  {
    forall k | 0 <= k < b - d
      ensures MatchAt(s[d..b], k) <==> MatchAt(s, d + k)
    {
      MatchAtSlice(s, d, b, k);
    }
  }

  /** With no match before d, the search from 0 and the search from d agree. */
  lemma FindMatchSkip(s: string, d: nat)
    requires d <= |s|
    requires forall k | 0 <= k < d :: !MatchAt(s, k)
    ensures FindMatch(s, 0) == FindMatch(s, d)
  {
    if FindMatch(s, d).Some? {
      LeftmostIsFound(s, 0, FindMatch(s, d).value);
    }
  }

  /** Lower-casing changes neither whitespace nor letters nor digits into anything else. */
  lemma {:induction false} SkipWhileLower(s: string, i: nat, cls: CharClass)
    requires i <= |s|
    ensures SkipWhile(Lower(s), i, cls) == SkipWhile(s, i, cls)
    decreases |s| - i
  {
    if i < |s| {
      SkipWhileLower(s, i + 1, cls);
    }
  }

  /** The pattern is case-insensitive, so lower-casing the text keeps every match. */
  lemma MatchAtLower(s: string, i: nat)
    ensures MatchAt(Lower(s), i) <==> MatchAt(s, i)
    ensures MatchAt(s, i) ==> Lower(s)[i] == s[i]
  {
    if i < |s| {
      SkipWhileLower(s, i + 1, Space);
    }
  }

  /** Searching the lower-cased text finds the same match. */
  lemma FindMatchLower(s: string)
    ensures FindMatch(Lower(s), 0) == FindMatch(s, 0)
  {
    forall k | 0 <= k < |s| ensures MatchAt(Lower(s), k) <==> MatchAt(s, k) {
      MatchAtLower(s, k);
    }
    if FindMatch(s, 0).Some? {
      LeftmostIsFound(Lower(s), 0, FindMatch(s, 0).value);
    }
  }

  /**
   * Searching the text between leading whitespace s[..a] and trailing
   * whitespace s[e..] finds the same match, moved by a.
   */
  lemma FindMatchTrimmed(s: string, a: nat, e: nat)
    requires a <= e <= |s|
    requires forall k | 0 <= k < a :: IsSpace(s[k])
    requires forall k | e <= k < |s| :: IsSpace(s[k])
    ensures FindMatch(s[a..e], 0).None? <==> FindMatch(s, 0).None?
    ensures FindMatch(s[a..e], 0).Some? ==> a + FindMatch(s[a..e], 0).value == FindMatch(s, 0).value
  {
    FindMatchSlice(s, a, e);
    FindMatchSkip(s, a);
  }

  /** ... and so the digit of the match it finds is the digit of the match in s. */
  lemma FindMatchTrimmedDigit(s: string, a: nat, e: nat)
    requires a <= e <= |s|
    requires forall k | 0 <= k < a :: IsSpace(s[k])
    requires forall k | e <= k < |s| :: IsSpace(s[k])
    ensures FindMatch(s[a..e], 0).Some? && FindMatch(s, 0).Some? ==>
              s[a..e][FindMatch(s[a..e], 0).value] == s[FindMatch(s, 0).value]
  {
    FindMatchTrimmed(s, a, e);
  }

  /** Searching the stripped text finds the same match, with the same digit. */
  lemma FindMatchStrip(u: string)
    ensures FindMatch(Strip(u), 0).None? <==> FindMatch(u, 0).None?
    ensures FindMatch(Strip(u), 0).Some? ==>
              Strip(u)[FindMatch(Strip(u), 0).value] == u[FindMatch(u, 0).value]
  {
    StripMargins(u);
    FindMatchTrimmed(u, StripStart(u), StripEnd(u));
    FindMatchTrimmedDigit(u, StripStart(u), StripEnd(u));
  }

  /**
   * `is_star_rated_review` searches `review_text.lower().strip()`, while
   * `sentiment_analysis` deletes matches from the raw `review_text`.  Neither
   * step changes whether there is a match or the digit of the leftmost one.
   */
  lemma PreprocessingKeepsLeftmostMatch(s: string)
    ensures FindMatch(Strip(Lower(s)), 0).Some? <==> FindMatch(s, 0).Some?
    ensures FindMatch(s, 0).Some? ==>
              var t := Strip(Lower(s));
              t[FindMatch(t, 0).value] == s[FindMatch(s, 0).value]
  {
    FindMatchLower(s);
    FindMatchStrip(Lower(s));
    if FindMatch(s, 0).Some? {
      MatchAtLower(s, FindMatch(s, 0).value);
    }
  }

  /** re.sub copies the text up to the first place where the pattern matches. */
  lemma {:induction false} RemoveRatingsCopiesPrefix(s: string, i: nat, m: nat)
    requires i <= m <= |s|
    requires forall k | i <= k < m :: !MatchAt(s, k)
    ensures RemoveRatingsFrom(s, i) == s[i..m] + RemoveRatingsFrom(s, m)
    decreases m - i
  {
    var rest := RemoveRatingsFrom(s, m);
    if i < m {
      assert !MatchAt(s, i);
      assert RemoveRatingsFrom(s, i) == [s[i]] + RemoveRatingsFrom(s, i + 1);
      RemoveRatingsCopiesPrefix(s, i + 1, m);
      assert s[i..m] == [s[i]] + s[i + 1..m];
      assert [s[i]] + (s[i + 1..m] + rest) == ([s[i]] + s[i + 1..m]) + rest;
    } else {
      assert s[i..m] + rest == rest;
    }
  }

  /** At a match with no match before it, re.sub keeps the text before, drops the match and goes on after it. */
  lemma RemoveRatingsAt(s: string, m: nat)
    requires MatchAt(s, m)
    requires forall k | 0 <= k < m :: !MatchAt(s, k)
    ensures RemoveRatings(s) == s[..m] + RemoveRatingsFrom(s, MatchEnd(s, m))
  {
    RemoveRatingsCopiesPrefix(s, 0, m);
    assert s[0..m] == s[..m];
  }

  /** re.sub keeps the text before the leftmost match, drops the match and goes on after it. */
  lemma RemoveRatingsAtLeftmost(s: string)
    requires FindMatch(s, 0).Some?
    ensures var m := FindMatch(s, 0).value;
            RemoveRatings(s) == s[..m] + RemoveRatingsFrom(s, MatchEnd(s, m))
  {
    RemoveRatingsAt(s, FindMatch(s, 0).value);
  }

  /** Deleting the matches leaves the text as it was exactly when there is nothing to delete. */
  lemma {:induction false} RemoveRatingsKeepsTextIff(s: string, i: nat)
    requires i <= |s|
    ensures FindMatch(s, i).None? ==> RemoveRatingsFrom(s, i) == s[i..]
    ensures FindMatch(s, i).Some? ==> |RemoveRatingsFrom(s, i)| + 3 <= |s| - i
    decreases |s| - i
  {
    if i < |s| {
      if MatchAt(s, i) {
        var e := MatchEnd(s, i);
        RemoveRatingsKeepsTextIff(s, e);
        assert |RemoveRatingsFrom(s, e)| <= |s| - e;
      } else {
        RemoveRatingsKeepsTextIff(s, i + 1);
        assert s[i..] == [s[i]] + s[i + 1..];
      }
    }
  }

  // ---------------------------------------------------------------------------
  // is_star_rated_review
  // ---------------------------------------------------------------------------

  /**
   * `is_star_rated_review` with line 35 read as the evidently intended
   * `star_review.groups()`: whether the text holds a match and, if so, the
   * digit of the leftmost one as a one-character str; otherwise the int -1.
   */
  function IsStarRatedReview(reviewText: string): (r: (bool, PyValue))
    ensures r.0 <==> FindMatch(reviewText, 0).Some?
    ensures r.0 ==> r.1 == Str([reviewText[FindMatch(reviewText, 0).value]])
    ensures !r.0 ==> r.1 == Int(-1)
  {
    PreprocessingKeepsLeftmostMatch(reviewText);
    var text := Strip(Lower(reviewText));
    match FindMatch(text, 0)
    case Some(i) => (true, Str([text[i]]))
    case None => (false, Int(-1))
  }

  /**
   * `is_star_rated_review` as written: line 35 reads `match_star`, a name
   * bound nowhere, so every text with a match raises NameError.
   */
  function IsStarRatedReviewAsWritten(reviewText: string): (r: Result<(bool, PyValue)>)
    ensures r.Err? <==> IsStarRatedReview(reviewText).0
    ensures r.Err? ==> r.error == NameError("match_star")
    ensures r.Ok? ==> r.value == IsStarRatedReview(reviewText)
  {
    PreprocessingKeepsLeftmostMatch(reviewText);
    var text := Strip(Lower(reviewText));
    match FindMatch(text, 0)
    case Some(_) => Err(NameError("match_star"))
    case None => Ok((false, Int(-1)))
  }

  // ---------------------------------------------------------------------------
  // sentiment_analysis
  // ---------------------------------------------------------------------------

  /** `STARS_TO_SENTIMENT[rating]`, raising KeyError for a key the table lacks. */
  function LookupStars(rating: PyValue): (r: Result<Sentiment>)
    ensures r.Ok? <==> rating.Str? && rating.s in StarsToSentiment
    ensures r.Err? ==> r.error == KeyError(rating)
  {
    if rating.Str? && rating.s in StarsToSentiment then Ok(StarsToSentiment[rating.s])
    else Err(KeyError(rating))
  }

  /** The thresholds on the compound score; both are strict, so exactly +-0.05 is neutral. */
  function Classify(compound: real): (r: Sentiment)
    ensures r == Positive <==> compound > 0.05
    ensures r == Negative <==> compound < -0.05
    ensures r == Neutral <==> -0.05 <= compound <= 0.05
  {
    if compound > 0.05 then Positive
    else if compound < -0.05 then Negative
    else Neutral
  }

  /** A text with a rating and nothing else once every rating token is deleted and the rest stripped. */
  predicate RatingOnly(text: string) {
    FindMatch(text, 0).Some? && Strip(RemoveRatings(text)) == []
  }

  /** The digit of the leftmost rating in a text that holds one. */
  function LeftmostDigit(text: string): (c: char)
    requires FindMatch(text, 0).Some?
    ensures IsDigit(c)
  {
    text[FindMatch(text, 0).value]
  }

  /**
   * `sentiment_analysis` (with the intended `is_star_rated_review`): the
   * table for a rating-only text, the thresholds on the compound score of
   * the original text otherwise.  Only a rating-only text whose leftmost
   * digit is 0 or 6 to 9 makes it fail, with KeyError on that digit.
   */
  function SentimentAnalysis(reviewText: string, compound: string -> real): (r: Result<Sentiment>)
    ensures !RatingOnly(reviewText) ==> r == Ok(Classify(compound(reviewText)))
    ensures RatingOnly(reviewText) ==>
      r == LookupStars(Str([LeftmostDigit(reviewText)]))
    ensures r.Err? <==> RatingOnly(reviewText) && !('1' <= LeftmostDigit(reviewText) <= '5')
    ensures r.Err? ==> r.error == KeyError(Str([LeftmostDigit(reviewText)]))
  {
    var (isRated, rating) := IsStarRatedReview(reviewText);
    if isRated && Strip(RemoveRatings(reviewText)) == [] then
      StarKeys(LeftmostDigit(reviewText));
      LookupStars(rating)
    else Ok(Classify(compound(reviewText)))
  }

  /** The table's keys are exactly the one-digit strings "1" to "5". */
  lemma StarKeys(c: char)
    ensures [c] in StarsToSentiment <==> '1' <= c <= '5'
  {
    if '1' <= c <= '5' {
      assert c == '1' || c == '2' || c == '3' || c == '4' || c == '5';
    } else {
      assert [c] != "1" && [c] != "2" && [c] != "3" && [c] != "4" && [c] != "5";
    }
  }

  /** `sentiment_analysis` as written, calling the failing `is_star_rated_review`. */
  function SentimentAnalysisAsWritten(reviewText: string, compound: string -> real): (r: Result<Sentiment>)
    ensures FindMatch(reviewText, 0).Some? ==> r == Err(NameError("match_star"))
    ensures FindMatch(reviewText, 0).None? ==> r == SentimentAnalysis(reviewText, compound)
  {
    match IsStarRatedReviewAsWritten(reviewText)
    case Err(e) => Err(e)
    case Ok((isRated, rating)) =>
      if isRated && Strip(RemoveRatings(reviewText)) == [] then LookupStars(rating)
      else Ok(Classify(compound(reviewText)))
  }

  // ---------------------------------------------------------------------------
  // Properties of the classifier
  // ---------------------------------------------------------------------------

  /** The table maps the digits 1 and 2 to negative, 3 to neutral, 4 and 5 to positive. */
  lemma StarTableByDigit(c: char)
    requires '1' <= c <= '5'
    ensures LookupStars(Str([c])).Ok?
    ensures LookupStars(Str([c])).value == (if c <= '2' then Negative else if c == '3' then Neutral else Positive)
  {
    assert c == '1' || c == '2' || c == '3' || c == '4' || c == '5';
  }

  /** A rating-only review is classified without consulting the lexicon scorer. */
  lemma RatingOnlyIgnoresScorer(reviewText: string, compound1: string -> real, compound2: string -> real)
    requires RatingOnly(reviewText)
    ensures SentimentAnalysis(reviewText, compound1) == SentimentAnalysis(reviewText, compound2)
  {
  }

  /** Every other review depends on the scorer only through its score of the review itself. */
  lemma LexiconPathUsesOnlyTheScore(reviewText: string, compound1: string -> real, compound2: string -> real)
    requires !RatingOnly(reviewText)
    requires compound1(reviewText) == compound2(reviewText)
    ensures SentimentAnalysis(reviewText, compound1) == SentimentAnalysis(reviewText, compound2)
  {
  }

  /**
   * The int -1 that `is_star_rated_review` returns for an unrated text is
   * never used as a table key: such a text always takes the lexicon path.
   */
  lemma UnratedValueIsNeverLookedUp(reviewText: string, compound: string -> real)
    requires IsStarRatedReview(reviewText).1 == Int(-1)
    ensures SentimentAnalysis(reviewText, compound) == Ok(Classify(compound(reviewText)))
  {
  }

  /** The thresholds are monotone: a higher score never yields a lower label. */
  lemma ClassifyMonotone(x: real, y: real)
    requires x <= y
    ensures Classify(x) == Positive ==> Classify(y) == Positive
    ensures Classify(y) == Negative ==> Classify(x) == Negative
  {
  }

  /** A text with no digit holds no rating. */
  lemma NoDigitNoRating(s: string)
    requires forall k | 0 <= k < |s| :: !IsDigit(s[k])
    ensures FindMatch(s, 0) == None
    ensures RemoveRatings(s) == s
  {
    RemoveRatingsKeepsTextIff(s, 0);
    assert s[0..] == s;
  }

  /** A text that is one rating token from start to end is rating-only, with that token's digit. */
  lemma WholeTextIsOneRating(s: string)
    requires MatchAt(s, 0) && MatchEnd(s, 0) == |s|
    ensures RatingOnly(s) && LeftmostDigit(s) == s[0]
  {
    assert FindMatch(s, 0) == Some(0);
    assert RemoveRatings(s) == RemoveRatingsFrom(s, |s|) == [];
  }

  /** A rating token followed by digit-free text that is not all whitespace is not rating-only. */
  lemma RatingThenComment(s: string)
    requires MatchAt(s, 0)
    requires forall k | MatchEnd(s, 0) <= k < |s| :: !IsDigit(s[k])
    requires exists k | MatchEnd(s, 0) <= k < |s| :: !IsSpace(s[k])
    ensures !RatingOnly(s)
  {
    var e := MatchEnd(s, 0);
    var rest := s[e..];
    assert FindMatch(s, e) == None;
    RemoveRatingsKeepsTextIff(s, e);
    assert RemoveRatings(s) == rest;
    StripEmptyIff(rest);
    var k :| e <= k < |s| && !IsSpace(s[k]);
    assert rest[k - e] == s[k];
  }

  /** "5 stars", the module's own demonstration input, is positive from the table. */
  lemma FiveStarsIsPositive(compound: string -> real)
    ensures SentimentAnalysis("5 stars", compound) == Ok(Positive)
  {
    var s := "5 stars";
    assert SkipWhile(s, 1, Space) == 2;
    assert SkipWhile(s, 4, Letter) == 7;
    WholeTextIsOneRating(s);
    StarTableByDigit('5');
  }

  /**
   * The finding at util/sentiments.py:35: on "5 stars" the code as written raises
   * NameError, where the evidently intended code answers positive.
   */
  lemma FiveStarsAsWrittenRaises(compound: string -> real)
    ensures SentimentAnalysisAsWritten("5 stars", compound) == Err(NameError("match_star"))
    ensures SentimentAnalysis("5 stars", compound) == Ok(Positive)
  {
    var s := "5 stars";
    assert MatchAt(s, 0) by { assert SkipWhile(s, 1, Space) == 2; }
    FiveStarsIsPositive(compound);
  }

  /** "9 stars" is rating-only, but 9 is not in the table: KeyError. */
  lemma NineStarsRaisesKeyError(compound: string -> real)
    ensures SentimentAnalysis("9 stars", compound) == Err(KeyError(Str("9")))
  {
    var s := "9 stars";
    assert SkipWhile(s, 1, Space) == 2;
    assert SkipWhile(s, 4, Letter) == 7;
    WholeTextIsOneRating(s);
  }

  /** "1st" is taken for a one-star rating, the false positive the source admits. */
  lemma FirstIsReadAsOneStar(compound: string -> real)
    ensures IsStarRatedReview("1st") == (true, Str("1"))
    ensures SentimentAnalysis("1st", compound) == Ok(Negative)
  {
    var s := "1st";
    assert SkipWhile(s, 1, Space) == 1;
    assert SkipWhile(s, 3, Letter) == 3;
    WholeTextIsOneRating(s);
    StarTableByDigit('1');
  }

  /** A rating followed by other words is scored by the lexicon. */
  lemma RatingWithCommentUsesLexicon(compound: string -> real)
    ensures SentimentAnalysis("5 stars, awful", compound) == Ok(Classify(compound("5 stars, awful")))
  {
    var s := "5 stars, awful";
    assert SkipWhile(s, 1, Space) == 2;
    assert SkipWhile(s, 4, Letter) == 7;
    assert !IsSpace(s[7]);
    RatingThenComment(s);
  }

  /** Punctuation left after the rating keeps "5 stars!" on the lexicon path. */
  lemma TrailingPunctuationUsesLexicon(compound: string -> real)
    ensures SentimentAnalysis("5 stars!", compound) == Ok(Classify(compound("5 stars!")))
  {
    var s := "5 stars!";
    assert SkipWhile(s, 1, Space) == 2;
    assert SkipWhile(s, 4, Letter) == 7;
    assert !IsSpace(s[7]);
    RatingThenComment(s);
  }

  /**
   * "10 stars" holds its match at the 0, not the 1, so the rating is "0";
   * deleting the match leaves "1", so the lexicon decides.
   */
  lemma TenStarsReadsTheZero(compound: string -> real)
    ensures IsStarRatedReview("10 stars") == (true, Str("0"))
    ensures SentimentAnalysis("10 stars", compound) == Ok(Classify(compound("10 stars")))
  {
    var s := "10 stars";
    assert SkipWhile(s, 1, Space) == 1;
    assert !MatchAt(s, 0);
    assert SkipWhile(s, 2, Space) == 3;
    assert SkipWhile(s, 5, Letter) == 8;
    assert FindMatch(s, 0) == Some(1);
    assert RemoveRatings(s) == [s[0]] + RemoveRatingsFrom(s, 1);
    assert RemoveRatingsFrom(s, 1) == RemoveRatingsFrom(s, 8) == [];
    assert RemoveRatings(s) == "1";
    StripEmptyIff("1");
  }

  /** The empty review holds no rating and is scored by the lexicon. */
  lemma EmptyReviewUsesLexicon(compound: string -> real)
    ensures IsStarRatedReview("") == (false, Int(-1))
    ensures SentimentAnalysis("", compound) == Ok(Classify(compound("")))
  {
  }
}
