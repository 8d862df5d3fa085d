# delight_pointers: sentiment labelling and delight attributes, modelled in Dafny

The program reads customer reviews of a product. It does four things:

1. It labels each review body "positive", "negative" or "neutral".
2. It gives each review a "delight attribute": the top keyword of the last topic that lists the review.
3. It counts how often each attribute occurs among the positive reviews.
4. It prints how many reviews were positive (successes) and how many were not (fails).

## Files

- `runtime.dfy` (`Runtime`): the Python values and exceptions the code can produce: `str`/`int` values, `KeyError` and `NameError`.
- `sentiments.dfy` (`Sentiments`): the hybrid classifier of `util/sentiments.py`.
  - The rating regex is written out by hand over ASCII, and so are `str.lower`, `str.strip`, `re.search` and `re.sub`.
  - A body that holds a star rating and nothing else is classified from the `STARS_TO_SENTIMENT` table.
  - Every other body is classified by two strict thresholds on the lexicon scorer's compound score.
  - The scorer is a parameter, `compound: string -> real`.
- `topics.dfy` (`Topics`): `delight_attribute` of `util/topics.py`.
  - It is an imperative loop that writes into an array of rows.
  - It is proved equal to a per-row specification.
- `frequency.dfy` (`Frequency`): pandas' `value_counts()` on a string column.
  - Each distinct value appears once, with its number of occurrences.
  - Entries are ordered by non-increasing count.
- `review_analysis.py`'s core lines are modelled in `review_analysis.dfy` (`ReviewAnalysis`):
  - the labelling loop (lines 27-28), over an array of reviews updated in place;
  - the selection of the positive rows (line 39);
  - the attribute frequency (line 40);
  - the summary (lines 45-46).

Where the type annotations and the code disagree, the model follows the code.
`is_star_rated_review` is annotated as returning `tuple[bool, str]`. Its no-match branch (line 38) returns the int `-1`, so the model returns `Int(-1)` there. `Sentiments.UnratedValueIsNeverLookedUp` shows that value is never used as a table key.

## Model

| member | source | states |
|---|---|---|
| Sentiments.Name | util/sentiments.py:61-63 | the stored label is "positive" exactly for Positive, and likewise "negative" and "neutral" |
| Sentiments.StarsToSentiment | util/sentiments.py:13-19 | (a constant, no contract) the table maps "1" and "2" to Negative, "3" to Neutral, "4" and "5" to Positive, and has no other key |
| Sentiments.StarTableByDigit | util/sentiments.py:13-19 | ratings "1" and "2" map to negative, "3" to neutral, "4" and "5" to positive |
| Sentiments.StarKeys | util/sentiments.py:13-19 | a one-character key is in the table exactly when it is a digit from 1 to 5 |
| Sentiments.Lower | util/sentiments.py:27 | lower-casing keeps the length and maps each character through ASCII lower-case |
| Sentiments.SkipWhile | util/sentiments.py:32 | a greedy run (`\s*`, `[a-z]*`) stops at the end of the text or at the first character outside its class |
| Sentiments.SkipWhileSpan | util/sentiments.py:32 | every character the greedy run passes over is in its class |
| Sentiments.TrimEnd | util/sentiments.py:27 | trailing whitespace is exactly what lies after the returned end, and the character before that end is not whitespace |
| Sentiments.StripStart | util/sentiments.py:27 | the index of the first non-whitespace character, or the length when there is none; it lies within the text |
| Sentiments.StripEnd | util/sentiments.py:27 | one past the last non-whitespace character, never before StripStart and never past the end |
| Sentiments.Strip | util/sentiments.py:27 | (definition, no contract) `strip()` is the text between StripStart and StripEnd; StripMargins and StripEmptyIff state what it removes |
| Sentiments.StripMargins | util/sentiments.py:27 | `strip()` removes only whitespace, at both ends |
| Sentiments.StripEmptyIff | util/sentiments.py:51-55 | a stripped text is empty exactly when the text is all whitespace; otherwise it starts and ends with a non-space |
| Sentiments.MatchAt | util/sentiments.py:32 | (definition, no contract) the pattern matches at i exactly when s[i] is a digit and "st", in either case, follows the digit's longest run of whitespace |
| Sentiments.MatchAtIsRegex | util/sentiments.py:32 | that greedy reading loses no match: MatchAt holds exactly when s[i] is a digit followed by some run of whitespace, of any length, and then "st" |
| Sentiments.MatchEnd | util/sentiments.py:32 | a match covers at least the digit and "st" and ends inside the text |
| Sentiments.FindMatch | util/sentiments.py:32 | `re.search` returns the leftmost position where the pattern matches, and returns None exactly when there is no such position |
| Sentiments.LeftmostIsFound | util/sentiments.py:32 | a match with no match before it is the one the search returns |
| Sentiments.RemoveRatingsFrom | util/sentiments.py:51 | (definition, no contract) scanning from i, `re.sub` deletes a match and resumes at its end, and otherwise keeps the character and moves on by one |
| Sentiments.RemoveRatings | util/sentiments.py:51 | (definition, no contract) `re.sub(pattern, "", text)` is that scan from index 0 |
| Sentiments.MatchAtSlice | util/sentiments.py:27-32 | matching inside a slice of the text agrees with matching in the text, when only whitespace is cut off at the end |
| Sentiments.FindMatchSlice | util/sentiments.py:27-32 | searching a slice finds the same match, shifted, as searching the text from the slice's start |
| Sentiments.FindMatchSkip | util/sentiments.py:27-32 | skipping a prefix that holds no match does not change the search result |
| Sentiments.SkipWhileLower | util/sentiments.py:27-32 | lower-casing does not change where a greedy run of spaces or letters stops |
| Sentiments.MatchAtLower | util/sentiments.py:27-32 | under IGNORECASE, lower-casing neither adds nor removes a match, and it keeps the matched digit |
| Sentiments.FindMatchLower | util/sentiments.py:27-32 | lower-casing does not change the search result |
| Sentiments.FindMatchTrimmed | util/sentiments.py:27-32 | removing whitespace margins keeps whether there is a match and shifts its position by the removed prefix |
| Sentiments.FindMatchTrimmedDigit | util/sentiments.py:27-32 | removing whitespace margins keeps the digit of the leftmost match |
| Sentiments.FindMatchStrip | util/sentiments.py:27-32 | `strip()` keeps whether there is a match and the digit of the leftmost one |
| Sentiments.PreprocessingKeepsLeftmostMatch | util/sentiments.py:27-51 | the lower-cased, stripped text searched at line 32 and the raw text edited at line 51 agree on whether there is a rating and on its digit |
| Sentiments.RemoveRatingsCopiesPrefix | util/sentiments.py:51 | `re.sub` copies unchanged the text before its first match |
| Sentiments.RemoveRatingsAt | util/sentiments.py:51 | `re.sub` deletes the leftmost match and carries on after its end |
| Sentiments.RemoveRatingsAtLeftmost | util/sentiments.py:51 | the same, for the match that `re.search` finds |
| Sentiments.RemoveRatingsKeepsTextIff | util/sentiments.py:51 | without a match `re.sub` returns the text unchanged; with one it returns at least three characters fewer |
| Sentiments.IsStarRatedReview | util/sentiments.py:22-38 | the flag is true exactly when the body holds a rating; the rating is then the digit of the leftmost match as a str, and otherwise the int -1 |
| Sentiments.IsStarRatedReviewAsWritten | util/sentiments.py:35 | with `match_star` as written, every body holding a rating raises NameError, and every other body returns (False, -1) |
| Sentiments.LookupStars | util/sentiments.py:56 | the table lookup succeeds exactly for a str key in the table, and raises KeyError carrying that key otherwise |
| Sentiments.Classify | util/sentiments.py:59-63 | positive exactly above 0.05, negative exactly below -0.05, and neutral on the closed interval between |
| Sentiments.LeftmostDigit | util/sentiments.py:32 | the group captured by `(\d)` is a digit |
| Sentiments.RatingOnly | util/sentiments.py:46-55 | (definition, no contract) `is_rated and not text_without_rating`: the text holds a rating, and only whitespace is left once every rating is deleted |
| Sentiments.SentimentAnalysis | util/sentiments.py:41-65 | a rating-only body gets the table's label for its leftmost digit; any other body gets the threshold label of the original body's score; it raises KeyError exactly for a rating-only body whose digit is 0 or 6-9 |
| Sentiments.SentimentAnalysisAsWritten | util/sentiments.py:35-46 | as written, every body holding a rating raises NameError; every other body gets the same label as under the intended code |
| Sentiments.RatingOnlyIgnoresScorer | util/sentiments.py:55-57 | the label of a rating-only body does not depend on the lexicon scorer |
| Sentiments.LexiconPathUsesOnlyTheScore | util/sentiments.py:59-65 | otherwise the label depends only on the compound score of that body |
| Sentiments.UnratedValueIsNeverLookedUp | util/sentiments.py:38-59 | a body for which the int -1 is returned always takes the lexicon path |
| Sentiments.ClassifyMonotone | util/sentiments.py:61-63 | a higher score never turns positive into something else, and a lower one never turns negative into something else |
| Sentiments.NoDigitNoRating | util/sentiments.py:32-51 | a body without digits has no rating and is left unchanged by `re.sub` |
| Sentiments.WholeTextIsOneRating | util/sentiments.py:46-55 | a body that is exactly one rating token is rating-only, and its first character is the rating |
| Sentiments.RatingThenComment | util/sentiments.py:51-55 | a rating followed by digit-free text that is not all whitespace takes the lexicon path |
| Sentiments.FiveStarsIsPositive | util/sentiments.py:69 | the intended code labels "5 stars" positive whatever the scorer says |
| Sentiments.FiveStarsAsWrittenRaises | util/sentiments.py:35-69 | as written, "5 stars" raises NameError |
| Sentiments.NineStarsRaisesKeyError | util/sentiments.py:56 | "9 stars" raises KeyError('9') |
| Sentiments.FirstIsReadAsOneStar | util/sentiments.py:30 | the ordinal "1st" is read as a one-star rating and labelled negative |
| Sentiments.RatingWithCommentUsesLexicon | util/sentiments.py:51-59 | "5 stars, awful" leaves text behind and is scored by the lexicon |
| Sentiments.TrailingPunctuationUsesLexicon | util/sentiments.py:51-59 | "5 stars!" leaves "!" behind and is scored by the lexicon |
| Sentiments.TenStarsReadsTheZero | util/sentiments.py:32-51 | in "10 stars" the rating read is "0", but what `re.sub` leaves ("1") is not empty, so the body is scored by the lexicon |
| Sentiments.EmptyReviewUsesLexicon | util/sentiments.py:38-59 | an empty body has no rating (-1) and is scored by the lexicon |
| Topics.TopicDocuments | util/topics.py:17 | a topic returns `topic_sizes[n]` document ids, the first ones of its ranking, each a row of the frame |
| Topics.TopWord | util/topics.py:18 | (definition, no contract) `topic_words[n][0]`, which Queryable guarantees exists |
| Topics.AttributeAfter | util/topics.py:12-18 | (definition, no contract) a row's value after k rounds: "" after none; after round k-1, that topic's top keyword if it lists the row, and otherwise the value after k-1 rounds; this is the invariant of the loop in DelightAttribute |
| Topics.Attributes | util/topics.py:10-20 | the returned column has one value per row |
| Topics.DelightAttribute | util/topics.py:10-20 | the array the loop fills holds, for every row, the value the per-row specification gives after all topics |
| Topics.UnlistedRowStaysEmpty | util/topics.py:12 | a row that no topic lists keeps the initial "" |
| Topics.LastListingTopicWins | util/topics.py:16-18 | a listed row gets the top keyword of the highest-numbered topic that lists it |
| Topics.AttributesByTopics | util/topics.py:12-20 | the whole returned column, row by row, is described by those two cases |
| Topics.AttributeIsEmptyOrTopWord | util/topics.py:12-18 | every value is "" or the top keyword of some topic |
| Topics.OnlyTopWordsAndIdsMatter | util/topics.py:13-18 | two models that agree on each topic's returned ids and top keyword give the same column |
| Frequency.Keys | review_analysis.py:40 | the index of the counts table lists its entries' values in order |
| Frequency.Distinct | review_analysis.py:40 | the distinct values, each once, are exactly the values of the column |
| Frequency.Tally | review_analysis.py:40 | each distinct value is paired with its number of occurrences |
| Frequency.Insert | review_analysis.py:40 | inserting an entry adds exactly that entry |
| Frequency.SortByCount | review_analysis.py:40 | sorting by count is a permutation of the table |
| Frequency.InsertKeepsOrder | review_analysis.py:40 | inserting into a table ordered by count keeps it ordered |
| Frequency.SortByCountOrders | review_analysis.py:40 | the sorted table is ordered by non-increasing count |
| Frequency.InsertAddsCount | review_analysis.py:40 | inserting an entry adds its count to the table's total |
| Frequency.SortKeepsTotal | review_analysis.py:40 | sorting keeps the total of the counts |
| Frequency.KeysOfPermutation | review_analysis.py:40 | tables that are permutations of each other have the same values |
| Frequency.InsertKeepsKeysDistinct | review_analysis.py:40 | inserting a new value keeps the values distinct |
| Frequency.SortKeepsKeysDistinct | review_analysis.py:40 | sorting keeps the values distinct |
| Frequency.ValueCounts | review_analysis.py:40 | `value_counts()` has one entry per distinct value of the column, with exactly the value's positive number of occurrences, ordered by non-increasing count |
| Frequency.TallyTotalAddOne | review_analysis.py:40 | one more occurrence of a listed value adds one to the total of the tally |
| Frequency.TallyTotalAppend | review_analysis.py:40 | tallying one more value adds its occurrences to the total |
| Frequency.TallyTotalIsLength | review_analysis.py:40 | the tally's counts add up to the column's length |
| Frequency.ValueCountsTotal | review_analysis.py:40 | the counts add up to the number of values counted |
| Frequency.ValueCountsOfNothing | review_analysis.py:40 | an empty column has an empty counts table |
| ReviewAnalysis.Classifier | review_analysis.py:28 | (definition, no contract) the classifier line 28 calls: the corrected `sentiment_analysis`, with the scorer fixed |
| ReviewAnalysis.Labelled | review_analysis.py:27-28 | (definition, no contract) one round: KeyError('body') without a body, the classifier's exception if it raises, and otherwise the review with "sentiment" set to the label; LabelledSetsOnlySentiment states this |
| ReviewAnalysis.LabelledSetsOnlySentiment | review_analysis.py:27-28 | one round sets "sentiment" to the label of the body, leaves every other field alone, raises KeyError('body') on a review without a body, and passes on what the classifier raises |
| ReviewAnalysis.AssignSentiments | review_analysis.py:27-28 | the loop labels the reviews in order, in place, each with the label the classifier gives its body; on the first round that raises it stops, leaving that review and all later ones untouched, and returns the exception |
| ReviewAnalysis.SentimentColumn | review_analysis.py:30 | the frame's sentiment column has one entry per review |
| ReviewAnalysis.LabelledColumnIsClassification | review_analysis.py:27-30 | after a loop with `sentiment_analysis` as its classifier that raised nothing, a row is "positive" exactly when `sentiment_analysis` labels its body Positive |
| ReviewAnalysis.Selected | review_analysis.py:39 | boolean indexing keeps at most the given rows, each an existing row |
| ReviewAnalysis.SelectedKeepsMarkedRows | review_analysis.py:39 | boolean indexing keeps exactly the marked rows, in row order, each once |
| ReviewAnalysis.PositiveMask | review_analysis.py:39 | the mask is true exactly at rows labelled "positive" |
| ReviewAnalysis.PositiveRows | review_analysis.py:39 | the positive reviews are rows of the frame |
| ReviewAnalysis.PositiveRowsArePositive | review_analysis.py:39 | `positive_reviews` holds exactly the rows labelled "positive", in their order |
| ReviewAnalysis.Complement | review_analysis.py:46 | the complementary mask differs from the mask at every row |
| ReviewAnalysis.SelectedPartition | review_analysis.py:45-46 | the rows a mask keeps and the rows its complement keeps add up to all rows |
| ReviewAnalysis.Pick | review_analysis.py:40 | picking a column at some rows gives those rows' values, in the given order |
| ReviewAnalysis.PositiveAttributes | review_analysis.py:40 | the positive reviews' attribute column has one value per positive review |
| ReviewAnalysis.AttributeFrequency | review_analysis.py:40 | the attribute frequency is ordered by non-increasing count and lists each attribute once |
| ReviewAnalysis.PositiveWith | review_analysis.py:39-40 | the mask marks exactly the rows labelled "positive" whose attribute is the given one |
| ReviewAnalysis.OccurrencesAreSelectedRows | review_analysis.py:39-40 | the occurrences of a value among the selected rows' values are as many as the selected rows holding that value |
| ReviewAnalysis.PickAppend | review_analysis.py:40 | picking one more row adds its value |
| ReviewAnalysis.AttributeFrequencyCounts | review_analysis.py:39-40 | the table's keys are exactly the attributes of positive reviews, and each count is the number of positive reviews with that attribute |
| ReviewAnalysis.Summarize | review_analysis.py:45-46 | successes plus fails is the number of reviews, and fails is the number of reviews not labelled "positive", never negative |
| ReviewAnalysis.FrequencyTotalIsSuccesses | review_analysis.py:40-45 | the counts in the written frequency table add up to the printed number of successes |

## Left out

- The VADER lexicon scorer (`sia.polarity_scores`) is a parameter, `compound: string -> real`. Its scores are exact reals, so floating-point rounding at the thresholds is not modelled.
- The lexicon download, loading the spaCy model, and the unused `lang_processor` are side effects at import time and are not modelled.
- Training the Top2Vec model and its queries (`get_topic_sizes`, `get_topics`, `search_documents_by_topic`) are given as data in `Topics.TopicModel`.
  - A model whose answers are inconsistent is excluded by the precondition `Topics.Queryable`. Examples: a topic with no keywords, which makes `topic_words[n][0]` raise IndexError; an id that labels no row, which makes `.loc` raise KeyError; and a topic asked for more documents than it has, which the Top2Vec library itself rejects.
  - The `documents` and `document_scores` results are ignored by the source and are not modelled.
- Reading the JSON file, the command-line interface (click), writing the CSV file and the printed lines are I/O and are not modelled.
  - The summary is modelled as the two numbers it prints, in `ReviewAnalysis.Summarize`.
  - The frequency table is modelled as the table written out.
  - The swallowed exception at lines 22-23 is not modelled. After it, `reviews` is unbound and line 27 raises NameError.
- The data frame is reduced to its columns: the "sentiment" and "attribute" columns, each as a sequence indexed by row. The review dictionaries are maps from string to string, so JSON values that are not strings are not modelled.
- ReviewAnalysis.AssignSentiments: an exception in the loop ends the whole program. The model returns the exception together with the number of reviews labelled so far.
- ReviewAnalysis.AssignSentiments: the method takes the classifier as a parameter, and line 28 passes `ReviewAnalysis.Classifier(compound)`, which is the corrected `sentiment_analysis` (with line 35 read as `star_review.groups()`). The method's contract holds for any classifier. `ReviewAnalysis.LabelledColumnIsClassification` states what the labels mean for that classifier.
- Characters outside ASCII are not modelled:
  - Unicode digits, which `\d` matches;
  - Unicode whitespace, which `\s` and `strip()` match;
  - Unicode case folding under IGNORECASE and `lower()`.
- The second captured group (`star_word`) is bound at line 35 and never used, so it is not modelled.
- `Frequency.ValueCounts`: pandas' order among values with equal counts is not promised. The model breaks ties by first appearance and no property depends on that order.
- The `attribute` column is taken from `Topics.DelightAttribute` as a plain column. Assigning it back into the frame (line 36) is not modelled separately.

## Findings

| source | as written | input that shows it | evidently intended | confidence | as-written member | corrected member |
|---|---|---|---|---|---|---|
| util/sentiments.py:35 | the groups are read from `match_star`, a name bound nowhere, so every review holding a rating raises NameError; this includes the program's own example at line 69 | "5 stars" | `star_review.groups()`: return True and the digit of the leftmost match, so that "5 stars" is labelled positive from the table | high (not executed) | Sentiments.FiveStarsAsWrittenRaises | Sentiments.FiveStarsIsPositive |
