/**
 * The decision logic of review_analysis.py: labelling every review with its
 * sentiment (lines 27-28), keeping the positive rows (line 39), counting
 * their attributes (line 40) and the success/fail summary (lines 45-46).
 *
 * A review is the JSON object it was read from, with string values; the
 * frame built from the reviews is represented by its columns, one sequence
 * per column, indexed by row.
 */
module ReviewAnalysis {
  import opened Runtime
  import opened Sentiments
  import opened Frequency

  /** One review as read from the JSON file: field name to value. */
  type Review = map<string, string>

  // ---------------------------------------------------------------------------
  // Lines 27-28: review['sentiment'] = sentiment_analysis(review['body'])
  // ---------------------------------------------------------------------------

  /**
   * The classifier the loop applies to every body: the corrected
   * `sentiment_analysis` (line 35 of util/sentiments.py read as
   * `star_review.groups()`), with the lexicon scorer's compound score as a
   * parameter.
   */
  function Classifier(compound: string -> real): string -> Result<Sentiment>
  {
    body => SentimentAnalysis(body, compound)
  }

  /**
   * One round of the loop: the review with its "sentiment" field set to the
   * label `classify` gives its body, or the exception the round raises
   * (KeyError for a review without a body, or whatever `classify` raises).
   */
  function Labelled(review: Review, classify: string -> Result<Sentiment>): (r: Result<Review>)
  {
    if "body" !in review then Err(KeyError(Str("body")))
    else
      match classify(review["body"])
      case Err(e) => Err(e)
      case Ok(s) => Ok(review["sentiment" := Name(s)])
  }

  /**
   * A round sets "sentiment" to the label of the body and changes no other
   * field; it raises KeyError on a review without a body and passes on what
   * the classifier raises.
   */
  lemma LabelledSetsOnlySentiment(review: Review, classify: string -> Result<Sentiment>)
    ensures "body" !in review ==> Labelled(review, classify) == Err(KeyError(Str("body")))
    ensures Labelled(review, classify).Ok? <==> "body" in review && classify(review["body"]).Ok?
    ensures "body" in review && Labelled(review, classify).Err? ==>
            Labelled(review, classify).error == classify(review["body"]).error
    ensures Labelled(review, classify).Ok? ==>
              var labelled := Labelled(review, classify).value;
              && labelled.Keys == review.Keys + {"sentiment"}
              && labelled["sentiment"] == Name(classify(review["body"]).value)
              && forall k | k in review && k != "sentiment" :: labelled[k] == review[k]
  {
  }

  /**
   * The loop over the reviews, updating each one in place; line 28 passes
   * `Classifier(compound)`.  It stops at the first review whose round
   * raises: the reviews before it are labelled, it and the ones after it
   * are as they were, and the exception is returned.
   */
  method AssignSentiments(reviews: array<Review>, classify: string -> Result<Sentiment>)
    returns (labelled: nat, error: Option<Error>)
    modifies reviews
    ensures labelled <= reviews.Length
    ensures error.None? <==> labelled == reviews.Length
    ensures forall i | 0 <= i < labelled :: Labelled(old(reviews[i]), classify) == Ok(reviews[i])
    ensures error.Some? ==> Labelled(old(reviews[labelled]), classify) == Err(error.value)
    ensures forall i | labelled <= i < reviews.Length :: reviews[i] == old(reviews[i])
  {
    labelled := 0;
    while labelled < reviews.Length
      invariant labelled <= reviews.Length
      invariant forall i | 0 <= i < labelled :: Labelled(old(reviews[i]), classify) == Ok(reviews[i])
      invariant forall i | labelled <= i < reviews.Length :: reviews[i] == old(reviews[i])
    {
      var outcome := Labelled(reviews[labelled], classify);
      if outcome.Err? {
        error := Some(outcome.error);
        return;
      }
      reviews[labelled] := outcome.value;
      labelled := labelled + 1;
    }
    error := None;
  }

  /** The "sentiment" column of the frame built from labelled reviews. */
  function SentimentColumn(reviews: seq<Review>): (column: seq<string>)
    requires forall i | 0 <= i < |reviews| :: "sentiment" in reviews[i]
    ensures |column| == |reviews|
  {
    seq(|reviews|, i requires 0 <= i < |reviews| => reviews[i]["sentiment"])
  }

  /** After a loop that raised nothing, a row is "positive" exactly when the classifier says so of its body. */
  lemma LabelledColumnIsClassification(original: seq<Review>, reviews: seq<Review>, compound: string -> real, i: nat)
    requires |original| == |reviews|
    requires forall j | 0 <= j < |reviews| :: Labelled(original[j], Classifier(compound)) == Ok(reviews[j])
    requires i < |reviews|
    ensures "sentiment" in reviews[i] && "body" in original[i]
    ensures forall j | 0 <= j < |reviews| :: "sentiment" in reviews[j]
    ensures SentimentColumn(reviews)[i] == "positive" <==>
            SentimentAnalysis(original[i]["body"], compound) == Ok(Positive)
  {
    assert Labelled(original[i], Classifier(compound)) == Ok(reviews[i]);
    forall j | 0 <= j < |reviews| ensures "sentiment" in reviews[j] {
      assert Labelled(original[j], Classifier(compound)) == Ok(reviews[j]);
      LabelledSetsOnlySentiment(original[j], Classifier(compound));
    }
    LabelledSetsOnlySentiment(original[i], Classifier(compound));
    assert Classifier(compound)(original[i]["body"]) == SentimentAnalysis(original[i]["body"], compound);
  }

  // ---------------------------------------------------------------------------
  // Line 39: reviews_df[reviews_df['sentiment'] == "positive"]
  // ---------------------------------------------------------------------------

  /** The rows among the first n that a boolean mask selects, in row order. */
  function Selected(mask: seq<bool>, n: nat): (rows: seq<nat>)
    requires n <= |mask|
    ensures |rows| <= n
    ensures forall k | 0 <= k < |rows| :: rows[k] < n
  {
    if n == 0 then []
    else
      var rows := Selected(mask, n - 1);
      if mask[n - 1] then rows + [n - 1] else rows
  }

  /** Boolean indexing keeps exactly the rows the mask marks, in row order, each once. */
  lemma {:induction false} SelectedKeepsMarkedRows(mask: seq<bool>, n: nat)
    requires n <= |mask|
    ensures forall i | 0 <= i < n :: i in Selected(mask, n) <==> mask[i]
    ensures forall j, k | 0 <= j < k < |Selected(mask, n)| :: Selected(mask, n)[j] < Selected(mask, n)[k]
  {
    if n > 0 {
      SelectedKeepsMarkedRows(mask, n - 1);
      var before := Selected(mask, n - 1);
      if mask[n - 1] {
        var now := before + [n - 1];
        assert Selected(mask, n) == now;
        forall j, k | 0 <= j < k < |now| ensures now[j] < now[k] {
          assert now[j] == before[j];
        }
      }
    }
  }

  /** `reviews_df['sentiment'] == "positive"`. */
  function PositiveMask(sentiment: seq<string>): (mask: seq<bool>)
    ensures |mask| == |sentiment|
    ensures forall i | 0 <= i < |sentiment| :: mask[i] <==> sentiment[i] == "positive"
  {
    seq(|sentiment|, i requires 0 <= i < |sentiment| => sentiment[i] == "positive")
  }

  /** The rows of `positive_reviews`. */
  function PositiveRows(sentiment: seq<string>): (rows: seq<nat>)
    ensures forall k | 0 <= k < |rows| :: rows[k] < |sentiment|
  {
    Selected(PositiveMask(sentiment), |sentiment|)
  }

  /** `positive_reviews` holds exactly the rows labelled "positive", in their order. */
  lemma PositiveRowsArePositive(sentiment: seq<string>)
    ensures forall i | 0 <= i < |sentiment| :: i in PositiveRows(sentiment) <==> sentiment[i] == "positive"
    ensures forall j, k | 0 <= j < k < |PositiveRows(sentiment)| ::
              PositiveRows(sentiment)[j] < PositiveRows(sentiment)[k]
  {
    SelectedKeepsMarkedRows(PositiveMask(sentiment), |sentiment|);
  }

  /** The rows the complementary mask selects. */
  function Complement(mask: seq<bool>): (inverse: seq<bool>)
    ensures |inverse| == |mask|
    ensures forall i | 0 <= i < |mask| :: inverse[i] != mask[i]
  {
    seq(|mask|, i requires 0 <= i < |mask| => !mask[i])
  }

  /** A mask and its complement share the rows out between them. */
  lemma {:induction false} SelectedPartition(mask: seq<bool>, n: nat)
    requires n <= |mask|
    ensures |Selected(mask, n)| + |Selected(Complement(mask), n)| == n
  {
    if n > 0 {
      SelectedPartition(mask, n - 1);
      var inverse := Complement(mask);
      assert inverse[n - 1] == !mask[n - 1];
      if mask[n - 1] {
        assert Selected(mask, n) == Selected(mask, n - 1) + [n - 1];
        assert Selected(inverse, n) == Selected(inverse, n - 1);
      } else {
        assert Selected(mask, n) == Selected(mask, n - 1);
        assert Selected(inverse, n) == Selected(inverse, n - 1) + [n - 1];
      }
    }
  }

  // ---------------------------------------------------------------------------
  // Line 40: positive_reviews['attribute'].value_counts()
  // ---------------------------------------------------------------------------

  /** The values of a column at the given rows. */
  function Pick(column: seq<string>, rows: seq<nat>): (values: seq<string>)
    requires forall k | 0 <= k < |rows| :: rows[k] < |column|
    ensures |values| == |rows|
    ensures forall k | 0 <= k < |rows| :: values[k] == column[rows[k]]
  {
    seq(|rows|, k requires 0 <= k < |rows| => column[rows[k]])
  }

  /** `positive_reviews['attribute']`. */
  function PositiveAttributes(sentiment: seq<string>, attribute: seq<string>): (values: seq<string>)
    requires |sentiment| == |attribute|
    ensures |values| == |PositiveRows(sentiment)|
  {
    Pick(attribute, PositiveRows(sentiment))
  }

  /** `attribute_freq`: how often each attribute occurs among the positive reviews. */
  function AttributeFrequency(sentiment: seq<string>, attribute: seq<string>): (freq: Table)
    requires |sentiment| == |attribute|
    ensures NonIncreasing(freq)
    ensures NoDuplicates(Keys(freq))
  {
    ValueCounts(PositiveAttributes(sentiment, attribute))
  }

  /** The mask of the positive rows whose attribute is `a`. */
  function PositiveWith(sentiment: seq<string>, attribute: seq<string>, a: string): (mask: seq<bool>)
    requires |sentiment| == |attribute|
    ensures |mask| == |sentiment|
    ensures forall i | 0 <= i < |sentiment| :: mask[i] <==> sentiment[i] == "positive" && attribute[i] == a
  {
    seq(|sentiment|, i requires 0 <= i < |sentiment| => sentiment[i] == "positive" && attribute[i] == a)
  }

  /**
   * Among the first n rows, the rows `selection` keeps whose value is `a`
   * are as many as the occurrences of `a` among the values picked from the
   * rows `mask` keeps, when `selection` is `mask` narrowed to value `a`.
   */
  lemma {:induction false} OccurrencesAreSelectedRows(
    mask: seq<bool>, selection: seq<bool>, column: seq<string>, a: string, n: nat)
    requires |mask| == |selection| == |column| && n <= |mask|
    requires forall i | 0 <= i < |mask| :: selection[i] == (mask[i] && column[i] == a)
    ensures multiset(Pick(column, Selected(mask, n)))[a] == |Selected(selection, n)|
  {
    if n > 0 {
      OccurrencesAreSelectedRows(mask, selection, column, a, n - 1);
      var before, now := Selected(mask, n - 1), Selected(mask, n);
      assert |Selected(selection, n)| == |Selected(selection, n - 1)| + (if selection[n - 1] then 1 else 0);
      if mask[n - 1] {
        assert now == before + [n - 1];
        PickAppend(column, before, n - 1);
        assert multiset{column[n - 1]}[a] == if column[n - 1] == a then 1 else 0;
      } else {
        assert now == before;
      }
    }
  }

  /** Picking one more row adds its value to the picked values. */
  lemma PickAppend(column: seq<string>, rows: seq<nat>, i: nat)
    requires forall k | 0 <= k < |rows| :: rows[k] < |column|
    requires i < |column|
    ensures multiset(Pick(column, rows + [i])) == multiset(Pick(column, rows)) + multiset{column[i]}
  {
    assert Pick(column, rows + [i]) == Pick(column, rows) + [column[i]];
  }

  /**
   * The frequency table speaks of the positive reviews and nothing else:
   * its keys are exactly their attributes, and each count is the number of
   * positive reviews with that attribute.
   */
  lemma AttributeFrequencyCounts(sentiment: seq<string>, attribute: seq<string>)
    requires |sentiment| == |attribute|
    ensures forall a :: a in Keys(AttributeFrequency(sentiment, attribute)) <==>
              exists i | 0 <= i < |sentiment| :: sentiment[i] == "positive" && attribute[i] == a
    ensures forall k | 0 <= k < |AttributeFrequency(sentiment, attribute)| ::
              var (a, count) := AttributeFrequency(sentiment, attribute)[k];
              count == |Selected(PositiveWith(sentiment, attribute, a), |sentiment|)|
  {
    var values := PositiveAttributes(sentiment, attribute);
    var rows := PositiveRows(sentiment);
    PositiveRowsArePositive(sentiment);
    forall a ensures a in values <==>
                     exists i | 0 <= i < |sentiment| :: sentiment[i] == "positive" && attribute[i] == a
    {
      if a in values {
        var k :| 0 <= k < |values| && values[k] == a;
        assert sentiment[rows[k]] == "positive" && attribute[rows[k]] == a;
      }
      if exists i | 0 <= i < |sentiment| :: sentiment[i] == "positive" && attribute[i] == a {
        var i :| 0 <= i < |sentiment| && sentiment[i] == "positive" && attribute[i] == a;
        var k :| 0 <= k < |rows| && rows[k] == i;
        assert values[k] == a;
      }
    }
    forall a ensures multiset(values)[a] == |Selected(PositiveWith(sentiment, attribute, a), |sentiment|)| {
      OccurrencesAreSelectedRows(PositiveMask(sentiment), PositiveWith(sentiment, attribute, a), attribute, a, |sentiment|);
    }
  }

  // ---------------------------------------------------------------------------
  // Lines 45-46: Successes and Fails
  // ---------------------------------------------------------------------------

  /** The two numbers the summary prints. */
  datatype Summary = Summary(successes: nat, fails: int)

  /** `len(positive_reviews)` and `len(reviews_df) - len(positive_reviews)`. */
  function Summarize(sentiment: seq<string>): (r: Summary)
    ensures r.successes + r.fails == |sentiment|
    ensures r.fails == |Selected(Complement(PositiveMask(sentiment)), |sentiment|)|
    ensures r.fails >= 0
  {
    SelectedPartition(PositiveMask(sentiment), |sentiment|);
    var successes := |PositiveRows(sentiment)|;
    Summary(successes, |sentiment| - successes)
  }

  /** The counts in the frequency table add up to the number of successes. */
  lemma FrequencyTotalIsSuccesses(sentiment: seq<string>, attribute: seq<string>)
    requires |sentiment| == |attribute|
    ensures Total(AttributeFrequency(sentiment, attribute)) == Summarize(sentiment).successes
  {
    ValueCountsTotal(PositiveAttributes(sentiment, attribute));
  }
}
