/**
 * `delight_attribute` of util/topics.py: every review row gets, as its
 * "delight attribute", the top keyword of the last topic whose documents
 * include that row, or "" when no topic includes it.
 *
 * The clustering model is not modelled; what the function asks of it is
 * given as plain data in a `TopicModel`.  The review frame is reduced to its
 * number of rows: the function reads nothing else of it, and the only column
 * it writes is "attribute", which line 12 creates afresh.
 */
module Topics {

  /**
   * What the trained topic model answers: `get_topic_sizes()` gives the
   * sizes and the topic numbers, `get_topics()` the ranked keywords and their
   * scores, and `search_documents_by_topic(n, k)` the first k entries of the
   * ranked document ids (and scores) of topic n.
   */
  datatype TopicModel = TopicModel(
    topicSizes: seq<nat>,
    topicNums: seq<nat>,
    topicWords: seq<seq<string>>,
    wordScores: seq<seq<real>>,
    documentIds: seq<seq<nat>>,
    documentScores: seq<seq<real>>)

  /** The number of loop rounds: `len(topic_nums)`. */
  function TopicCount(m: TopicModel): nat { |m.topicNums| }

  /**
   * What every round of the loop relies on: topic n has a size, a non-empty
   * keyword list and at least as many ranked documents as its size, and
   * every document id it returns labels a row of the frame (`.loc` with an
   * unknown label raises KeyError).
   */
  predicate Queryable(m: TopicModel, rows: nat) {
    && |m.topicSizes| >= TopicCount(m)
    && |m.topicWords| >= TopicCount(m)
    && |m.documentIds| >= TopicCount(m)
    && forall n | 0 <= n < TopicCount(m) ::
         && m.topicWords[n] != []
         && m.topicSizes[n] <= |m.documentIds[n]|
         && forall id | id in m.documentIds[n][..m.topicSizes[n]] :: id < rows
  }

  /** `search_documents_by_topic(topic_num=n, num_docs=topic_sizes[n])`'s document ids. */
  function TopicDocuments(m: TopicModel, rows: nat, n: nat): (ids: seq<nat>)
    requires Queryable(m, rows) && n < TopicCount(m)
    ensures |ids| == m.topicSizes[n]
    ensures forall id | id in ids :: id < rows
    ensures forall k | 0 <= k < |ids| :: ids[k] == m.documentIds[n][k]
  {
    m.documentIds[n][..m.topicSizes[n]]
  }

  /** `topic_words[n][0]`: the top-ranked keyword of topic n. */
  function TopWord(m: TopicModel, rows: nat, n: nat): string
    requires Queryable(m, rows) && n < TopicCount(m)
  {
    m.topicWords[n][0]
  }

  /** The attribute of `row` once the rounds for topics 0 .. k-1 are done. */
  function AttributeAfter(m: TopicModel, rows: nat, row: nat, k: nat): string
    requires Queryable(m, rows) && k <= TopicCount(m)
  {
    if k == 0 then ""
    else if row in TopicDocuments(m, rows, k - 1) then TopWord(m, rows, k - 1)
    else AttributeAfter(m, rows, row, k - 1)
  }

  /** The column the function returns: one attribute per row, in row order. */
  function Attributes(m: TopicModel, rows: nat): (values: seq<string>)
    requires Queryable(m, rows)
    ensures |values| == rows
  {
    seq(rows, row requires 0 <= row < rows => AttributeAfter(m, rows, row, TopicCount(m)))
  }

  /**
   * `delight_attribute`: start the column at "" and, topic by topic in index
   * order, overwrite the rows the topic returns with its top keyword.
   */
  method DelightAttribute(rows: nat, m: TopicModel) returns (values: seq<string>)
    requires Queryable(m, rows)
    ensures values == Attributes(m, rows)
  {
    var attribute := new string[rows](_ => "");
    for n := 0 to TopicCount(m)
      invariant forall row | 0 <= row < rows :: attribute[row] == AttributeAfter(m, rows, row, n)
    {
      var documentIds := TopicDocuments(m, rows, n);
      var word := TopWord(m, rows, n);
      forall row | 0 <= row < rows && row in documentIds {
        attribute[row] := word;
      }
    }
    values := attribute[..];
  }

  // ---------------------------------------------------------------------------
  // What the column holds
  // ---------------------------------------------------------------------------

  /** Whether one of topics 0 .. k-1 returns `row`. */
  predicate ListedBefore(m: TopicModel, rows: nat, row: nat, k: nat)
    requires Queryable(m, rows) && k <= TopicCount(m)
  {
    exists n | 0 <= n < k :: row in TopicDocuments(m, rows, n)
  }

  /** A row that no topic returns keeps the "" it started with; with no topics at all, every row does. */
  lemma {:induction false} UnlistedRowStaysEmpty(m: TopicModel, rows: nat, row: nat, k: nat)
    requires Queryable(m, rows) && k <= TopicCount(m)
    requires !ListedBefore(m, rows, row, k)
    ensures AttributeAfter(m, rows, row, k) == ""
  {
    if k > 0 {
      assert row !in TopicDocuments(m, rows, k - 1);
      UnlistedRowStaysEmpty(m, rows, row, k - 1);
    }
  }

  /**
   * A row that some topic returns ends up with the top keyword of the
   * highest-numbered such topic: later rounds overwrite earlier ones.
   */
  lemma {:induction false} LastListingTopicWins(m: TopicModel, rows: nat, row: nat, k: nat, n: nat)
    requires Queryable(m, rows) && n < k <= TopicCount(m)
    requires row in TopicDocuments(m, rows, n)
    requires forall n' | n < n' < k :: row !in TopicDocuments(m, rows, n')
    ensures AttributeAfter(m, rows, row, k) == m.topicWords[n][0]
  {
    if k - 1 != n {
      LastListingTopicWins(m, rows, row, k - 1, n);
    }
  }

  /** The whole column, stated without the loop: each row's value, by the topics that list it. */
  lemma AttributesByTopics(m: TopicModel, rows: nat, row: nat)
    requires Queryable(m, rows) && row < rows
    ensures !ListedBefore(m, rows, row, TopicCount(m)) ==> Attributes(m, rows)[row] == ""
    ensures forall n | 0 <= n < TopicCount(m) ::
              row in TopicDocuments(m, rows, n) &&
              (forall n' | n < n' < TopicCount(m) :: row !in TopicDocuments(m, rows, n'))
              ==> Attributes(m, rows)[row] == m.topicWords[n][0]
  {
    var k := TopicCount(m);
    if !ListedBefore(m, rows, row, k) {
      UnlistedRowStaysEmpty(m, rows, row, k);
    }
    forall n | 0 <= n < k &&
               row in TopicDocuments(m, rows, n) &&
               (forall n' | n < n' < k :: row !in TopicDocuments(m, rows, n'))
      ensures Attributes(m, rows)[row] == m.topicWords[n][0]
    {
      LastListingTopicWins(m, rows, row, k, n);
    }
  }

  /** Every value in the column is "" or the top keyword of some topic. */
  lemma {:induction false} AttributeIsEmptyOrTopWord(m: TopicModel, rows: nat, row: nat, k: nat)
    requires Queryable(m, rows) && k <= TopicCount(m)
    ensures var a := AttributeAfter(m, rows, row, k);
            a == "" || exists n | 0 <= n < k :: a == m.topicWords[n][0]
  {
    if k > 0 && row !in TopicDocuments(m, rows, k - 1) {
      AttributeIsEmptyOrTopWord(m, rows, row, k - 1);
    }
  }

  /**
   * Only the top keyword of each topic and the returned ids matter: two
   * models that differ in sizes-beyond-the-prefix, lower-ranked keywords,
   * word scores, document scores or topic numbers give the same column.
   */
  lemma {:induction false} OnlyTopWordsAndIdsMatter(m1: TopicModel, m2: TopicModel, rows: nat, row: nat, k: nat)
    requires Queryable(m1, rows) && Queryable(m2, rows)
    requires k <= TopicCount(m1) && k <= TopicCount(m2)
    requires forall n | 0 <= n < k ::
               TopicDocuments(m1, rows, n) == TopicDocuments(m2, rows, n) &&
               m1.topicWords[n][0] == m2.topicWords[n][0]
    ensures AttributeAfter(m1, rows, row, k) == AttributeAfter(m2, rows, row, k)
  {
    if k > 0 {
      OnlyTopWordsAndIdsMatter(m1, m2, rows, row, k - 1);
    }
  }
}
