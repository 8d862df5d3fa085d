/**
 * pandas' `Series.value_counts()` on a column of strings (review_analysis.py,
 * line 40): one entry per distinct value, holding the number of times the
 * value occurs, the entries ordered by non-increasing count.
 *
 * The table is built in three steps: the distinct values in order of first
 * appearance, the count of each, and a stable insertion sort on the count,
 * largest first.  Only the order by count is promised; how ties are ordered
 * is pandas' business and no property below depends on it.
 */
module Frequency {

  /** A frequency table: (value, count) entries. */
  type Table = seq<(string, nat)>

  /** No value occurs twice. */
  predicate NoDuplicates(s: seq<string>) {
    forall i, j | 0 <= i < j < |s| :: s[i] != s[j]
  }

  /** The values (the index) of a table. */
  function Keys(t: Table): (ks: seq<string>)
    ensures |ks| == |t|
    ensures forall i | 0 <= i < |t| :: ks[i] == t[i].0
  {
    seq(|t|, i requires 0 <= i < |t| => t[i].0)
  }

  /** The sum of a table's counts. */
  function Total(t: Table): nat {
    if t == [] then 0 else t[0].1 + Total(t[1..])
  }

  /** Counts never increase from one entry to a later one. */
  predicate NonIncreasing(t: Table) {
    forall i, j | 0 <= i < j < |t| :: t[i].1 >= t[j].1
  }

  /** The distinct values of `xs`, each once, in order of first appearance. */
  function Distinct(xs: seq<string>): (d: seq<string>)
    ensures NoDuplicates(d)
    ensures forall x :: x in d <==> x in xs
  {
    if xs == [] then []
    else
      var d := Distinct(xs[..|xs| - 1]);
      assert forall x :: x in xs <==> x in xs[..|xs| - 1] || x == xs[|xs| - 1];
      if xs[|xs| - 1] in d then d else d + [xs[|xs| - 1]]
  }

  /** Each value of `d` with the number of its occurrences in `occurrences`. */
  function Tally(d: seq<string>, occurrences: multiset<string>): (t: Table)
    ensures |t| == |d|
    ensures forall i | 0 <= i < |t| :: t[i] == (d[i], occurrences[d[i]])
  {
    if d == [] then [] else [(d[0], occurrences[d[0]])] + Tally(d[1..], occurrences)
  }

  /** Puts `p` in front of the first entry whose count is not above its own. */
  function Insert(p: (string, nat), t: Table): (r: Table)
    ensures multiset(r) == multiset(t) + multiset{p}
  {
    if t == [] || t[0].1 <= p.1 then [p] + t
    else
      assert t == [t[0]] + t[1..];
      [t[0]] + Insert(p, t[1..])
  }

  /** Sorts a table by count, largest first, keeping equal counts in their order. */
  function SortByCount(t: Table): (r: Table)
    ensures multiset(r) == multiset(t)
  {
    if t == [] then []
    else
      assert t == [t[0]] + t[1..];
      Insert(t[0], SortByCount(t[1..]))
  }

  /** Inserting into a table ordered by count keeps it ordered. */
  lemma {:induction false} InsertKeepsOrder(p: (string, nat), t: Table)
    requires NonIncreasing(t)
    ensures NonIncreasing(Insert(p, t))
  {
    if t != [] && t[0].1 > p.1 {
      var rest := Insert(p, t[1..]);
      InsertKeepsOrder(p, t[1..]);
      assert rest[0] == p || rest[0] == t[1];
      var r := [t[0]] + rest;
      forall i, j | 0 <= i < j < |r| ensures r[i].1 >= r[j].1 {
        assert r[j] == rest[j - 1];
        if i > 0 {
          assert r[i] == rest[i - 1];
        } else {
          assert rest[0].1 >= rest[j - 1].1;
        }
      }
    }
  }

  /** The sort orders the table by non-increasing count. */
  lemma {:induction false} SortByCountOrders(t: Table)
    ensures NonIncreasing(SortByCount(t))
  {
    if t != [] {
      SortByCountOrders(t[1..]);
      InsertKeepsOrder(t[0], SortByCount(t[1..]));
    }
  }

  /** Inserting an entry adds its count to the total. */
  lemma {:induction false} InsertAddsCount(p: (string, nat), t: Table)
    ensures Total(Insert(p, t)) == p.1 + Total(t)
  {
    if t != [] && t[0].1 > p.1 {
      InsertAddsCount(p, t[1..]);
      assert ([t[0]] + Insert(p, t[1..]))[1..] == Insert(p, t[1..]);
    } else {
      assert ([p] + t)[1..] == t;
    }
  }

  /** Sorting keeps the total. */
  lemma {:induction false} SortKeepsTotal(t: Table)
    ensures Total(SortByCount(t)) == Total(t)
  {
    if t != [] {
      SortKeepsTotal(t[1..]);
      InsertAddsCount(t[0], SortByCount(t[1..]));
    }
  }

  /** Tables holding the same entries have the same keys. */
  lemma KeysOfPermutation(t: Table, u: Table, x: string)
    requires multiset(t) == multiset(u)
    ensures x in Keys(t) <==> x in Keys(u)
  {
    if x in Keys(t) {
      var i :| 0 <= i < |t| && Keys(t)[i] == x;
      assert t[i] in multiset(u);
      var j :| 0 <= j < |u| && u[j] == t[i];
      assert Keys(u)[j] == x;
    }
    if x in Keys(u) {
      var j :| 0 <= j < |u| && Keys(u)[j] == x;
      assert u[j] in multiset(t);
      var i :| 0 <= i < |t| && t[i] == u[j];
      assert Keys(t)[i] == x;
    }
  }

  /** Inserting an entry whose value is new keeps the keys distinct. */
  lemma {:induction false} InsertKeepsKeysDistinct(p: (string, nat), t: Table)
    requires NoDuplicates(Keys(t)) && p.0 !in Keys(t)
    ensures NoDuplicates(Keys(Insert(p, t)))
  {
    if t == [] || t[0].1 <= p.1 {
      var r := [p] + t;
      forall i, j | 0 <= i < j < |r| ensures r[i].0 != r[j].0 {
        assert r[j] == t[j - 1] && Keys(t)[j - 1] == r[j].0;
        if i > 0 {
          assert r[i] == t[i - 1];
          assert Keys(t)[i - 1] == r[i].0;
        }
      }
    } else {
      var rest := Insert(p, t[1..]);
      assert NoDuplicates(Keys(t[1..])) by {
        forall i, j | 0 <= i < j < |t| - 1 ensures t[1..][i].0 != t[1..][j].0 {
          assert Keys(t)[i + 1] != Keys(t)[j + 1];
        }
      }
      forall i | 0 <= i < |t| - 1 ensures Keys(t[1..])[i] != p.0 {
        assert Keys(t[1..])[i] == Keys(t)[i + 1];
      }
      InsertKeepsKeysDistinct(p, t[1..]);
      assert t[0].0 !in Keys(rest) by {
        KeysOfPermutation(rest, t[1..] + [p], t[0].0);
        forall i | 0 <= i < |t| ensures Keys(t[1..] + [p])[i] != t[0].0 {
          if i < |t| - 1 {
            assert Keys(t[1..] + [p])[i] == Keys(t)[i + 1];
          } else {
            assert Keys(t)[0] == t[0].0;
          }
        }
      }
      var r := [t[0]] + rest;
      forall i, j | 0 <= i < j < |r| ensures r[i].0 != r[j].0 {
        assert r[j] == rest[j - 1] && Keys(rest)[j - 1] == r[j].0;
        if i > 0 {
          assert r[i] == rest[i - 1];
          assert Keys(rest)[i - 1] == r[i].0;
        }
      }
    }
  }

  /** Sorting a table whose keys are distinct leaves them distinct. */
  lemma {:induction false} SortKeepsKeysDistinct(t: Table)
    requires NoDuplicates(Keys(t))
    ensures NoDuplicates(Keys(SortByCount(t)))
  {
    if t != [] {
      assert NoDuplicates(Keys(t[1..])) by {
        forall i, j | 0 <= i < j < |t| - 1 ensures t[1..][i].0 != t[1..][j].0 {
          assert Keys(t)[i + 1] != Keys(t)[j + 1];
        }
      }
      SortKeepsKeysDistinct(t[1..]);
      var sorted := SortByCount(t[1..]);
      assert t[0].0 !in Keys(sorted) by {
        KeysOfPermutation(sorted, t[1..], t[0].0);
        forall i | 0 <= i < |t| - 1 ensures Keys(t[1..])[i] != t[0].0 {
          assert Keys(t[1..])[i] == Keys(t)[i + 1];
          assert Keys(t)[0] == t[0].0;
        }
      }
      InsertKeepsKeysDistinct(t[0], sorted);
    }
  }

  /** `value_counts()`. */
  function ValueCounts(xs: seq<string>): (r: Table)
    ensures NonIncreasing(r)
    ensures NoDuplicates(Keys(r))
    ensures forall x :: x in Keys(r) <==> x in xs
    ensures forall i | 0 <= i < |r| :: r[i].1 == multiset(xs)[r[i].0] > 0
  {
    var d := Distinct(xs);
    var t := Tally(d, multiset(xs));
    var r := SortByCount(t);
    SortByCountOrders(t);
    assert Keys(t) == d;
    SortKeepsKeysDistinct(t);
    forall x ensures x in Keys(r) <==> x in xs {
      KeysOfPermutation(r, t, x);
    }
    forall i | 0 <= i < |r| ensures r[i].1 == multiset(xs)[r[i].0] > 0 {
      assert r[i] in multiset(t);
      var k :| 0 <= k < |t| && t[k] == r[i];
      assert d[k] in xs;
    }
    r
  }

  // ---------------------------------------------------------------------------
  // The counts add up to the length of the column
  // ---------------------------------------------------------------------------

  /** One more occurrence of `x` adds one to the total exactly when `x` is tallied. */
  lemma {:induction false} TallyTotalAddOne(d: seq<string>, occurrences: multiset<string>, x: string)
    requires NoDuplicates(d)
    ensures Total(Tally(d, occurrences + multiset{x})) ==
            Total(Tally(d, occurrences)) + (if x in d then 1 else 0)
  {
    if d != [] {
      var more := occurrences + multiset{x};
      assert NoDuplicates(d[1..]) by {
        forall i, j | 0 <= i < j < |d| - 1 ensures d[1..][i] != d[1..][j] {
          assert d[i + 1] != d[j + 1];
        }
      }
      TallyTotalAddOne(d[1..], occurrences, x);
      forall j | 0 <= j < |d| - 1 ensures d[1..][j] != d[0] {
        assert d[1..][j] == d[j + 1];
      }
      assert x in d <==> x == d[0] || x in d[1..] by {
        assert d == [d[0]] + d[1..];
      }
      assert Total(Tally(d, more)) == more[d[0]] + Total(Tally(d[1..], more));
      assert Total(Tally(d, occurrences)) == occurrences[d[0]] + Total(Tally(d[1..], occurrences));
    }
  }

  /** Tallying one more value adds that value's count to the total. */
  lemma {:induction false} TallyTotalAppend(d: seq<string>, y: string, occurrences: multiset<string>)
    ensures Total(Tally(d + [y], occurrences)) == Total(Tally(d, occurrences)) + occurrences[y]
  {
    if d != [] {
      assert (d + [y])[1..] == d[1..] + [y];
      TallyTotalAppend(d[1..], y, occurrences);
    }
  }

  /** Tallying the distinct values of a column counts every row once. */
  lemma {:induction false} TallyTotalIsLength(xs: seq<string>)
    ensures Total(Tally(Distinct(xs), multiset(xs))) == |xs|
  {
    if xs != [] {
      var front, x := xs[..|xs| - 1], xs[|xs| - 1];
      assert xs == front + [x];
      TallyTotalIsLength(front);
      var d := Distinct(front);
      TallyTotalAddOne(d, multiset(front), x);
      if x !in d {
        TallyTotalAppend(d, x, multiset(xs));
        assert multiset(front)[x] == 0;
      }
    }
  }

  /** The counts of `value_counts()` add up to the length of the column. */
  lemma ValueCountsTotal(xs: seq<string>)
    ensures Total(ValueCounts(xs)) == |xs|
  {
    var t := Tally(Distinct(xs), multiset(xs));
    TallyTotalIsLength(xs);
    SortKeepsTotal(t);
  }

  /** A column without rows gives an empty table. */
  lemma ValueCountsOfNothing()
    ensures ValueCounts([]) == []
  {
  }
}


