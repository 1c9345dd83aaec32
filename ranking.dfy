/**
 * The results table after multiple-testing correction: its order by
 * (q_value, p_value), the three ways of choosing which volcano points get a
 * label, and the features chosen for boxplots.
 */
module Ranking {
  import opened Stats
  import Seqs

  /** A row of the results table once its q_value column is filled in. */
  datatype ResultRow = ResultRow(feature: string, mean1: real, mean2: real, log2fc: real, pValue: real, qValue: real)

  /** The q-value column added to the records: the k-th record gets the k-th q-value. */
  function WithQ(stats: seq<FeatureStats>, qs: seq<real>): (rows: seq<ResultRow>)
    requires |qs| == |stats|
    ensures |rows| == |stats|
    ensures forall k :: 0 <= k < |stats| ==>
      rows[k] == ResultRow(stats[k].feature, stats[k].mean1, stats[k].mean2, stats[k].log2fc, stats[k].pValue, qs[k])
  {
    seq(|stats|, k requires 0 <= k < |stats| =>
      ResultRow(stats[k].feature, stats[k].mean1, stats[k].mean2, stats[k].log2fc, stats[k].pValue, qs[k]))
  }

  /** The sort keys the analysis uses: q_value alone (nsmallest) and (q_value, p_value) (sort_values). */
  datatype SortKey = ByQ | ByQThenP

  /** Row a may come before row b in ascending order of the key. */
  predicate Le(key: SortKey, a: ResultRow, b: ResultRow)
  {
    match key
    case ByQ => a.qValue <= b.qValue
    case ByQThenP => a.qValue < b.qValue || (a.qValue == b.qValue && a.pValue <= b.pValue)
  }

  lemma LeTotal(key: SortKey, a: ResultRow, b: ResultRow)
    ensures Le(key, a, b) || Le(key, b, a)
  {
  }

  lemma LeTransitive(key: SortKey, a: ResultRow, b: ResultRow, c: ResultRow)
    requires Le(key, a, b) && Le(key, b, c)
    ensures Le(key, a, c)
  {
  }

  ghost predicate Sorted(key: SortKey, s: seq<ResultRow>)
  {
    forall i, j :: 0 <= i < j < |s| ==> Le(key, s[i], s[j])
  }

  /** Ordered by (q, p) is in particular ordered by q. */
  lemma SortedByQThenPIsSortedByQ(s: seq<ResultRow>)
    requires Sorted(ByQThenP, s)
    ensures Sorted(ByQ, s)
  {
    forall i, j | 0 <= i < j < |s| ensures Le(ByQ, s[i], s[j]) {
      assert Le(ByQThenP, s[i], s[j]);
    }
  }

  /** Places x before the first row it may precede, so rows with equal keys keep their order. */
  function Insert(key: SortKey, x: ResultRow, s: seq<ResultRow>): (r: seq<ResultRow>)
    ensures |r| == |s| + 1
    ensures forall y :: y in r <==> y == x || y in s
    ensures multiset(r) == multiset(s) + multiset{x}
  {
    if s == [] then [x]
    else if Le(key, x, s[0]) then [x] + s
    else
      assert s == [s[0]] + s[1..];
      [s[0]] + Insert(key, x, s[1..])
  }

  /** A row that may precede every row of a sorted sequence extends it at the front. */
  lemma ConsSorted(key: SortKey, h: ResultRow, t: seq<ResultRow>)
    requires Sorted(key, t)
    requires forall y :: y in t ==> Le(key, h, y)
    ensures Sorted(key, [h] + t)
  {
    var r := [h] + t;
    forall i, j | 0 <= i < j < |r| ensures Le(key, r[i], r[j]) {
      if i == 0 {
        assert r[j] == t[j - 1] && t[j - 1] in t;
      } else {
        assert r[i] == t[i - 1] && r[j] == t[j - 1];
      }
    }
  }

  /** The head of a sorted sequence may precede each row of its tail, and the tail is sorted. */
  lemma HeadBelowTail(key: SortKey, s: seq<ResultRow>)
    requires Sorted(key, s) && |s| > 0
    ensures forall y :: y in s[1..] ==> Le(key, s[0], y)
    ensures Sorted(key, s[1..])
  {
    forall y | y in s[1..] ensures Le(key, s[0], y) {
      var j :| 0 <= j < |s[1..]| && s[1..][j] == y;
      assert s[j + 1] == y;
    }
    var t := s[1..];
    forall i, j | 0 <= i < j < |t| ensures Le(key, t[i], t[j]) {
      assert t[i] == s[i + 1] && t[j] == s[j + 1];
    }
  }

  /** Inserting into a sorted sequence keeps it sorted. */
  lemma {:induction false} InsertKeepsSorted(key: SortKey, x: ResultRow, s: seq<ResultRow>)
    requires Sorted(key, s)
    ensures Sorted(key, Insert(key, x, s))
  {
    if s == [] {
    } else {
      HeadBelowTail(key, s);
      assert s == [s[0]] + s[1..];
      if Le(key, x, s[0]) {
        forall y | y in s ensures Le(key, x, y) {
          if y != s[0] {
            LeTransitive(key, x, s[0], y);
          }
        }
        ConsSorted(key, x, s);
      } else {
        var rest := Insert(key, x, s[1..]);
        InsertKeepsSorted(key, x, s[1..]);
        LeTotal(key, x, s[0]);
        ConsSorted(key, s[0], rest);
      }
    }
  }

  /** A stable ascending sort by the key. */
  function SortBy(key: SortKey, s: seq<ResultRow>): (r: seq<ResultRow>)
    ensures Sorted(key, r)
    ensures multiset(r) == multiset(s)
    ensures |r| == |s|
  {
    if s == [] then []
    else
      assert s == [s[0]] + s[1..];
      InsertKeepsSorted(key, s[0], SortBy(key, s[1..]));
      Insert(key, s[0], SortBy(key, s[1..]))
  }

  /** A row that may precede everything in a sorted sequence is inserted at its front. */
  lemma InsertAtFront(key: SortKey, x: ResultRow, s: seq<ResultRow>)
    requires Sorted(key, s)
    requires forall j :: 0 <= j < |s| ==> Le(key, x, s[j])
    ensures Insert(key, x, s) == [x] + s
  {
  }

  /** Sorting an already sorted table leaves it unchanged. */
  lemma {:induction false} SortBySorted(key: SortKey, s: seq<ResultRow>)
    requires Sorted(key, s)
    ensures SortBy(key, s) == s
  {
    if s != [] {
      assert Sorted(key, s[1..]);
      SortBySorted(key, s[1..]);
      InsertAtFront(key, s[0], s[1..]);
    }
  }

  /** The results table sorted ascending by q-value, ties broken by p-value. */
  function SortResults(rows: seq<ResultRow>): (r: seq<ResultRow>)
    ensures Sorted(ByQThenP, r)
    ensures multiset(r) == multiset(rows)
    ensures |r| == |rows|
  {
    SortBy(ByQThenP, rows)
  }

  /** How many rows head(n) and nsmallest(n) return: none for n <= 0, at most all of them. */
  function Count(n: int, size: nat): (c: nat)
    ensures c <= size
    ensures n <= 0 ==> c == 0
    ensures 0 <= n <= size ==> c == n
    ensures n >= size ==> c == size
  {
    if n <= 0 then 0 else if n < size then n else size
  }

  /** The n rows with the smallest q-value, ties in table order. */
  function NSmallest(rows: seq<ResultRow>, n: int): (r: seq<ResultRow>)
    ensures |r| == Count(n, |rows|)
    ensures Sorted(ByQ, r)
    ensures multiset(r) <= multiset(rows)
  {
    var sorted := SortBy(ByQ, rows);
    var c := Count(n, |rows|);
    assert sorted == sorted[..c] + sorted[c..];
    sorted[..c]
  }

  /** In a sequence sorted by q, the first c rows have q-values no larger than the rest. */
  lemma PrefixBelowSuffix(s: seq<ResultRow>, c: nat)
    requires Sorted(ByQ, s) && c <= |s|
    ensures forall x, y :: x in s[..c] && y in s[c..] ==> x.qValue <= y.qValue
  {
    forall x, y | x in s[..c] && y in s[c..] ensures x.qValue <= y.qValue {
      var i :| 0 <= i < c && s[i] == x;
      var j :| 0 <= j < |s| - c && s[c..][j] == y;
      assert Le(ByQ, s[i], s[c + j]);
    }
  }

  /** If rows is a reordering of r + rest and r lies below rest, r lies below what rows has beyond r. */
  lemma SplitBelow(rows: seq<ResultRow>, r: seq<ResultRow>, rest: seq<ResultRow>)
    requires multiset(rows) == multiset(r + rest)
    requires forall x, y :: x in r && y in rest ==> x.qValue <= y.qValue
    ensures forall x, y :: x in r && y in multiset(rows) - multiset(r) ==> x.qValue <= y.qValue
  {
    assert multiset(rows) - multiset(r) == multiset(rest);
    forall x, y | x in r && y in multiset(rows) - multiset(r) ensures x.qValue <= y.qValue {
      assert y in multiset(rest);
    }
  }

  /** Every row nsmallest selects has a q-value no larger than any row it leaves out. */
  lemma NSmallestSelectsSmallest(rows: seq<ResultRow>, n: int)
    ensures forall x, y :: x in NSmallest(rows, n) && y in multiset(rows) - multiset(NSmallest(rows, n)) ==>
      x.qValue <= y.qValue
  {
    var sorted := SortBy(ByQ, rows);
    var c := Count(n, |rows|);
    assert NSmallest(rows, n) == sorted[..c];
    assert sorted == sorted[..c] + sorted[c..];
    PrefixBelowSuffix(sorted, c);
    SplitBelow(rows, sorted[..c], sorted[c..]);
  }

  /** On the table sorted by (q, p), nsmallest is its first rows. */
  lemma NSmallestOfSortedTable(rows: seq<ResultRow>, n: int)
    requires Sorted(ByQThenP, rows)
    ensures NSmallest(rows, n) == rows[..Count(n, |rows|)]
  {
    SortedByQThenPIsSortedByQ(rows);
    SortBySorted(ByQ, rows);
  }

  /** The settings of threshold mode. */
  datatype Thresholds = Thresholds(useQ: bool, pThresh: real, qThresh: real, fcThresh: real)

  function Abs(x: real): real
  {
    if x < 0.0 then -x else x
  }

  /** (q < q_thresh or, without --use_q, p < p_thresh) and |log2FC| > fc_thresh, all strict. */
  function Significant(t: Thresholds): ResultRow -> bool
  {
    (row: ResultRow) =>
      (if t.useQ then row.qValue < t.qThresh else row.pValue < t.pThresh) && Abs(row.log2fc) > t.fcThresh
  }

  /** The boolean-mask selection of threshold mode, in table order. */
  function ThresholdSelect(rows: seq<ResultRow>, t: Thresholds): (r: seq<ResultRow>)
    ensures forall x :: x in r <==>
      x in rows && (if t.useQ then x.qValue < t.qThresh else x.pValue < t.pThresh) && Abs(x.log2fc) > t.fcThresh
    ensures forall x :: multiset(r)[x] == if Significant(t)(x) then multiset(rows)[x] else 0
    ensures Seqs.IsSubsequence(r, rows)
  {
    Seqs.Filter(rows, Significant(t))
  }

  /** --label_mode: its three choices. */
  datatype LabelMode = Top | Threshold | NoLabels

  /**
   * The rows whose features are named on the volcano plot: the topN rows
   * of smallest q-value, the rows passing the significance thresholds,
   * or none.
   */
  function Labels(rows: seq<ResultRow>, mode: LabelMode, topN: int, t: Thresholds): (r: seq<ResultRow>)
    ensures mode == NoLabels ==> r == []
    ensures mode == Top ==> r == NSmallest(rows, topN)
    ensures mode == Threshold ==> r == ThresholdSelect(rows, t)
    ensures mode == Top ==> |r| == Count(topN, |rows|)
    ensures multiset(r) <= multiset(rows)
  {
    match mode
    case Top => NSmallest(rows, topN)
    case Threshold =>
      var r := ThresholdSelect(rows, t);
      assert forall x :: multiset(r)[x] <= multiset(rows)[x];
      r
    case NoLabels => []
  }

  /** The features of the first three rows of the ranked table: those that get a boxplot. */
  function TopFeatures(rows: seq<ResultRow>): (fs: seq<string>)
    ensures |fs| == Count(3, |rows|)
    ensures forall k :: 0 <= k < |fs| ==> fs[k] == rows[k].feature
    ensures Sorted(ByQThenP, rows) ==>
      forall i, j :: 0 <= i < |fs| <= j < |rows| ==> rows[i].qValue <= rows[j].qValue
  {
    var c := Count(3, |rows|);
    assert Sorted(ByQThenP, rows) ==> forall i, j :: 0 <= i < c <= j < |rows| ==> Le(ByQThenP, rows[i], rows[j]);
    seq(c, k requires 0 <= k < c => rows[k].feature)
  }
}
