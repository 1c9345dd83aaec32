/**
 * The per-feature comparison: the feature columns, the mean abundance of each
 * cohort, the fold change (mean2 + eps) / (mean1 + eps), its log2 and the
 * Mann-Whitney p-value, built feature by feature into the results rows.
 *
 * log2 and the two-sided Mann-Whitney U test are foreign
 * functions and are passed in as parameters.
 */
module Stats {
  import opened Tables
  import opened Alignment
  import Seqs

  /** The pseudocount added to both means before dividing. */
  const EPS: real := 0.000000001

  /** The feature columns: every abundance column except the sample ID, in table order. */
  function FeatureColumns(columns: seq<string>): (fs: seq<string>)
    ensures forall c :: c in fs <==> c in columns && c != SAMPLE_ID
    ensures forall c :: multiset(fs)[c] == if c == SAMPLE_ID then 0 else multiset(columns)[c]
    ensures Seqs.IsSubsequence(fs, columns)
  {
    Seqs.Filter(columns, c => c != SAMPLE_ID)
  }

  /** A table whose only column is SampleID has no feature columns. */
  lemma NoFeatureColumns(columns: seq<string>)
    requires forall c :: c in columns ==> c == SAMPLE_ID
    ensures FeatureColumns(columns) == []
  {
  }

  function Sum(xs: seq<real>): real
  {
    if xs == [] then 0.0 else xs[0] + Sum(xs[1..])
  }

  /** The arithmetic mean of a non-empty sequence. */
  function Mean(xs: seq<real>): real
    requires |xs| > 0
  {
    Sum(xs) / (|xs| as real)
  }

  lemma {:induction false} SumNonNegative(xs: seq<real>)
    requires forall k :: 0 <= k < |xs| ==> xs[k] >= 0.0
    ensures Sum(xs) >= 0.0
  {
    if xs != [] {
      SumNonNegative(xs[1..]);
    }
  }

  /** The mean of non-negative abundances is non-negative. */
  lemma MeanNonNegative(xs: seq<real>)
    requires |xs| > 0
    requires forall k :: 0 <= k < |xs| ==> xs[k] >= 0.0
    ensures Mean(xs) >= 0.0
  {
    SumNonNegative(xs);
  }

  /** A cohort's column of one feature as numbers: fails unless every cell of the cohort is a number. */
  function Column(rows: seq<Joined>, feature: string): (r: Result<seq<real>>)
    ensures r.Ok? <==> forall k :: 0 <= k < |rows| ==> Cell(rows[k].abund, feature).Number?
    ensures r.Ok? ==> |r.value| == |rows|
    ensures r.Ok? ==> forall k :: 0 <= k < |rows| ==> Cell(rows[k].abund, feature) == Number(r.value[k])
    ensures r.Err? ==> r.error == NonNumeric(feature)
  {
    if rows == [] then Ok([])
    else
      match Cell(rows[0].abund, feature)
      case Number(x) =>
        (match Column(rows[1..], feature)
         case Ok(rest) => Ok([x] + rest)
         case Err(e) => Err(e))
      case _ => Err(NonNumeric(feature))
  }

  /** (mean2 + eps) / (mean1 + eps); Python raises ZeroDivisionError on a zero denominator. */
  function FoldChange(feature: string, mean1: real, mean2: real): (r: Result<real>)
    ensures r.Err? <==> mean1 + EPS == 0.0
    ensures r.Err? ==> r.error == ZeroDenominator(feature)
    ensures r.Ok? ==> r.value * (mean1 + EPS) == mean2 + EPS
  {
    if mean1 + EPS == 0.0 then Err(ZeroDenominator(feature)) else Ok((mean2 + EPS) / (mean1 + EPS))
  }

  /** For non-negative means the fold change is defined and positive. */
  lemma FoldChangePositive(feature: string, mean1: real, mean2: real)
    requires mean1 >= 0.0 && mean2 >= 0.0
    ensures FoldChange(feature, mean1, mean2).Ok?
    ensures FoldChange(feature, mean1, mean2).value > 0.0
  {
    var fc := FoldChange(feature, mean1, mean2).value;
    assert fc * (mean1 + EPS) == mean2 + EPS;
  }

  /** Equal means give a fold change of exactly 1. */
  lemma FoldChangeOfEqualMeans(feature: string, mean: real)
    requires mean + EPS != 0.0
    ensures FoldChange(feature, mean, mean) == Ok(1.0)
  {
    assert (mean + EPS) / (mean + EPS) == 1.0;
  }

  /** Swapping the cohorts inverts the fold change. */
  lemma FoldChangeSwap(feature: string, mean1: real, mean2: real)
    requires mean1 + EPS != 0.0 && mean2 + EPS != 0.0
    ensures FoldChange(feature, mean2, mean1).Ok? && FoldChange(feature, mean1, mean2).Ok?
    ensures FoldChange(feature, mean2, mean1).value == 1.0 / FoldChange(feature, mean1, mean2).value
  {
    var a := mean1 + EPS;
    var b := mean2 + EPS;
    assert (a / b) * (b / a) == 1.0;
  }

  /** One results row: feature, mean_<group1>, mean_<group2>, log2FC_(<group2>_vs_<group1>), p_value. */
  datatype FeatureStats = FeatureStats(feature: string, mean1: real, mean2: real, log2fc: real, pValue: real)

  /** The record of one feature: its two columns, their means, the fold change, its log2 and the p-value. */
  function FeatureRecord(feature: string, g1: seq<Joined>, g2: seq<Joined>,
                         log2: real -> real, mwu: (seq<real>, seq<real>) -> real): (r: Result<FeatureStats>)
    requires g1 != [] && g2 != []
    ensures r.Ok? <==>
      Column(g1, feature).Ok? && Column(g2, feature).Ok? && Mean(Column(g1, feature).value) + EPS != 0.0
    ensures !Column(g1, feature).Ok? || !Column(g2, feature).Ok? ==> r == Err(NonNumeric(feature))
    ensures Column(g1, feature).Ok? && Column(g2, feature).Ok? && Mean(Column(g1, feature).value) + EPS == 0.0 ==>
      r == Err(ZeroDenominator(feature))
    ensures r.Ok? ==>
      var x1 := Column(g1, feature).value;
      var x2 := Column(g2, feature).value;
      && r.value.feature == feature
      && r.value.mean1 == Mean(x1) && r.value.mean2 == Mean(x2)
      && r.value.log2fc == log2((r.value.mean2 + EPS) / (r.value.mean1 + EPS))
      && r.value.pValue == mwu(x1, x2)
  {
    match Column(g1, feature)
    case Err(e) => Err(e)
    case Ok(x1) =>
      match Column(g2, feature)
      case Err(e) => Err(e)
      case Ok(x2) =>
        var mean1 := Mean(x1);
        var mean2 := Mean(x2);
        match FoldChange(feature, mean1, mean2)
        case Err(e) => Err(e)
        case Ok(fc) => Ok(FeatureStats(feature, mean1, mean2, log2(fc), mwu(x1, x2)))
  }

  /** Every feature whose cohort cells are all non-negative numbers gets a row, with a positive fold change. */
  lemma FeatureRecordDefined(feature: string, g1: seq<Joined>, g2: seq<Joined>,
                             log2: real -> real, mwu: (seq<real>, seq<real>) -> real)
    requires g1 != [] && g2 != []
    requires forall k :: 0 <= k < |g1| ==> Cell(g1[k].abund, feature).Number? && Cell(g1[k].abund, feature).x >= 0.0
    requires forall k :: 0 <= k < |g2| ==> Cell(g2[k].abund, feature).Number? && Cell(g2[k].abund, feature).x >= 0.0
    ensures FeatureRecord(feature, g1, g2, log2, mwu).Ok?
    ensures var s := FeatureRecord(feature, g1, g2, log2, mwu).value;
      s.mean1 >= 0.0 && s.mean2 >= 0.0 && (s.mean2 + EPS) / (s.mean1 + EPS) > 0.0
  {
    var x1 := Column(g1, feature).value;
    var x2 := Column(g2, feature).value;
    forall k | 0 <= k < |x1| ensures x1[k] >= 0.0 {
      assert Cell(g1[k].abund, feature) == Number(x1[k]);
    }
    forall k | 0 <= k < |x2| ensures x2[k] >= 0.0 {
      assert Cell(g2[k].abund, feature) == Number(x2[k]);
    }
    MeanNonNegative(x1);
    MeanNonNegative(x2);
    FoldChangePositive(feature, Mean(x1), Mean(x2));
  }

  /** Equal cohort means give log2FC = log2(1) = 0. */
  lemma FeatureRecordEqualMeans(feature: string, g1: seq<Joined>, g2: seq<Joined>,
                                log2: real -> real, mwu: (seq<real>, seq<real>) -> real)
    requires g1 != [] && g2 != []
    requires log2(1.0) == 0.0
    requires FeatureRecord(feature, g1, g2, log2, mwu).Ok?
    requires FeatureRecord(feature, g1, g2, log2, mwu).value.mean1 == FeatureRecord(feature, g1, g2, log2, mwu).value.mean2
    ensures FeatureRecord(feature, g1, g2, log2, mwu).value.log2fc == 0.0
  {
    var s := FeatureRecord(feature, g1, g2, log2, mwu).value;
    FoldChangeOfEqualMeans(feature, s.mean1);
  }

  /**
   * Swapping group1 and group2 swaps the means, negates log2FC and, for a
   * symmetric two-sided test, leaves the p-value unchanged.
   */
  lemma FeatureRecordSwap(feature: string, g1: seq<Joined>, g2: seq<Joined>,
                          log2: real -> real, mwu: (seq<real>, seq<real>) -> real)
    requires g1 != [] && g2 != []
    requires forall x :: x > 0.0 ==> log2(1.0 / x) == -log2(x)
    requires forall a, b :: mwu(a, b) == mwu(b, a)
    requires FeatureRecord(feature, g1, g2, log2, mwu).Ok?
    requires FeatureRecord(feature, g1, g2, log2, mwu).value.mean1 >= 0.0
    requires FeatureRecord(feature, g1, g2, log2, mwu).value.mean2 >= 0.0
    ensures FeatureRecord(feature, g2, g1, log2, mwu).Ok?
    ensures var s := FeatureRecord(feature, g1, g2, log2, mwu).value;
      var t := FeatureRecord(feature, g2, g1, log2, mwu).value;
      t.mean1 == s.mean2 && t.mean2 == s.mean1 && t.log2fc == -s.log2fc && t.pValue == s.pValue
  {
    var s := FeatureRecord(feature, g1, g2, log2, mwu).value;
    FoldChangePositive(feature, s.mean1, s.mean2);
    FoldChangeSwap(feature, s.mean1, s.mean2);
    var fc := FoldChange(feature, s.mean1, s.mean2).value;
    assert log2(1.0 / fc) == -log2(fc);
  }

  /** The record of each feature, in feature order. */
  function Records(features: seq<string>, g1: seq<Joined>, g2: seq<Joined>,
                   log2: real -> real, mwu: (seq<real>, seq<real>) -> real): (rs: seq<Result<FeatureStats>>)
    requires g1 != [] && g2 != []
    ensures |rs| == |features|
    ensures forall k :: 0 <= k < |features| ==> rs[k] == FeatureRecord(features[k], g1, g2, log2, mwu)
  {
    seq(|features|, k requires 0 <= k < |features| => FeatureRecord(features[k], g1, g2, log2, mwu))
  }

  /** The rows for all features, in feature order; the first failing feature stops the run. */
  function StatsTable(features: seq<string>, g1: seq<Joined>, g2: seq<Joined>,
                      log2: real -> real, mwu: (seq<real>, seq<real>) -> real): Result<seq<FeatureStats>>
    requires g1 != [] && g2 != []
  {
    Collect(Records(features, g1, g2, log2, mwu))
  }

  /** One row per feature, each the feature's own record, exactly when no feature fails. */
  lemma StatsTableRows(features: seq<string>, g1: seq<Joined>, g2: seq<Joined>,
                       log2: real -> real, mwu: (seq<real>, seq<real>) -> real)
    requires g1 != [] && g2 != []
    ensures var r := StatsTable(features, g1, g2, log2, mwu);
      && (r.Ok? <==> forall k :: 0 <= k < |features| ==> FeatureRecord(features[k], g1, g2, log2, mwu).Ok?)
      && (r.Ok? ==> |r.value| == |features|)
      && (r.Ok? ==> forall k :: 0 <= k < |features| ==> FeatureRecord(features[k], g1, g2, log2, mwu) == Ok(r.value[k]))
  {
    var rs := Records(features, g1, g2, log2, mwu);
    var r := Collect(rs);
    if r.Ok? {
      assert forall k :: 0 <= k < |features| ==> rs[k] == Ok(r.value[k]);
    }
  }

  /** A successful run has one row per feature, named after it, in feature order. */
  lemma StatsTableShape(features: seq<string>, g1: seq<Joined>, g2: seq<Joined>,
                        log2: real -> real, mwu: (seq<real>, seq<real>) -> real)
    requires g1 != [] && g2 != []
    requires StatsTable(features, g1, g2, log2, mwu).Ok?
    ensures |StatsTable(features, g1, g2, log2, mwu).value| == |features|
    ensures forall k :: 0 <= k < |features| ==> StatsTable(features, g1, g2, log2, mwu).value[k].feature == features[k]
  {
    StatsTableRows(features, g1, g2, log2, mwu);
  }

  /** A run that fails reports the error of the first failing feature. */
  lemma StatsTableFirstFailure(features: seq<string>, g1: seq<Joined>, g2: seq<Joined>,
                               log2: real -> real, mwu: (seq<real>, seq<real>) -> real)
    requires g1 != [] && g2 != []
    requires StatsTable(features, g1, g2, log2, mwu).Err?
    ensures
      exists k :: 0 <= k < |features| &&
        (forall j :: 0 <= j < k ==> FeatureRecord(features[j], g1, g2, log2, mwu).Ok?) &&
        FeatureRecord(features[k], g1, g2, log2, mwu) == Err(StatsTable(features, g1, g2, log2, mwu).error)
  {
    var rs := Records(features, g1, g2, log2, mwu);
    var k :| 0 <= k < |rs| && (forall j :: 0 <= j < k ==> rs[j].Ok?) && rs[k] == Err(Collect(rs).error);
    assert FeatureRecord(features[k], g1, g2, log2, mwu) == rs[k];
  }

  /** The per-feature loop: one record appended to `rows` for each feature, in order; the first failure stops it. */
  method ComputeFeatureStats(features: seq<string>, g1: seq<Joined>, g2: seq<Joined>,
                             log2: real -> real, mwu: (seq<real>, seq<real>) -> real)
    returns (r: Result<seq<FeatureStats>>)
    requires g1 != [] && g2 != []
    ensures r == StatsTable(features, g1, g2, log2, mwu)
    ensures r.Ok? ==> |r.value| == |features|
    ensures r.Ok? ==> forall k :: 0 <= k < |features| ==> r.value[k].feature == features[k]
  {
    var rows: seq<FeatureStats> := [];
    var i := 0;
    while i < |features|
      invariant 0 <= i <= |features|
      invariant |rows| == i
      invariant forall k :: 0 <= k < i ==> FeatureRecord(features[k], g1, g2, log2, mwu) == Ok(rows[k])
    {
      var rec := FeatureRecord(features[i], g1, g2, log2, mwu);
      if rec.Err? {
        var expected := StatsTable(features, g1, g2, log2, mwu);
        StatsTableRows(features, g1, g2, log2, mwu);
        assert expected.Err?;
        StatsTableFirstFailure(features, g1, g2, log2, mwu);
        {
          var k :| 0 <= k < |features|
            && (forall j :: 0 <= j < k ==> FeatureRecord(features[j], g1, g2, log2, mwu).Ok?)
            && FeatureRecord(features[k], g1, g2, log2, mwu) == Err(expected.error);
          assert k == i;
        }
        return Err(rec.error);
      }
      rows := rows + [rec.value];
      i := i + 1;
    }
    r := Ok(rows);
    var expected := StatsTable(features, g1, g2, log2, mwu);
    StatsTableRows(features, g1, g2, log2, mwu);
    assert expected.Ok?;
    assert expected.value == rows;
  }
}
