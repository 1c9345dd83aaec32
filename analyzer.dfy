/**
 * The analysis from two loaded tables to the results table, the labelled
 * volcano points and the boxplot features, as the script's main routine
 * computes them, with argument parsing, file I/O, plotting and printing left out.
 *
 * Pipeline is the reference definition; Analyze computes it step by step,
 * with the per-feature loop and the array-based correction as methods.
 */
module Analyzer {
  import opened Tables
  import opened Alignment
  import opened Groups
  import opened Stats
  import opened Ranking
  import BH = BenjaminiHochberg

  /** The command-line settings the analysis reads. */
  datatype Config = Config(groupCol: string, group1: string, group2: string,
                           labelMode: LabelMode, topN: int, thresholds: Thresholds)

  /** The defaults of parse_args. */
  const DEFAULT_CONFIG: Config :=
    Config("Severity", "Mild", "Severe", Threshold, 10, Thresholds(false, 0.05, 0.10, 1.0))

  /** What the analysis produces: the sorted results table, the labelled rows, the boxplot features and the cohort sizes. */
  datatype Report = Report(results: seq<ResultRow>, labeled: seq<ResultRow>, boxplotFeatures: seq<string>,
                           size1: nat, size2: nat)

  /** The p-value column of the records, in record order. */
  function PValues(stats: seq<FeatureStats>): (ps: seq<real>)
    ensures |ps| == |stats|
    ensures forall k :: 0 <= k < |stats| ==> ps[k] == stats[k].pValue
  {
    seq(|stats|, k requires 0 <= k < |stats| => stats[k].pValue)
  }

  /** The records with their q-values attached, sorted by q-value and then p-value. */
  function ResultsTable(stats: seq<FeatureStats>): seq<ResultRow>
  {
    SortResults(WithQ(stats, BH.BH(PValues(stats))))
  }

  /** Everything after the per-feature records: the results table, the labels and the boxplot features. */
  function Finish(stats: seq<FeatureStats>, cfg: Config, size1: nat, size2: nat): Report
  {
    var results := ResultsTable(stats);
    Report(results, Labels(results, cfg.labelMode, cfg.topN, cfg.thresholds), TopFeatures(results), size1, size2)
  }

  /** Validation and alignment of the two tables, then the two cohorts. */
  function Cohorts(ab: Table, md: Table, cfg: Config): (r: Result<(seq<Joined>, seq<Joined>)>)
    ensures Align(ab, md, cfg.groupCol).Err? ==> r == Err(Align(ab, md, cfg.groupCol).error)
    ensures Align(ab, md, cfg.groupCol).Ok? ==>
      r == Partition(Align(ab, md, cfg.groupCol).value, cfg.groupCol, cfg.group1, cfg.group2)
    ensures r.Ok? ==> Align(ab, md, cfg.groupCol).Ok?
    ensures r.Ok? ==> r.value.0 != [] && r.value.1 != []
  {
    match Align(ab, md, cfg.groupCol)
    case Err(e) => Err(e)
    case Ok(merged) => Partition(merged, cfg.groupCol, cfg.group1, cfg.group2)
  }

  /** The whole analysis on the two tables, with log2 and the Mann-Whitney test as parameters. */
  function Pipeline(ab: Table, md: Table, cfg: Config,
                    log2: real -> real, mwu: (seq<real>, seq<real>) -> real): Result<Report>
  {
    match Cohorts(ab, md, cfg)
    case Err(e) => Err(e)
    case Ok(cohorts) =>
      var (g1, g2) := cohorts;
      match StatsTable(FeatureColumns(ab.columns), g1, g2, log2, mwu)
      case Err(e) => Err(e)
      case Ok(stats) =>
        if stats == [] then Err(NoFeatures) else Ok(Finish(stats, cfg, |g1|, |g2|))
  }

  /** main() from validation to the boxplot features. */
  method Analyze(ab: Table, md: Table, cfg: Config,
                 log2: real -> real, mwu: (seq<real>, seq<real>) -> real) returns (r: Result<Report>)
    ensures r == Pipeline(ab, md, cfg, log2, mwu)
  {
    var cohorts := Cohorts(ab, md, cfg);
    if cohorts.Err? {
      return Err(cohorts.error);
    }
    var g1 := cohorts.value.0;
    var g2 := cohorts.value.1;
    var features := FeatureColumns(ab.columns);
    var table := ComputeFeatureStats(features, g1, g2, log2, mwu);
    if table.Err? {
      return Err(table.error);
    }
    var stats := table.value;
    if |stats| == 0 {
      return Err(NoFeatures);
    }
    var report := FinishReport(stats, cfg, |g1|, |g2|);
    r := Ok(report);
  }

  /** The q-values computed over an array of the p-values, then the order, the labels and the boxplot features. */
  method FinishReport(stats: seq<FeatureStats>, cfg: Config, size1: nat, size2: nat) returns (rep: Report)
    ensures rep == Finish(stats, cfg, size1, size2)
  {
    var pvals := new real[|stats|](k requires 0 <= k < |stats| => stats[k].pValue);
    assert pvals[..] == PValues(stats);
    var qs := BH.BenjaminiHochberg(pvals);
    var results := SortResults(WithQ(stats, qs[..]));
    var labeled := Labels(results, cfg.labelMode, cfg.topN, cfg.thresholds);
    var boxplots := TopFeatures(results);
    rep := Report(results, labeled, boxplots, size1, size2);
  }

  /** Each row of a reordering of WithQ(stats, qs) carries the feature, p and q of one record. */
  lemma RowOrigin(stats: seq<FeatureStats>, qs: seq<real>, results: seq<ResultRow>, row: ResultRow)
    requires |qs| == |stats|
    requires multiset(results) == multiset(WithQ(stats, qs))
    requires row in results
    ensures
      exists k :: 0 <= k < |stats| &&
        row.feature == stats[k].feature && row.pValue == stats[k].pValue && row.qValue == qs[k]
  {
    var unsorted := WithQ(stats, qs);
    assert row in multiset(unsorted);
    var k :| 0 <= k < |unsorted| && unsorted[k] == row;
  }

  /** The results table is the records with their q-values, reordered by (q, p). */
  lemma ResultsOrdered(stats: seq<FeatureStats>)
    ensures |ResultsTable(stats)| == |stats|
    ensures Sorted(ByQThenP, ResultsTable(stats))
    ensures multiset(ResultsTable(stats)) == multiset(WithQ(stats, BH.BH(PValues(stats))))
  {
  }

  /** Every q-value in the results table lies in [0, 1] and is at least its p-value when that lies in [0, 1]. */
  lemma ResultsQValues(stats: seq<FeatureStats>)
    ensures forall row :: row in ResultsTable(stats) ==> 0.0 <= row.qValue <= 1.0
    ensures forall row :: row in ResultsTable(stats) && 0.0 <= row.pValue <= 1.0 ==> row.pValue <= row.qValue
  {
    var ps := PValues(stats);
    var qs := BH.BH(ps);
    var results := ResultsTable(stats);
    forall row | row in results
      ensures 0.0 <= row.qValue <= 1.0
      ensures 0.0 <= row.pValue <= 1.0 ==> row.pValue <= row.qValue
    {
      RowOrigin(stats, qs, results, row);
      var k :| 0 <= k < |stats| && row.pValue == stats[k].pValue && row.qValue == qs[k];
      if 0.0 <= ps[k] <= 1.0 {
        BH.BHDominates(ps, k);
      }
    }
  }

  /** The results table has a row for every record. */
  lemma ResultsCoverRecords(stats: seq<FeatureStats>)
    ensures forall k :: 0 <= k < |stats| ==>
      exists row :: row in ResultsTable(stats) && row.feature == stats[k].feature && row.pValue == stats[k].pValue
  {
    var unsorted := WithQ(stats, BH.BH(PValues(stats)));
    var results := ResultsTable(stats);
    assert multiset(results) == multiset(unsorted);
    forall k | 0 <= k < |stats|
      ensures exists row :: row in results && row.feature == stats[k].feature && row.pValue == stats[k].pValue
    {
      assert unsorted[k] in multiset(results);
    }
  }

  /** Every row of the results table is the row of a record. */
  lemma ResultsFromRecords(stats: seq<FeatureStats>)
    ensures forall row :: row in ResultsTable(stats) ==> exists k :: 0 <= k < |stats| && row.feature == stats[k].feature
  {
    var qs := BH.BH(PValues(stats));
    var results := ResultsTable(stats);
    forall row | row in results ensures exists k :: 0 <= k < |stats| && row.feature == stats[k].feature {
      RowOrigin(stats, qs, results, row);
    }
  }

  /** The report's labels are rows of the results table, and its boxplot features are the first three. */
  lemma FinishReportParts(stats: seq<FeatureStats>, cfg: Config, size1: nat, size2: nat)
    ensures var rep := Finish(stats, cfg, size1, size2);
      && rep.results == ResultsTable(stats)
      && multiset(rep.labeled) <= multiset(rep.results)
      && |rep.boxplotFeatures| == Count(3, |stats|)
      && (forall k :: 0 <= k < |rep.boxplotFeatures| ==> rep.boxplotFeatures[k] == rep.results[k].feature)
      && rep.size1 == size1 && rep.size2 == size2
  {
    ResultsOrdered(stats);
  }

  /** A successful analysis is Finish applied to the records of the two cohorts. */
  lemma PipelineIsFinish(ab: Table, md: Table, cfg: Config,
                         log2: real -> real, mwu: (seq<real>, seq<real>) -> real)
    requires Pipeline(ab, md, cfg, log2, mwu).Ok?
    ensures Cohorts(ab, md, cfg).Ok?
    ensures var (g1, g2) := Cohorts(ab, md, cfg).value;
      && StatsTable(FeatureColumns(ab.columns), g1, g2, log2, mwu).Ok?
      && StatsTable(FeatureColumns(ab.columns), g1, g2, log2, mwu).value != []
      && Pipeline(ab, md, cfg, log2, mwu).value
         == Finish(StatsTable(FeatureColumns(ab.columns), g1, g2, log2, mwu).value, cfg, |g1|, |g2|)
  {
  }

  /** An analysis that succeeds found all three columns and the same SampleIDs in both tables. */
  lemma PipelineValidated(ab: Table, md: Table, cfg: Config,
                          log2: real -> real, mwu: (seq<real>, seq<real>) -> real)
    requires Pipeline(ab, md, cfg, log2, mwu).Ok?
    ensures SAMPLE_ID in ab.columns && SAMPLE_ID in md.columns && cfg.groupCol in md.columns
    ensures forall x :: x in SampleIds(ab.rows) <==> x in SampleIds(md.rows)
  {
    PipelineIsFinish(ab, md, cfg, log2, mwu);
    assert Align(ab, md, cfg.groupCol).Ok?;
  }

  /** Rows built from one record per feature column are named after feature columns. */
  lemma ResultsNamedAfterFeatures(features: seq<string>, stats: seq<FeatureStats>)
    requires |stats| == |features|
    requires forall k :: 0 <= k < |features| ==> stats[k].feature == features[k]
    ensures forall row :: row in ResultsTable(stats) ==> row.feature in features
  {
    ResultsFromRecords(stats);
    forall row | row in ResultsTable(stats) ensures row.feature in features {
      var k :| 0 <= k < |stats| && row.feature == stats[k].feature;
      assert features[k] in features;
    }
  }

  /** An analysis that succeeds has two non-empty cohorts and one row in [0, 1] per feature column, ordered by (q, p). */
  lemma PipelineSucceeds(ab: Table, md: Table, cfg: Config,
                         log2: real -> real, mwu: (seq<real>, seq<real>) -> real)
    requires Pipeline(ab, md, cfg, log2, mwu).Ok?
    ensures var rep := Pipeline(ab, md, cfg, log2, mwu).value;
      && rep.size1 > 0 && rep.size2 > 0
      && |rep.results| == |FeatureColumns(ab.columns)| > 0
      && Sorted(ByQThenP, rep.results)
      && (forall row :: row in rep.results ==> row.feature in ab.columns && row.feature != SAMPLE_ID)
      && (forall row :: row in rep.results ==> 0.0 <= row.qValue <= 1.0)
  {
    PipelineIsFinish(ab, md, cfg, log2, mwu);
    var (g1, g2) := Cohorts(ab, md, cfg).value;
    var features := FeatureColumns(ab.columns);
    StatsTableShape(features, g1, g2, log2, mwu);
    var stats := StatsTable(features, g1, g2, log2, mwu).value;
    ResultsOrdered(stats);
    ResultsQValues(stats);
    ResultsNamedAfterFeatures(features, stats);
    FinishReportParts(stats, cfg, |g1|, |g2|);
  }

  /** With no feature column the results table has no p_value column: the analysis fails with NoFeatures. */
  lemma PipelineWithoutFeatures(ab: Table, md: Table, cfg: Config,
                                log2: real -> real, mwu: (seq<real>, seq<real>) -> real)
    requires forall c :: c in ab.columns ==> c == SAMPLE_ID
    requires Cohorts(ab, md, cfg).Ok?
    ensures Pipeline(ab, md, cfg, log2, mwu) == Err(NoFeatures)
  {
    var cohorts := Cohorts(ab, md, cfg).value;
    var features := FeatureColumns(ab.columns);
    NoFeatureColumns(ab.columns);
    assert StatsTable(features, cohorts.0, cohorts.1, log2, mwu) == Ok([]);
  }
}
