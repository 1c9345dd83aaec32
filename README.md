# Microbiome–toxicity comparison: a Dafny model

`analyze_microbiome.py` compares the abundance of each microbial feature between two
clinical severity groups. This project models its statistical core:

- It reads an abundance table and a metadata table keyed by `SampleID`.
- It checks the required columns and refuses to go on when the two tables do not hold the same
  sample identifiers. The mismatch report lists the missing identifiers in sorted order.
- It merges the tables and splits the merged rows into the `group1` and `group2` cohorts.
- For every abundance column it computes:
  - the two cohort means;
  - the fold change `(mean2 + 1e-9) / (mean1 + 1e-9)` and its log2;
  - a Mann–Whitney p-value.
- It corrects the p-values with the Benjamini–Hochberg procedure.
- It sorts the results by `(q_value, p_value)`.
- It chooses which volcano-plot points to label, in one of three modes: top, threshold or none.
- It chooses the first three features for boxplots.

Numbers are Dafny `real`s. Rows are maps from column name to cell value.
`np.log2` and `scipy.stats.mannwhitneyu` are function parameters (`log2`, `mwu`).

Modules, one file each:

- `seqs.dfy` (`Seqs`): order-preserving filters. These model boolean masks and list comprehensions.
- `tables.dfy` (`Tables`): cells, rows, tables, the error cases and `Result`.
- `id_order.dfy` (`IdOrder`): the order `sorted()` puts identifiers in, and `sorted(set(...))`.
- `alignment.dfy` (`Alignment`): the column checks, the set differences and the inner merge.
- `groups.dfy` (`Groups`): the two cohorts.
- `stats.dfy` (`Stats`): the feature columns, means, fold change, per-feature records, and the
  loop that builds them (a method).
- `bh.dfy` (`BenjaminiHochberg`): the correction as a reference function `BH`, plus the array
  method `BenjaminiHochberg`. The method follows the source step by step:
  - argsort;
  - scaling;
  - a backward running minimum, in place;
  - clipping, in place;
  - the scatter `out[order] = q`.
- `ranking.dfy` (`Ranking`): the `(q, p)` sort, `nsmallest`, the threshold filter, the label
  modes and `head(3)`.
- `analyzer.dfy` (`Analyzer`): the whole analysis as the function `Pipeline`, and the method
  `Analyze` that computes it with the loop and array methods.

Two points about the code that are easy to misread:

- The code prints `WARNING: SampleID mismatch detected!`, which reads as if it carried on.
  It then raises `SystemExit` (analyze_microbiome.py:144-152), so the model treats a mismatch as fatal.
- The code filters no features, and its pseudocount cannot be configured: `eps` is the
  constant `1e-9` (analyze_microbiome.py:173).

## Model

| member | source | states |
|---|---|---|
| BenjaminiHochberg.BenjaminiHochberg | analyze_microbiome.py:14-34 | the array method returns exactly the reference q-values `BH(pvals)`; an empty input is returned itself, any other input gets a fresh array |
| BenjaminiHochberg.ScaleRanked | analyze_microbiome.py:24-26 | a fresh array holding the ranked p-values, each scaled by n / rank |
| BenjaminiHochberg.AccumulateMinFromEnd | analyze_microbiome.py:29 | after the backward pass, entry j is the minimum of the old entries j..n-1 |
| BenjaminiHochberg.ClipInPlace | analyze_microbiome.py:30 | every entry is replaced by its clip to [0, 1] |
| BenjaminiHochberg.ScatterBack | analyze_microbiome.py:32-33 | a fresh array with `out[order[k]] == q[k]` for the whole permutation |
| BenjaminiHochberg.BH | analyze_microbiome.py:14-34 | same length as the input; every q-value lies in [0, 1] |
| BenjaminiHochberg.ArgSort | analyze_microbiome.py:24 | the order is a permutation of the indices and lists the p-values in ascending order |
| BenjaminiHochberg.ArgSortPrefix | analyze_microbiome.py:24 | sorts the first m indices: exactly 0..m-1, each once, ascending by p-value |
| BenjaminiHochberg.Clip | analyze_microbiome.py:30 | the result lies in [0, 1]; values inside are unchanged, values below become 0 and above become 1 |
| BenjaminiHochberg.Permute | analyze_microbiome.py:25 | entry k is `p[order[k]]` |
| BenjaminiHochberg.Scaled | analyze_microbiome.py:26 | entry k is the ranked value times n / (k + 1) |
| BenjaminiHochberg.SuffixMin | analyze_microbiome.py:29 | the value is at most every later entry and equals one of them |
| BenjaminiHochberg.StepUp | analyze_microbiome.py:26-30 | same length as the ranked p-values; every value in [0, 1] |
| BenjaminiHochberg.StepUpNonDecreasing | analyze_microbiome.py:29-30 | the step-up values never decrease with rank |
| BenjaminiHochberg.StepUpTies | analyze_microbiome.py:26-29 | equal ranked p-values get equal step-up values |
| BenjaminiHochberg.StepUpDominates | analyze_microbiome.py:26-30 | for a p-value in [0, 1] the step-up value is at least the p-value |
| BenjaminiHochberg.StepUpLast | analyze_microbiome.py:26-30 | the largest rank gets the clip of its own p-value |
| BenjaminiHochberg.StepUpOrderPreserving | analyze_microbiome.py:26-30 | on ascending input, a smaller ranked value never gets a larger step-up value |
| BenjaminiHochberg.StepUpAtMaximum | analyze_microbiome.py:26-30 | a rank holding the maximum gets the clip of its own p-value |
| BenjaminiHochberg.BHAtRank | analyze_microbiome.py:32-33 | the q-value written at `order[k]` is the step-up value of rank k |
| BenjaminiHochberg.BHAt | analyze_microbiome.py:32-33 | each position's q-value is the step-up value at that position's rank |
| BenjaminiHochberg.RankedNonDecreasing | analyze_microbiome.py:24-25 | the p-values taken in argsort order are non-decreasing |
| BenjaminiHochberg.BHClosedForm | analyze_microbiome.py:26-30 | the q-value at sorted rank k is at most clip(p_(j)·n/j) for every j ≥ k, and equals one of them: it is min(1, min over j ≥ k of p_(j)·n/j) |
| BenjaminiHochberg.BHMonotone | analyze_microbiome.py:24-33 | p[a] ≤ p[b] implies q[a] ≤ q[b] |
| BenjaminiHochberg.BHTies | analyze_microbiome.py:24-33 | tied p-values receive equal q-values |
| BenjaminiHochberg.PermuteMultiset | analyze_microbiome.py:24-25 | listing the p-values through any permutation of their indices keeps the same multiset of values |
| BenjaminiHochberg.SortedUnique | analyze_microbiome.py:24-25 | two non-decreasing sequences with the same multiset of values are equal, so every sorting order ranks the same values |
| BenjaminiHochberg.BHAnySortingOrder | analyze_microbiome.py:24-33 | for every permutation that sorts the p-values, not only the stable one, the step-up values written back through it are exactly `BH(p)`: the q-values do not depend on how ties are ordered |
| BenjaminiHochberg.BHSortedNonDecreasing | analyze_microbiome.py:29-33 | the q-values taken in rank order are non-decreasing |
| BenjaminiHochberg.BHDominates | analyze_microbiome.py:26-33 | a p-value in [0, 1] is at most its q-value |
| BenjaminiHochberg.BHLargest | analyze_microbiome.py:26-33 | the largest p-value gets the q-value min(1, p_max) (its clip in general) |
| BenjaminiHochberg.ScaleAntitone | analyze_microbiome.py:26 | for a non-negative p-value, a larger rank never gives a larger scaled value |
| BenjaminiHochberg.ScaleAtLeast | analyze_microbiome.py:26 | scaling by n / rank with rank ≤ n never makes a non-negative p-value smaller |
| BenjaminiHochberg.ScaleAtLast | analyze_microbiome.py:26 | at rank n the scaled value is the p-value itself |
| BenjaminiHochberg.ScaleNegative | analyze_microbiome.py:26 | a negative p-value stays negative when scaled |
| BenjaminiHochberg.SuffixMinFlat | analyze_microbiome.py:29 | the running minimum is constant from j to l when no entry in between is below entry l |
| BenjaminiHochberg.InsertIndexDistinct | analyze_microbiome.py:24 | inserting a new index keeps the order free of repeats |
| BenjaminiHochberg.InsertIndexAscending | analyze_microbiome.py:24 | inserting an index keeps the order ascending by p-value |
| Tables.SampleIds | analyze_microbiome.py:138-139 | the SampleID column in row order, one cell per row |
| Tables.Collect | analyze_microbiome.py:176-196 | all the values when every step succeeds, otherwise the error of the first failing step |
| IdOrder.StrLessIrreflexive | analyze_microbiome.py:141-142 | no identifier sorts before itself |
| IdOrder.StrLessTransitive | analyze_microbiome.py:141-142 | the string order is transitive |
| IdOrder.StrLessTotal | analyze_microbiome.py:141-142 | any two different strings are ordered one way or the other |
| IdOrder.LessIrreflexive | analyze_microbiome.py:141-142 | no cell value sorts before itself |
| IdOrder.LessTransitive | analyze_microbiome.py:141-142 | the value order is transitive |
| IdOrder.LessTotal | analyze_microbiome.py:141-142 | any two different values are ordered |
| IdOrder.InsertSorted | analyze_microbiome.py:141-142 | inserting into a strictly ascending list keeps it strictly ascending, with the value added once |
| IdOrder.SortedSet | analyze_microbiome.py:141-142 | `sorted(set(xs))`: strictly ascending, holding exactly the values of xs |
| Alignment.MissingIds | analyze_microbiome.py:137-142 | strictly ascending, holding exactly the wanted identifiers the other table lacks |
| Alignment.MissingIdsEmpty | analyze_microbiome.py:144 | nothing is missing iff every wanted identifier is present |
| Alignment.JoinedIds | analyze_microbiome.py:154 | the SampleID column of the merged rows |
| Alignment.JoinedIdsAppend | analyze_microbiome.py:154 | the merged SampleIDs of two row blocks are the concatenation of theirs |
| Alignment.MatchesOf | analyze_microbiome.py:154 | every merged row pairs one metadata row with an abundance row of the same SampleID; the IDs produced are those both sides share |
| Alignment.MatchesOfUnique | analyze_microbiome.py:154 | with unique abundance IDs, a metadata row present in the abundance table matches exactly once |
| Alignment.Merge | analyze_microbiome.py:154 | every merged row pairs rows of both tables with equal SampleID; an ID is merged iff both tables hold it |
| Alignment.MergeKeepsMetadataRows | analyze_microbiome.py:154 | with unique abundance IDs covering the metadata IDs, the merge has one row per metadata row, in metadata order |
| Alignment.Align | analyze_microbiome.py:129-154 | the three column errors in code order; success iff the columns exist and the ID sets are equal; a mismatch reports both sorted lists exactly, one of them non-empty; the merged rows are exactly the inner join `Merge` of metadata with abundance, whose IDs are the metadata IDs |
| Groups.Cohort | analyze_microbiome.py:161-162 | exactly the merged rows whose group cell is the text label, with their multiplicities, as an order-preserving subsequence |
| Groups.Excluded | analyze_microbiome.py:161-162 | exactly the merged rows matching neither label |
| Groups.Partition | analyze_microbiome.py:161-167 | succeeds iff both labels occur; the cohorts are then both non-empty and are the two filters; otherwise the error carries both sizes |
| Groups.CohortsDisjoint | analyze_microbiome.py:161-162 | for two different labels no row is in both cohorts |
| Groups.PartitionSizes | analyze_microbiome.py:161-162 | for two different labels, the two cohorts and the excluded rows add up to the merged rows |
| Seqs.Filter | analyze_microbiome.py:161-162 | keeps exactly the elements satisfying the mask, with their multiplicities and in order |
| Seqs.FilterSplit | analyze_microbiome.py:161-162 | two exclusive masks and the rows matching neither split a sequence exactly |
| Stats.FeatureColumns | analyze_microbiome.py:170 | exactly the abundance columns other than SampleID, with their multiplicities and in column order |
| Stats.NoFeatureColumns | analyze_microbiome.py:170 | a table whose only column is SampleID has no feature columns |
| Stats.MeanNonNegative | analyze_microbiome.py:180-181 | the mean of non-negative abundances is non-negative |
| Stats.SumNonNegative | analyze_microbiome.py:180-181 | the sum of non-negative abundances is non-negative |
| Stats.Column | analyze_microbiome.py:177-178 | succeeds iff every cohort cell is a number; the values are then those cells in row order; otherwise NonNumeric for the feature |
| Stats.FoldChange | analyze_microbiome.py:183 | fails iff mean1 + eps is zero; otherwise ratio × (mean1 + eps) = mean2 + eps |
| Stats.FoldChangePositive | analyze_microbiome.py:183 | for non-negative means the ratio is defined and positive |
| Stats.FoldChangeOfEqualMeans | analyze_microbiome.py:183 | equal means give a ratio of exactly 1 |
| Stats.FoldChangeSwap | analyze_microbiome.py:183 | swapping the cohorts inverts the ratio |
| Stats.FeatureRecord | analyze_microbiome.py:177-196 | succeeds iff both columns are numeric and mean1 + eps ≠ 0; non-numeric cells give NonNumeric; a zero denominator gives ZeroDenominator; the record holds both means, log2 of the ratio and the test's p-value on the two columns |
| Stats.FeatureRecordDefined | analyze_microbiome.py:177-196 | non-negative numeric cells always give a record, with non-negative means and a positive ratio |
| Stats.FeatureRecordEqualMeans | analyze_microbiome.py:183-184 | given log2(1) = 0, equal means give log2FC 0 |
| Stats.FeatureRecordSwap | analyze_microbiome.py:180-186 | for a log2 with log2(1/x) = −log2(x) and a symmetric test, swapping the groups swaps the means, negates log2FC and keeps the p-value |
| Stats.Records | analyze_microbiome.py:176-196 | one record per feature, in feature order |
| Stats.StatsTableRows | analyze_microbiome.py:174-198 | succeeds iff every feature's record does; then one row per feature, each that feature's record |
| Stats.StatsTableShape | analyze_microbiome.py:174-198 | a successful table has one row per feature column, named after it, in column order |
| Stats.StatsTableFirstFailure | analyze_microbiome.py:176-186 | a failing run reports the error of the first feature that fails |
| Stats.ComputeFeatureStats | analyze_microbiome.py:174-196 | the append loop computes StatsTable, with one row per feature named after it |
| Ranking.WithQ | analyze_microbiome.py:201 | the k-th record gets the k-th q-value |
| Ranking.LeTotal | analyze_microbiome.py:204 | any two rows are comparable under each sort key |
| Ranking.LeTransitive | analyze_microbiome.py:204 | each sort key's order is transitive |
| Ranking.SortedByQThenPIsSortedByQ | analyze_microbiome.py:204 | a table ordered by (q, p) is ordered by q |
| Ranking.Insert | analyze_microbiome.py:204 | adds exactly one row, the given one |
| Ranking.InsertKeepsSorted | analyze_microbiome.py:204 | inserting into a sorted table keeps it sorted |
| Ranking.SortBy | analyze_microbiome.py:204 | the result is sorted by the key and is a permutation of the input |
| Ranking.InsertAtFront | analyze_microbiome.py:204 | a row that may precede all rows of a sorted table is inserted at its front |
| Ranking.SortBySorted | analyze_microbiome.py:204 | sorting an already sorted table leaves it unchanged |
| Ranking.SortResults | analyze_microbiome.py:204 | the results table is ordered by (q, p) ascending and is a permutation of the records |
| Ranking.Count | analyze_microbiome.py:238 | no rows for n ≤ 0, n rows when there are enough, all rows otherwise |
| Ranking.NSmallest | analyze_microbiome.py:238 | min(top_n, count) rows (none for top_n ≤ 0), ordered by q, drawn from the table |
| Ranking.PrefixBelowSuffix | analyze_microbiome.py:238 | in a table sorted by q, the first rows have q-values no larger than the rest |
| Ranking.SplitBelow | analyze_microbiome.py:238 | a prefix below its suffix is below everything else in any reordering of the table |
| Ranking.NSmallestSelectsSmallest | analyze_microbiome.py:238 | every selected row's q is at most the q of every row left out |
| Ranking.NSmallestOfSortedTable | analyze_microbiome.py:204-238 | on the (q, p)-sorted table nsmallest is the table's first rows |
| Ranking.ThresholdSelect | analyze_microbiome.py:240-249 | exactly the rows with q < q_thresh (or p < p_thresh without --use_q) and \|log2FC\| > fc_thresh, strict, kept in table order |
| Ranking.Labels | analyze_microbiome.py:237-251 | none mode selects nothing; top mode selects exactly `NSmallest(rows, top_n)`, min(top_n, count) rows; threshold mode selects exactly `ThresholdSelect`, the rows passing the thresholds; every mode selects rows of the table |
| Ranking.TopFeatures | analyze_microbiome.py:265 | the features of the first min(3, count) rows; on a sorted table their q-values are the smallest |
| Analyzer.PValues | analyze_microbiome.py:201 | the p_value column of the records, in order |
| Analyzer.Cohorts | analyze_microbiome.py:129-167 | an alignment error is passed on unchanged; after a successful alignment the result is exactly the partition of the merged rows; success implies both cohorts are non-empty |
| Analyzer.Analyze | analyze_microbiome.py:129-265 | the step-by-step analysis, with the loop and the array correction, equals `Pipeline` |
| Analyzer.FinishReport | analyze_microbiome.py:198-265 | builds the p-value array, corrects it with the array method, and returns `Finish` |
| Analyzer.RowOrigin | analyze_microbiome.py:201-204 | each row of the sorted table carries the feature, p and q of one record |
| Analyzer.ResultsOrdered | analyze_microbiome.py:201-204 | the results table has one row per record, is ordered by (q, p), and is a permutation of the records with their q-values |
| Analyzer.ResultsQValues | analyze_microbiome.py:201-204 | every q in the results table lies in [0, 1] and is at least its p when that lies in [0, 1] |
| Analyzer.ResultsCoverRecords | analyze_microbiome.py:198-204 | every record appears in the results table with its feature and p-value |
| Analyzer.ResultsFromRecords | analyze_microbiome.py:198-204 | every results row comes from a record |
| Analyzer.ResultsNamedAfterFeatures | analyze_microbiome.py:170-204 | rows built from one record per feature column are named after feature columns |
| Analyzer.FinishReportParts | analyze_microbiome.py:204-265 | the labels are rows of the results table; the boxplot features are the first min(3, count) results |
| Analyzer.PipelineIsFinish | analyze_microbiome.py:129-265 | a successful analysis is the report built from the records of the two non-empty cohorts |
| Analyzer.PipelineValidated | analyze_microbiome.py:129-152 | a successful analysis found all three columns and equal SampleID sets |
| Analyzer.PipelineSucceeds | analyze_microbiome.py:161-204 | a successful analysis has two non-empty cohorts and one row per feature column, each named after a non-SampleID column, ordered by (q, p), with q in [0, 1] |
| Analyzer.PipelineWithoutFeatures | analyze_microbiome.py:170-201 | with no feature column, an analysis that gets past the cohorts fails with NoFeatures |

## Left out

- Argument parsing (analyze_microbiome.py:37-117) is not modelled. Its settings are the `Config` value, and `DEFAULT_CONFIG` records the defaults.
- File reading and writing, `read_csv` parsing, directory creation, all plotting, and the summary prints are not modelled. These are I/O.
- `np.log2`, `-log10` and `scipy.stats.mannwhitneyu` are foreign numerical code. `log2` and `mwu` are parameters, and only the algebraic facts a lemma names are assumed about them. The p-values are not assumed to lie in [0, 1].
- Floating-point rounding, NaN and infinities are not modelled. Arithmetic is exact on `real`.
- Tables.Value: an empty cell is the single value `Missing`, equal to itself. In a float SampleID column pandas gives each empty cell its own NaN, and `set(...)` (analyze_microbiome.py:138-139) keeps them apart because NaN is not equal to itself. The source therefore reports a mismatch and exits (analyze_microbiome.py:152) when both tables have a blank SampleID. The model treats the blank as an ID shared by both tables and does not capture this.
- Stats.Column: a missing cell is an error (`NonNumeric`), where pandas would carry NaN into the mean and the test.
- Stats.Column: a text cell is always an error. pandas would convert text that spells a number.
- Alignment.Merge models an inner join of the row lists: every metadata row meets every abundance row with the same SampleID. Duplicate SampleIDs therefore multiply rows, as in pandas. `MergeKeepsMetadataRows` states the one-row-per-sample case.
- Alignment.Merge keeps the metadata row and the abundance row side by side. pandas' renaming of colliding column names (`_x`, `_y`) is not modelled.
- IdOrder.Less orders empty cells before numbers and numbers before text. Python's `sorted()` raises TypeError when a list of missing identifiers mixes numbers and text, or text and empty cells (a text SampleID column with a blank cell), and that error is not modelled: the model reports the mismatch with the empty cells first.
- BenjaminiHochberg.ArgSort is a stable sort, while `np.argsort` is not. `BHAnySortingOrder` proves that every sorting permutation gives the same q-values, so nothing depends on this choice.
- Ranking.SortBy is a stable insertion sort. pandas' tie order beyond the (q_value, p_value) key is not modelled.
- Ranking.NSmallest keeps tied rows in table order, as nsmallest's `keep="first"` does. Python's handling of non-integer `top_n` is not modelled, because argparse enforces `int`.
