/**
 * The two cohorts: the merged rows whose group column equals group1, and
 * those whose group column equals group2, each in merged order.
 */
module Groups {
  import opened Tables
  import opened Alignment
  import Seqs

  /** The row's group cell equals the label. The label is text, so a numeric cell never matches it. */
  function InGroup(column: string, value: string): Joined -> bool
  {
    (row: Joined) => Cell(row.meta, column) == Text(value)
  }

  /** The merged rows whose group cell equals the label, in merged order. */
  function Cohort(merged: seq<Joined>, column: string, value: string): (g: seq<Joined>)
    ensures forall row :: row in g <==> row in merged && Cell(row.meta, column) == Text(value)
    ensures forall row :: multiset(g)[row] == if Cell(row.meta, column) == Text(value) then multiset(merged)[row] else 0
    ensures Seqs.IsSubsequence(g, merged)
  {
    Seqs.Filter(merged, InGroup(column, value))
  }

  /** The rows that belong to neither cohort. */
  function Excluded(merged: seq<Joined>, column: string, group1: string, group2: string): (x: seq<Joined>)
    ensures forall row :: row in x <==>
      row in merged && Cell(row.meta, column) != Text(group1) && Cell(row.meta, column) != Text(group2)
  {
    Seqs.Filter(merged, Seqs.Neither(InGroup(column, group1), InGroup(column, group2)))
  }

  /** The two cohorts, or an error reporting both sizes when either is empty. */
  function Partition(merged: seq<Joined>, column: string, group1: string, group2: string)
    : (r: Result<(seq<Joined>, seq<Joined>)>)
    ensures r.Ok? <==>
      && (exists row :: row in merged && Cell(row.meta, column) == Text(group1))
      && (exists row :: row in merged && Cell(row.meta, column) == Text(group2))
    ensures r.Ok? ==> r.value.0 == Cohort(merged, column, group1) && r.value.1 == Cohort(merged, column, group2)
    ensures r.Ok? ==> r.value.0 != [] && r.value.1 != []
    ensures r.Err? ==>
      r.error == EmptyGroup(group1, |Cohort(merged, column, group1)|, group2, |Cohort(merged, column, group2)|)
  {
    var g1 := Cohort(merged, column, group1);
    var g2 := Cohort(merged, column, group2);
    if g1 == [] || g2 == [] then
      Err(EmptyGroup(group1, |g1|, group2, |g2|))
    else
      assert g1[0] in g1 && g2[0] in g2;
      Ok((g1, g2))
  }

  /** For two different labels no row is in both cohorts. */
  lemma CohortsDisjoint(merged: seq<Joined>, column: string, group1: string, group2: string)
    requires group1 != group2
    ensures forall row :: !(row in Cohort(merged, column, group1) && row in Cohort(merged, column, group2))
  {
  }

  /** For two different labels, the cohorts and the excluded rows split the merged table exactly. */
  lemma PartitionSizes(merged: seq<Joined>, column: string, group1: string, group2: string)
    requires group1 != group2
    ensures |Cohort(merged, column, group1)| + |Cohort(merged, column, group2)|
          + |Excluded(merged, column, group1, group2)| == |merged|
  {
    Seqs.FilterSplit(merged, InGroup(column, group1), InGroup(column, group2));
  }
}
