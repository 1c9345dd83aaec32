/**
 * Sample alignment: the required-column checks, the two SampleID set
 * differences that make a mismatch fatal, and the inner merge of the metadata
 * table with the abundance table on SampleID.
 */
module Alignment {
  import opened Tables
  import opened IdOrder
  import Seqs

  /**
   * One row of the merged table: the metadata row and the abundance row that
   * share its SampleID, kept side by side.
   */
  datatype Joined = Joined(meta: Row, abund: Row)

  /** The SampleID column of the merged table. */
  function JoinedIds(js: seq<Joined>): (ids: seq<Value>)
    ensures |ids| == |js|
    ensures forall k :: 0 <= k < |js| ==> ids[k] == Cell(js[k].meta, SAMPLE_ID)
  {
    if js == [] then [] else [Cell(js[0].meta, SAMPLE_ID)] + JoinedIds(js[1..])
  }

  lemma {:induction false} JoinedIdsAppend(a: seq<Joined>, b: seq<Joined>)
    ensures JoinedIds(a + b) == JoinedIds(a) + JoinedIds(b)
  {
    if a != [] {
      assert (a + b)[1..] == a[1..] + b;
      JoinedIdsAppend(a[1..], b);
    }
  }

  ghost predicate NoDuplicates(s: seq<Value>)
  {
    forall k, l :: 0 <= k < l < |s| ==> s[k] != s[l]
  }

  function NotIn(have: seq<Value>): Value -> bool
  {
    x => x !in have
  }

  /** The identifiers of `want` absent from `have`, distinct and in ascending order. */
  function MissingIds(have: seq<Value>, want: seq<Value>): (r: seq<Value>)
    ensures StrictlyIncreasing(r)
    ensures forall x :: x in r <==> x in want && x !in have
  {
    SortedSet(Seqs.Filter(want, NotIn(have)))
  }

  /** No identifier is missing exactly when every wanted identifier is had. */
  lemma MissingIdsEmpty(have: seq<Value>, want: seq<Value>)
    ensures MissingIds(have, want) == [] <==> forall x :: x in want ==> x in have
  {
    var r := MissingIds(have, want);
    if r != [] {
      assert r[0] in r;
    }
  }

  /** The merged rows for one metadata row: one per abundance row with its SampleID, in abundance order. */
  function MatchesOf(m: Row, ab: seq<Row>): (r: seq<Joined>)
    ensures forall j :: j in r ==> j.meta == m && j.abund in ab && Cell(j.abund, SAMPLE_ID) == Cell(m, SAMPLE_ID)
    ensures forall x :: x in JoinedIds(r) <==> x == Cell(m, SAMPLE_ID) && x in SampleIds(ab)
  {
    if ab == [] then []
    else
      var rest := MatchesOf(m, ab[1..]);
      assert SampleIds(ab) == [Cell(ab[0], SAMPLE_ID)] + SampleIds(ab[1..]);
      if Cell(ab[0], SAMPLE_ID) == Cell(m, SAMPLE_ID) then
        JoinedIdsAppend([Joined(m, ab[0])], rest);
        [Joined(m, ab[0])] + rest
      else rest
  }

  /** The inner join of the metadata rows with the abundance rows on SampleID: metadata order, then abundance order. */
  function Merge(md: seq<Row>, ab: seq<Row>): (r: seq<Joined>)
    ensures forall j :: j in r ==> j.meta in md && j.abund in ab && Cell(j.abund, SAMPLE_ID) == Cell(j.meta, SAMPLE_ID)
    ensures forall x :: x in JoinedIds(r) <==> x in SampleIds(md) && x in SampleIds(ab)
  {
    if md == [] then []
    else
      var first := MatchesOf(md[0], ab);
      var rest := Merge(md[1..], ab);
      assert SampleIds(md) == [Cell(md[0], SAMPLE_ID)] + SampleIds(md[1..]);
      JoinedIdsAppend(first, rest);
      first + rest
  }

  /** With unique abundance IDs, a metadata row whose ID is present meets exactly one abundance row. */
  lemma {:induction false} MatchesOfUnique(m: Row, ab: seq<Row>)
    requires NoDuplicates(SampleIds(ab))
    requires Cell(m, SAMPLE_ID) in SampleIds(ab)
    ensures |MatchesOf(m, ab)| == 1 && MatchesOf(m, ab)[0].meta == m
  {
    var ids := SampleIds(ab);
    assert ids == [Cell(ab[0], SAMPLE_ID)] + SampleIds(ab[1..]);
    var tail := SampleIds(ab[1..]);
    assert NoDuplicates(tail) by {
      forall k, l | 0 <= k < l < |tail|
        ensures tail[k] != tail[l]
      {
        assert tail[k] == ids[k + 1] && tail[l] == ids[l + 1];
      }
    }
    if Cell(ab[0], SAMPLE_ID) == Cell(m, SAMPLE_ID) {
      assert Cell(m, SAMPLE_ID) !in tail by {
        forall k | 0 <= k < |tail|
          ensures tail[k] != Cell(m, SAMPLE_ID)
        {
          assert tail[k] == ids[k + 1];
        }
      }
      var rest := MatchesOf(m, ab[1..]);
      if rest != [] {
        assert JoinedIds(rest)[0] in JoinedIds(rest);
      }
    } else {
      MatchesOfUnique(m, ab[1..]);
    }
  }

  /**
   * With unique abundance IDs and every metadata ID present in the abundance
   * table, the merge keeps the metadata rows one for one and in order.
   */
  lemma {:induction false} MergeKeepsMetadataRows(md: seq<Row>, ab: seq<Row>)
    requires NoDuplicates(SampleIds(ab))
    requires forall x :: x in SampleIds(md) ==> x in SampleIds(ab)
    ensures |Merge(md, ab)| == |md|
    ensures forall k :: 0 <= k < |md| ==> Merge(md, ab)[k].meta == md[k]
  {
    if md != [] {
      assert SampleIds(md) == [Cell(md[0], SAMPLE_ID)] + SampleIds(md[1..]);
      MatchesOfUnique(md[0], ab);
      MergeKeepsMetadataRows(md[1..], ab);
      var r := Merge(md, ab);
      assert r == MatchesOf(md[0], ab) + Merge(md[1..], ab);
      forall k | 0 <= k < |md|
        ensures r[k].meta == md[k]
      {
        if k > 0 {
          assert r[k] == Merge(md[1..], ab)[k - 1];
        }
      }
    }
  }

  /**
   * Validation and alignment: the three required columns, the two sorted
   * lists of unmatched IDs (fatal when either is non-empty), then the inner join.
   */
  function Align(ab: Table, md: Table, groupCol: string): (r: Result<seq<Joined>>)
    ensures SAMPLE_ID !in ab.columns ==> r == Err(MissingColumn(AbundanceTable, SAMPLE_ID))
    ensures SAMPLE_ID in ab.columns && SAMPLE_ID !in md.columns ==> r == Err(MissingColumn(MetadataTable, SAMPLE_ID))
    ensures SAMPLE_ID in ab.columns && SAMPLE_ID in md.columns && groupCol !in md.columns ==>
      r == Err(MissingColumn(MetadataTable, groupCol))
    ensures r.Ok? <==>
      && SAMPLE_ID in ab.columns && SAMPLE_ID in md.columns && groupCol in md.columns
      && (forall x :: x in SampleIds(ab.rows) <==> x in SampleIds(md.rows))
    ensures SAMPLE_ID in ab.columns && SAMPLE_ID in md.columns && groupCol in md.columns && r.Err? ==>
      r.error.SampleMismatch?
    ensures r.Err? && r.error.SampleMismatch? ==>
      && StrictlyIncreasing(r.error.missingInAbundance)
      && StrictlyIncreasing(r.error.missingInMetadata)
      && (forall x :: x in r.error.missingInAbundance <==> x in SampleIds(md.rows) && x !in SampleIds(ab.rows))
      && (forall x :: x in r.error.missingInMetadata <==> x in SampleIds(ab.rows) && x !in SampleIds(md.rows))
      && (r.error.missingInAbundance != [] || r.error.missingInMetadata != [])
    ensures r.Ok? ==> r.value == Merge(md.rows, ab.rows)
    ensures r.Ok? ==> forall x :: x in JoinedIds(r.value) <==> x in SampleIds(md.rows)
  {
    if SAMPLE_ID !in ab.columns then Err(MissingColumn(AbundanceTable, SAMPLE_ID))
    else if SAMPLE_ID !in md.columns then Err(MissingColumn(MetadataTable, SAMPLE_ID))
    else if groupCol !in md.columns then Err(MissingColumn(MetadataTable, groupCol))
    else
      var abIds := SampleIds(ab.rows);
      var mdIds := SampleIds(md.rows);
      var missingInAbundance := MissingIds(abIds, mdIds);
      var missingInMetadata := MissingIds(mdIds, abIds);
      MissingIdsEmpty(abIds, mdIds);
      MissingIdsEmpty(mdIds, abIds);
      if missingInAbundance != [] || missingInMetadata != [] then
        Err(SampleMismatch(missingInAbundance, missingInMetadata))
      else
        Ok(Merge(md.rows, ab.rows))
  }
}
