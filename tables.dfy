/**
 * The two input tables as the analysis sees them after pandas.read_csv: an
 * ordered list of column names and a list of rows, each row a mapping from
 * column name to cell value; and the ways the analysis can stop with an error.
 */
module Tables {

  /** A cell: an empty cell (NaN), a number, or text. */
  datatype Value = Missing | Number(x: real) | Text(s: string)

  type Row = map<string, Value>

  datatype Table = Table(columns: seq<string>, rows: seq<Row>)

  /** The key column both tables must carry. */
  const SAMPLE_ID: string := "SampleID"

  /** row[column], reading a cell the row does not carry as empty. */
  function Cell(row: Row, column: string): Value
  {
    if column in row then row[column] else Missing
  }

  /** The SampleID column of a table, in row order. */
  function SampleIds(rows: seq<Row>): (ids: seq<Value>)
    ensures |ids| == |rows|
    ensures forall k :: 0 <= k < |rows| ==> ids[k] == Cell(rows[k], SAMPLE_ID)
  {
    if rows == [] then [] else [Cell(rows[0], SAMPLE_ID)] + SampleIds(rows[1..])
  }

  datatype TableName = AbundanceTable | MetadataTable

  /** Each way the analysis stops; all are fatal and no output is written after them. */
  datatype Failure =
      /** ValueError: a required column is absent. */
    | MissingColumn(table: TableName, column: string)
      /** SystemExit: the two SampleID sets differ; both lists are sorted. */
    | SampleMismatch(missingInAbundance: seq<Value>, missingInMetadata: seq<Value>)
      /** ValueError: a cohort has no rows; the sizes found are reported. */
    | EmptyGroup(group1: string, size1: nat, group2: string, size2: nat)
      /** ValueError from astype(float): an abundance cell of a cohort is not a number. */
    | NonNumeric(feature: string)
      /** ZeroDivisionError: mean1 + eps is zero. */
    | ZeroDenominator(feature: string)
      /** KeyError: with no feature columns the results table has no p_value column. */
    | NoFeatures

  datatype Result<T> = Ok(value: T) | Err(error: Failure)

  /** Runs the steps in order: all their values, or the error of the first step that fails. */
  function Collect<T>(rs: seq<Result<T>>): (r: Result<seq<T>>)
    ensures r.Ok? <==> forall k :: 0 <= k < |rs| ==> rs[k].Ok?
    ensures r.Ok? ==> |r.value| == |rs|
    ensures r.Ok? ==> forall k :: 0 <= k < |rs| ==> rs[k] == Ok(r.value[k])
    ensures r.Err? ==>
      exists k :: 0 <= k < |rs| &&
        (forall j :: 0 <= j < k ==> rs[j].Ok?) &&
        rs[k] == Err(r.error)
  {
    if rs == [] then Ok([])
    else
      match rs[0]
      case Err(e) => Err(e)
      case Ok(v) =>
        match Collect(rs[1..])
        case Err(e) =>
          var k :| 0 <= k < |rs[1..]| && (forall j :: 0 <= j < k ==> rs[1..][j].Ok?) && rs[1..][k] == Err(e);
          assert rs[k + 1] == Err(e);
          Err(e)
        case Ok(vs) => Ok([v] + vs)
  }
}
