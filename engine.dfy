/**
 * `ComparisonEngine` (src/data/comparison.py): it prepares its table once,
 * at construction, and answers the intra, inter and heatmap queries from
 * that prepared frame.
 */
module Engine {
  import opened Wrappers
  import opened Text
  import opened Tables
  import opened Frames
  import Genetics
  import Processing
  import Intra
  import Inter
  import Similarity

  /** `get_intra_column_order`: identification and description, the loci, then the status at the end. */
  function IntraColumnOrder(cols: seq<string>): (order: seq<string>)
    ensures |order| == |Processing.LocusColumns(cols)| + 5
    ensures order[..4] == ["Patient", "Sample Name", "Genre", "status_description"]
    ensures order[|order| - 1] == "status_type"
    ensures forall c :: c in order[4..|order| - 1] <==> c in cols && StartsWith(c, "Locus")
  {
    ["Patient", "Sample Name", "Genre", "status_description"] + Processing.LocusColumns(cols) + ["status_type"]
  }

  /** `get_inter_column_order`: identification, the loci, then the signature hash at the end. */
  function InterColumnOrder(cols: seq<string>): (order: seq<string>)
    ensures |order| == |Processing.LocusColumns(cols)| + 4
    ensures order[..3] == ["Patient", "Sample Name", "Genre"]
    ensures order[|order| - 1] == "signature_hash"
    ensures forall c :: c in order[3..|order| - 1] <==> c in cols && StartsWith(c, "Locus")
  {
    ["Patient", "Sample Name", "Genre"] + Processing.LocusColumns(cols) + ["signature_hash"]
  }

  /** The prepared frame holds every column the comparisons read. */
  lemma PreparedHasDerivedColumns(t: Table, sha1: Genetics.Hasher)
    requires "Sample Name" in t.columns
    ensures forall c :: c in DerivedColumns || c in t.columns ==> c in Genetics.Prepare(t, sha1).columns
    ensures Intra.HasIntraColumns(Genetics.Prepare(t, sha1))
  {
  }

  /** Merging rewrites cells only, so the error count is the same before and after. */
  lemma MergeKeepsErrorCount(f: Frame)
    ensures Intra.ErrorCount(Processing.Merged(f).rows) == Intra.ErrorCount(f.rows)
  {
    assert Intra.Statuses(Processing.Merged(f).rows) == Intra.Statuses(f.rows);
  }

  const IntraFixedColumns := ["Patient", "Sample Name", "Genre", "status_description", "status_type"]

  /** After the merge, every column that the intra display order names exists. */
  lemma IntraOrderFitsMergedColumns(cols: seq<string>, k: nat)
    requires forall c :: c in IntraFixedColumns ==> c in cols
    ensures forall c :: c in IntraColumnOrder(Processing.MergedColumns(cols, k)) ==> c in Processing.MergedColumns(cols, k)
  {
    Processing.MergedColumnsContents(cols, k);
    IntraOrderMembers(Processing.MergedColumns(cols, k));
    FixedColumnsAreNotAlleles();
  }

  /** The intra order names the fixed columns and the "Locus" columns of the frame, nothing else. */
  lemma IntraOrderMembers(cols: seq<string>)
    ensures forall c :: c in IntraColumnOrder(cols) ==> c in IntraFixedColumns || c in Processing.LocusColumns(cols)
  {
  }

  lemma FixedColumnsAreNotAlleles()
    ensures forall c :: c in IntraFixedColumns ==> !Processing.IsAlleleColumn(c)
  {
    forall c | c in IntraFixedColumns ensures !Processing.IsAlleleColumn(c) {
      assert c[0] != 'A';
    }
  }

  class ComparisonEngine {
    const data: Table
    const sha1: Genetics.Hasher
    const preparedData: Frame

    /** The prepared frame has the columns that the comparisons read. */
    predicate Ready() {
      Intra.HasIntraColumns(preparedData) && HasColumns(preparedData, ["Sample Name", "signature_hash"] + Inter.DroppedAfter)
    }

    constructor(data: Table, sha1: Genetics.Hasher)
      requires "Sample Name" in data.columns
      ensures this.data == data && this.sha1 == sha1
      ensures preparedData == Genetics.Prepare(Processing.PrepareData(data), sha1)
      ensures Ready()
    {
      this.data := data;
      this.sha1 := sha1;
      var cleaned := Processing.PrepareData(data);
      PreparedHasDerivedColumns(cleaned, sha1);
      var prepared := Genetics.PrepareData(cleaned, sha1);
      this.preparedData := prepared;
    }

    /** `perform_intra_comparison`: the current rules, the merge, then the error count. */
    method PerformIntraComparison() returns (df: Frame, errorCount: nat)
      requires Ready()
      ensures df == Processing.Merged(Frame(preparedData.columns, Intra.IntraRows(Intra.Current, preparedData.rows)))
      ensures errorCount == Intra.ErrorCount(Intra.IntraRows(Intra.Current, preparedData.rows))
      ensures errorCount == multiset(Intra.Statuses(df.rows))[Error]
    {
      var intra := Intra.IntraComparison(Intra.Current, preparedData);
      df := Processing.MergeGenotypes(intra);
      MergeKeepsErrorCount(intra);
      errorCount := Intra.ErrorCount(df.rows);
    }

    /**
     * `perform_inter_comparison`: the count is the number of colliding rows,
     * taken before the merge; an empty result is not merged.
     */
    method PerformInterComparison() returns (df: Frame, errorCount: nat)
      requires Ready()
      ensures errorCount == |Inter.InterRows(preparedData.rows)|
      ensures errorCount == 0 ==> df == Frame([], [])
      ensures errorCount > 0 ==> df == Processing.Merged(Inter.InterFrame(preparedData))
    {
      df := Inter.InterComparison(preparedData);
      errorCount := |df.rows|;
      if df.rows != [] {
        df := Processing.MergeGenotypes(df);
      }
    }

    /** `_sample_heatmap` on the prepared frame: its allele columns and "Genre". */
    method SampleHeatmap() returns (names: seq<Cell>, m: array2<Option<real>>)
      requires Ready()
      ensures names == Similarity.SampleNames(preparedData.rows)
      ensures fresh(m) && m.Length0 == |names| && m.Length1 == |names|
      ensures forall i, j :: 0 <= i < |names| && 0 <= j < |names| ==>
        m[i, j] == Similarity.Identity(preparedData.rows,
                     Similarity.HeatmapColumns(Genetics.AlleleColumns(preparedData.columns)), names[i], names[j])
    {
      names, m := Similarity.SampleHeatmap(preparedData.rows,
                     Similarity.HeatmapColumns(Genetics.AlleleColumns(preparedData.columns)));
    }

    /** `generate_heatmap`: no figure for an empty matrix, which happens exactly when there are no rows. */
    method GenerateHeatmap() returns (matrix: Option<array2<Option<real>>>)
      requires Ready()
      ensures matrix.None? <==> preparedData.rows == []
      ensures matrix.Some? ==> fresh(matrix.value)
    {
      var names, m := SampleHeatmap();
      Similarity.NamesEmptyIffNoRows(preparedData.rows);
      if names == [] {
        matrix := None;
      } else {
        matrix := Some(m);
      }
    }
  }
}
