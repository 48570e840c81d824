/**
 * `IdentityVigilanceService` (src/services/identity_vigilance.py): it keeps
 * the table of its data processor and of its genetic analyser, and runs the
 * comparisons on a prepared frame handed to it.
 */
module Service {
  import opened Wrappers
  import opened Text
  import opened Tables
  import opened Frames
  import Genetics
  import Processing
  import Intra
  import Inter
  import Similarity

  const IntraDisplayColumns := ["Patient", "Sample Name", "Genre", "status_description", "status_type"]
  const InterDisplayColumns := ["Patient", "Sample Name", "Genre"]

  /** Python's text of a list of strings, e.g. "['Allele 1', 'Dye']". */
  function ListText(items: seq<string>): (r: string)
    ensures |r| >= 2 && r[0] == '[' && r[|r| - 1] == ']'
    ensures r == "[]" <==> items == []
  {
    "[" + Genetics.JoinQuoted(items) + "]"
  }

  /** The message names the missing columns unambiguously: different lists give different texts. */
  lemma ListTextInjective(a: seq<string>, b: seq<string>)
    requires ListText(a) == ListText(b)
    ensures a == b
  {
    assert Genetics.JoinQuoted(a) + "]" == ListText(a)[1..] == Genetics.JoinQuoted(b) + "]";
    Genetics.JoinQuotedDelimited(a, b, "]", "]");
  }

  const FormatErrorPrefix := "Le fichier ne semble pas au bon format.\n\nColonnes manquantes : "

  /**
   * `format_intra_comparison`: the five display columns, then the "Locus"
   * columns in table order; the rows are kept.
   */
  function FormatIntraComparison(f: Frame): (r: Frame)
    requires HasColumns(f, IntraDisplayColumns)
    ensures r.rows == f.rows
    ensures |r.columns| == 5 + |Processing.LocusColumns(f.columns)|
    ensures r.columns[..5] == IntraDisplayColumns
    ensures forall c :: c in r.columns[5..] <==> c in f.columns && StartsWith(c, "Locus")
    ensures forall c :: c in r.columns ==> c in f.columns
  {
    Frame(IntraDisplayColumns + Processing.LocusColumns(f.columns), f.rows)
  }

  /**
   * `format_inter_comparison`: the identification columns, the "Locus"
   * columns in table order, then the signature hash; the rows are kept.
   */
  function FormatInterComparison(f: Frame): (r: Frame)
    requires HasColumns(f, InterDisplayColumns + ["signature_hash"])
    ensures r.rows == f.rows
    ensures |r.columns| == 4 + |Processing.LocusColumns(f.columns)|
    ensures r.columns[..3] == InterDisplayColumns && r.columns[|r.columns| - 1] == "signature_hash"
    ensures forall c :: c in r.columns[3..|r.columns| - 1] <==> c in f.columns && StartsWith(c, "Locus")
    ensures forall c :: c in r.columns ==> c in f.columns
  {
    Frame(InterDisplayColumns + Processing.LocusColumns(f.columns) + ["signature_hash"], f.rows)
  }

  /** The columns that the intra pipeline reads, merges and displays. */
  predicate IntraReady(f: Frame) {
    Intra.HasIntraColumns(f) && HasColumns(f, IntraDisplayColumns)
  }

  /** The columns that the inter pipeline reads, merges and displays. */
  predicate InterReady(f: Frame) {
    HasColumns(f, ["signature", "signature_len", "signature_hash", "Patient", "Sample Name", "Genre"] + Inter.DroppedAfter)
  }

  /** None of the display columns is an allele column, so the merge keeps them all. */
  lemma DisplayColumnsAreNotAlleles()
    ensures forall c :: c in IntraDisplayColumns + ["signature_hash"] ==> !Processing.IsAlleleColumn(c)
  {
    forall c | c in IntraDisplayColumns + ["signature_hash"] ensures !Processing.IsAlleleColumn(c) {
      assert c[0] != 'A';
    }
  }

  /** The colliding rows keep the identification columns and the hash. */
  lemma InterFrameKeepsDisplayColumns(f: Frame)
    requires InterReady(f) && Inter.InterRows(f.rows) != []
    ensures HasColumns(Inter.InterFrame(f), InterDisplayColumns + ["signature_hash"])
    ensures (DisplayColumnsAreNotAlleles(); HasColumns(Processing.Merged(Inter.InterFrame(f)), InterDisplayColumns + ["signature_hash"]))
  {
    DisplayColumnsAreNotAlleles();
    InterColumnsKeepDisplay(f.columns);
    assert Inter.InterFrame(f).columns == Inter.InterColumns(f.columns);
  }

  /** No display column is one of the helper columns the inter comparison drops. */
  lemma InterColumnsKeepDisplay(cols: seq<string>)
    ensures forall c :: c in InterDisplayColumns + ["signature_hash"] && c in cols ==> c in Inter.InterColumns(cols)
  {
    assert "Sample Name"[1] != "status_type"[1];
  }

  class IdentityVigilanceService {
    /** The table of `data_processor`. */
    var processorTable: Table
    /** The table of `genetic_analyzer`. */
    var analyzerTable: Table

    /** Both helpers start on an empty frame. */
    constructor()
      ensures processorTable == Table([], []) && analyzerTable == Table([], [])
    {
      processorTable := Table([], []);
      analyzerTable := Table([], []);
    }

    /**
     * `load_and_validate_file` once the file is read into `df`: the
     * processor takes the table, and the table comes back only when no
     * required column is missing; otherwise the message lists the missing ones.
     */
    method LoadAndValidateFile(df: Table) returns (r: Option<Table>, error: Option<string>)
      modifies this
      ensures processorTable == df && analyzerTable == old(analyzerTable)
      ensures r.Some? <==> Processing.ValidateFileFormat(df) == []
      ensures r.Some? ==> r.value == df && error.None?
      ensures r.None? ==> error == Some(FormatErrorPrefix + ListText(Processing.ValidateFileFormat(df)))
    {
      processorTable := df;
      var missing := Processing.ValidateFileFormat(processorTable);
      if missing != [] {
        r, error := None, Some(FormatErrorPrefix + ListText(missing));
      } else {
        r, error := Some(df), None;
      }
    }

    /**
     * `prepare_data`: the argument is not read; the processor's own table is
     * cleaned, handed to a new analyser, and derived.
     */
    method PrepareData(df: Table, sha1: Genetics.Hasher) returns (prepared: Frame)
      requires "Sample Name" in processorTable.columns
      modifies this
      ensures processorTable == old(processorTable)
      ensures analyzerTable == Processing.PrepareData(processorTable)
      ensures prepared == Genetics.Prepare(analyzerTable, sha1)
    {
      var cleaned := Processing.PrepareData(processorTable);
      analyzerTable := cleaned;
      prepared := Genetics.PrepareData(analyzerTable, sha1);
    }

    /**
     * `perform_intra_comparison`: the current rules, the clean-control flag
     * read on the judged rows, the merge and the display columns; the count
     * is the number of rows in error.
     */
    method PerformIntraComparison(prepared: Frame) returns (df: Frame, errorCount: nat, negControlClean: bool)
      requires IntraReady(prepared)
      ensures (DisplayColumnsAreNotAlleles(); df == FormatIntraComparison(Processing.Merged(Frame(prepared.columns, Intra.IntraRows(Intra.Current, prepared.rows)))))
      ensures errorCount == Intra.ErrorCount(Intra.IntraRows(Intra.Current, prepared.rows))
      ensures errorCount == multiset(Intra.Statuses(df.rows))[Error]
      ensures negControlClean == Intra.NegControlClean(prepared.rows)
    {
      var intra := Intra.IntraComparison(Intra.Current, prepared);
      negControlClean := Intra.NegControlClean(intra.rows);
      Intra.NegControlCleanAfterIntra(Intra.Current, prepared.rows);
      var merged := Processing.MergeGenotypes(intra);
      DisplayColumnsAreNotAlleles();
      df := FormatIntraComparison(merged);
      MergeKeepsStatuses(intra);
      errorCount := Intra.ErrorCount(df.rows);
    }

    /**
     * `perform_inter_comparison`: the count is the number of colliding rows;
     * an empty result is neither merged nor formatted.
     */
    method PerformInterComparison(prepared: Frame) returns (df: Frame, errorCount: nat)
      requires InterReady(prepared)
      ensures errorCount == |Inter.InterRows(prepared.rows)|
      ensures errorCount == 0 ==> df == Frame([], [])
      ensures errorCount > 0 ==>
        (InterFrameKeepsDisplayColumns(prepared); df == FormatInterComparison(Processing.Merged(Inter.InterFrame(prepared))))
    {
      df := Inter.InterComparison(prepared);
      errorCount := |df.rows|;
      if df.rows != [] {
        InterFrameKeepsDisplayColumns(prepared);
        var merged := Processing.MergeGenotypes(df);
        DisplayColumnsAreNotAlleles();
        df := FormatInterComparison(merged);
      }
    }

    /**
     * `_sample_heatmap`: the compared columns are the analyser's allele
     * columns and "Genre"; reading "Sample Name" or selecting a compared
     * column the frame lacks raises, so the frame must hold them all.
     */
    method SampleHeatmap(prepared: Frame) returns (names: seq<Cell>, m: array2<Option<real>>)
      requires HasColumns(prepared, ["Sample Name", "Genre"])
      requires forall c :: c in Genetics.AlleleColumns(analyzerTable.columns) ==> c in prepared.columns
      ensures names == Similarity.SampleNames(prepared.rows)
      ensures fresh(m) && m.Length0 == |names| && m.Length1 == |names|
      ensures forall i, j :: 0 <= i < |names| && 0 <= j < |names| ==>
        m[i, j] == Similarity.Identity(prepared.rows,
                     Similarity.HeatmapColumns(Genetics.AlleleColumns(analyzerTable.columns)), names[i], names[j])
    {
      names, m := Similarity.SampleHeatmap(prepared.rows,
                     Similarity.HeatmapColumns(Genetics.AlleleColumns(analyzerTable.columns)));
    }

    /** `generate_heatmap`: no figure exactly when the frame has no rows. */
    method GenerateHeatmap(prepared: Frame) returns (matrix: Option<array2<Option<real>>>)
      requires HasColumns(prepared, ["Sample Name", "Genre"])
      requires forall c :: c in Genetics.AlleleColumns(analyzerTable.columns) ==> c in prepared.columns
      ensures matrix.None? <==> prepared.rows == []
      ensures matrix.Some? ==> fresh(matrix.value)
    {
      var names, m := SampleHeatmap(prepared);
      Similarity.NamesEmptyIffNoRows(prepared.rows);
      matrix := if names == [] then None else Some(m);
    }
  }

  /** Merging and formatting rewrite cells and columns only, so the statuses stay. */
  lemma MergeKeepsStatuses(f: Frame)
    ensures Intra.Statuses(Processing.Merged(f).rows) == Intra.Statuses(f.rows)
  {
  }
}
