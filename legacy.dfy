/**
 * The single-module implementation (utils.py): its own column lists,
 * format check and preparation. Its comparisons are `Intra` under the
 * legacy rules, `Inter` and `Similarity`, which it shares with the
 * current application.
 */
module Legacy {
  import opened Wrappers
  import opened Text
  import opened Tables
  import opened Frames
  import Config
  import Genetics
  import Processing

  /** Here the allele columns run up to "Allele 35". */
  const RequiredColumns := Config.IdentificationColumns + Config.AlleleNames(35)

  const ColumnsDropped := ["Sample File", "Panel", "Marker", "Dye", "Allele 31", "Allele 32", "Unnamed: 39"]

  /** `validate_file_format`: the required columns the table lacks, in order. */
  function ValidateFileFormat(t: Table): (missing: seq<string>)
    ensures forall c :: c in missing <==> c in RequiredColumns && c !in t.columns
    ensures IsSubseq(missing, RequiredColumns)
    ensures missing == [] <==> forall c :: c in RequiredColumns ==> c in t.columns
  {
    MissingColumns(t.columns, RequiredColumns)
  }

  /** The required list extends the current one by the single column "Allele 35". */
  lemma RequiredColumnsExtendCurrent()
    ensures RequiredColumns == Config.RequiredColumns + [Config.AlleleName(35)]
    ensures |RequiredColumns| == 40
  {
    assert Config.AlleleNames(35) == Config.AlleleNames(34) + [Config.AlleleName(35)];
  }

  /**
   * A table the legacy check accepts passes the current check too, and the
   * only column the current check does not ask for is "Allele 35".
   */
  lemma LegacyCheckIsStricter(t: Table)
    ensures ValidateFileFormat(t) == [] ==> Processing.ValidateFileFormat(t) == []
    ensures forall c :: c in ValidateFileFormat(t) && c !in Processing.ValidateFileFormat(t) ==> c == Config.AlleleName(35)
  {
    RequiredColumnsExtendCurrent();
  }

  /**
   * `prepare_data`: drop the unused columns, then derive every sample. It
   * gives the same prepared frame as the current application's processor
   * followed by its analyser.
   */
  function PrepareData(t: Table, sha1: Genetics.Hasher): (f: Frame)
    requires "Sample Name" in t.columns
    ensures "Sample Name" in Processing.PrepareData(t).columns
    ensures f == Genetics.Prepare(Processing.PrepareData(t), sha1)
  {
    Genetics.Prepare(DropColumns(t, ColumnsDropped), sha1)
  }
}
