/** The fixed configuration of the current application (src/utils/config.py). */
module Config {
  import opened Text

  /** Prefix of every allele-call column. */
  const AllelePrefix := "Allele"

  /** The two allele slots that carry the sex markers. */
  const GenderAllelesX := "Allele 29"
  const GenderAllelesY := "Allele 30"

  /** A sample whose lowercased name contains one of these is a negative control. */
  const NegativeKeywords := ["neg", "tem"]

  const IdentificationColumns := ["Sample File", "Sample Name", "Panel", "Marker", "Dye"]

  /** `f"Allele {i}"`. */
  function AlleleName(i: nat): string {
    "Allele " + NatToString(i)
  }

  /** `[f"Allele {i}" for i in range(1, n + 1)]`. */
  function AlleleNames(n: nat): (r: seq<string>)
    ensures |r| == n
    ensures forall i :: 0 <= i < n ==> r[i] == AlleleName(i + 1)
  {
    seq(n, i requires 0 <= i < n => AlleleName(i + 1))
  }

  const RequiredColumns := IdentificationColumns + AlleleNames(34)

  const ColumnsToDrop := ["Sample File", "Panel", "Marker", "Dye", "Allele 31", "Allele 32", "Unnamed: 39"]

  lemma SexMarkersAreAlleleSlots()
    ensures GenderAllelesX == AlleleName(29) && GenderAllelesY == AlleleName(30)
    ensures StartsWith(GenderAllelesX, AllelePrefix) && StartsWith(GenderAllelesY, AllelePrefix)
  {
    assert NatToString(29) == "29" by { assert NatToString(2) == "2"; }
    assert NatToString(30) == "30" by { assert NatToString(3) == "3"; }
  }

  lemma RequiredColumnsShape()
    ensures |RequiredColumns| == 39
    ensures RequiredColumns[..5] == IdentificationColumns
    ensures forall i :: 1 <= i <= 34 ==> RequiredColumns[4 + i] == AlleleName(i)
    ensures GenderAllelesX in RequiredColumns && GenderAllelesY in RequiredColumns
  {
    SexMarkersAreAlleleSlots();
    assert RequiredColumns[33] == AlleleName(29);
    assert RequiredColumns[34] == AlleleName(30);
  }

  lemma ColumnsToDropShape()
    ensures |ColumnsToDrop| == 7
    ensures "Allele 31" in ColumnsToDrop && "Allele 32" in ColumnsToDrop && "Unnamed: 39" in ColumnsToDrop
    ensures GenderAllelesX !in ColumnsToDrop && GenderAllelesY !in ColumnsToDrop
    ensures "Sample Name" !in ColumnsToDrop
  {
  }
}

/** The constants of the legacy modules (constants.py), defined there a second time. */
module Constants {
  import opened Text
  import Config

  const AllelePrefix := "Allele"
  const GenderAllelesX := "Allele 29"
  const GenderAllelesY := "Allele 30"
  const NegativeKeywords := ["neg", "tem"]
  const RequiredColumns := ["Sample File", "Sample Name", "Panel", "Marker", "Dye"]
    + seq(34, i requires 0 <= i < 34 => "Allele " + NatToString(i + 1))
  const ColumnsToDrop := ["Sample File", "Panel", "Marker", "Dye", "Allele 31", "Allele 32", "Unnamed: 39"]

  /** The two copies of the configuration agree value for value. */
  lemma AgreesWithConfig()
    ensures AllelePrefix == Config.AllelePrefix
    ensures GenderAllelesX == Config.GenderAllelesX && GenderAllelesY == Config.GenderAllelesY
    ensures NegativeKeywords == Config.NegativeKeywords
    ensures RequiredColumns == Config.RequiredColumns
    ensures ColumnsToDrop == Config.ColumnsToDrop
  {
    assert RequiredColumns[5..] == Config.AlleleNames(34);
  }
}
