# snpxcheck identity vigilance, modelled in Dafny

snpxcheck checks the identity of samples typed on an SNPXPlex panel. A
GeneMapper export has one row per sample, with allele calls in the
"Allele 1" … "Allele 35" columns. Allele slots 29 and 30 carry the sex
markers. The engine works in five stages:

1. It checks the table's columns and drops the ones it never uses.
2. It derives, for every sample:
   - its **signature**, the ordered tuple of non-empty allele calls;
   - the SHA-1 of the signature's text;
   - its sex ("Genre");
   - its **Patient** key, the sample name without a "bis"/"ter" replicate suffix;
   - whether it is a **negative control**.
3. The intra comparison gives every row one status (success, warning, info
   or error), decided per Patient group. It also counts the errors and sets
   the "negative controls are clean" flag.
4. The inter comparison reports every signature-hash bucket shared by more
   than one Patient.
5. Output shaping:
   - allele pairs are merged into "Locus k" genotypes;
   - a percent-identity matrix is built between sample names;
   - two display helpers colour rows by status and insert blank rows
     between groups.

The model follows the program's structure, one module per concern:

| file | module | contents |
|---|---|---|
| `wrappers.dfy`, `text.dfy` | `Wrappers`, `Text` | `Option`. Python string operations (`strip`, `lower`, `in`, `replace`, `split("_")[-1]`), code-point string order, sorted key lists |
| `tables.dfy`, `frames.dfy` | `Tables`, `Frames` | The raw table (a pandas NaN is `None`). The prepared frame of `Sample` records |
| `config.dfy` | `Config`, `Constants` | `src/utils/config.py` and its copy `constants.py` |
| `genetics.dfy` | `Genetics` | `GeneticAnalyzer` (src/data/genetics.py, and its copy genetics.py) |
| `processing.dfy` | `Processing` | `DataProcessor`: format check, column drop, genotype merge |
| `intra.dfy` | `Intra` | The intra comparison under the current rules and under the legacy rules of utils.py |
| `inter.dfy` | `Inter` | The inter comparison |
| `similarity.dfy` | `Similarity` | The sample heatmap matrix |
| `plots.dfy` | `Plots` | `highlight_status`, `insert_blank_rows_between_groups` |
| `legacy.dfy` | `Legacy` | The free functions of utils.py that differ from the current ones |
| `engine.dfy` | `Engine` | `ComparisonEngine` (src/data/comparison.py) |
| `service.dfy` | `Service` | `IdentityVigilanceService` (src/services/identity_vigilance.py) |

## Modelling choices

- **Hashing.** SHA-1 is a parameter `sha1: Hasher`, a function from text to
  40-character digests. The signature's text is Python's `str` of a tuple of
  strings.
- **Imperative loops.** The ones in the source are methods proved against
  specification functions:
  - `Intra.IntraComparison`: the group loop that writes status cells;
  - `Inter.InterComparison`: the bucket loop that appends to `duplicated`;
  - `Processing.MergeGenotypes`: the "Locus k" assignment loop;
  - `Similarity.SampleHeatmap` and `Similarity.CountMatches`: the nested
    counter loops writing an `array2`;
  - `Plots.InsertBlankRowsBetweenGroups`: the `previous_value` loop;
  - `Genetics.PrepareData`: the column-by-column preparation.
- **`df.groupby`.** It visits the keys in sorted order (code-point order on
  strings) and skips rows whose key is NaN.
- **State-holding classes.**
  - `ComparisonEngine` keeps its table and prepared frame as constant fields.
  - `IdentityVigilanceService` keeps the tables of its processor and of its
    analyser as mutable fields, which its methods reassign.
- **The intra guard.** `df.loc[group.index, "status_type"].unique() == "success"`
  has three outcomes:
  - pass (every row is success);
  - block (every row has the same other status);
  - a numpy error (the statuses are mixed).

  `Intra.GuardAsWritten` models all three. The rules use the intended
  reading "every row of the group is still success" (`Intra.StillSuccess`).
  Under the current rules the guard is vacuous, because there is no pre-pass
  and each group is visited once. Under the legacy rules the pre-pass makes
  mixed groups possible (see Findings).

Literal behaviours of the code that the model keeps:

- **Signature filter.** A signature drops every stripped value that is empty or reads "nan" in any case (`a.lower() != "nan"`).
- **Merge normalisation.** It removes every "nan" substring in one left-to-right pass, so "nnanan" becomes "nan".
- **Merge pairing.** It pairs every "Allele"-prefixed column, including the
  sex markers "Allele 29"/"Allele 30". It does not use the signature's
  column list.
- **Missing sample name.** On a missing Sample Name the negative-control
  test raises instead of giving false (see Findings).

## Model

| member | source | states |
|---|---|---|
| Config.AlleleNames | src/utils/config.py:18-20 | the n generated names are "Allele 1" … "Allele n", in order |
| Config.SexMarkersAreAlleleSlots | src/utils/config.py:8-12 | the sex markers are the allele slots 29 (X) and 30 (Y) and carry the "Allele" prefix |
| Config.RequiredColumnsShape | src/utils/config.py:18-20 | 39 required columns: the 5 identification columns, then Allele 1..34, sex markers included |
| Config.ColumnsToDropShape | src/utils/config.py:23-31 | 7 dropped columns, including Allele 31/32 and "Unnamed: 39"; neither sex marker nor "Sample Name" is dropped |
| Constants.AgreesWithConfig | constants.py:1-18 | prefix, sex markers, keywords, required columns and drop list of constants.py equal the configuration's, value for value |
| Tables.MissingColumns | src/data/processing.py:36-39 | a column is reported iff it is required and absent; the report keeps the required order; it is empty iff all are present |
| Tables.DropColumns | src/data/processing.py:67-68 | every listed column present goes, absent ones are ignored, the other columns keep their order and every row keeps its other cells |
| Processing.ValidateFileFormat | src/data/processing.py:30-39 | exactly the configured required columns missing from the table, in configured order; empty iff none is missing |
| Processing.PrepareData | src/data/processing.py:61-69 | the configured columns removed when present; row count and all other cells kept |
| Genetics.AlleleColumns | src/data/genetics.py:38-50 | a column is a signature column iff it is in the table, has the "Allele" prefix and is neither sex marker; table order kept (the copy in genetics.py lines 17-25 behaves the same) |
| Genetics.SexMarkersNotInSignature | src/data/genetics.py:46-49 | "Allele 29" and "Allele 30" are never signature columns |
| Genetics.DetermineSex | src/data/genetics.py:52-69 | Female iff X is "X" and Y is missing or ""; Male iff X is "X" and Y is "Y"; otherwise undetermined, missing columns included (the copy in genetics.py lines 27-37 behaves the same) |
| Genetics.SexOnlyReadsMarkers | src/data/genetics.py:61-62 | rows that agree on the two marker cells get the same sex |
| Text.Strip | src/data/genetics.py:80 | `str.strip()`: the result is empty or starts and ends with a non-whitespace character, and is no longer than the input |
| Text.StripRemovesEdgeSpace | src/data/genetics.py:80 | `str.strip()` removes only edge whitespace: the result is the middle of the text, everything before and after it is whitespace |
| Genetics.StrippedValues | src/data/genetics.py:79 | entry i is the stripped text of allele column i, NaN printed as "nan" |
| Genetics.ComputeSignature | src/data/genetics.py:71-81 | the signature is an order-preserving subsequence of the stripped values holding exactly as many entries as there are kept values (non-empty and not any case of "nan"), so by Genetics.KeptSubseqUnique it is exactly the kept values in column order; empty iff no value survives (the copy in genetics.py lines 39-42 behaves the same) |
| Genetics.KeptOnly | src/data/genetics.py:79-80 | the filter keeps an order-preserving subsequence of its input, all of it kept, one entry per kept input value; empty iff no input value is kept |
| Genetics.KeptSubseqUnique | src/data/genetics.py:79-80 | two subsequences of the same values that are both all kept and both as long as the number of kept values are equal: the filter's result is determined by its contract |
| Genetics.SignatureOnlyReadsAlleleCells | src/data/genetics.py:79-80 | rows that agree on the allele cells have equal signatures |
| Genetics.SignatureIsOrderSensitive | src/data/genetics.py:79-81 | two rows whose cells in allele columns i < j are exchanged (every other allele cell equal), with both values kept and different, have different signatures |
| Genetics.QuoteString | src/data/genetics.py:92 | Python's `repr` of a string: enclosed in one quote character at both ends, double quotes exactly when the text holds a single quote and no double quote; Genetics.QuoteStringDelimited shows it is read back unambiguously |
| Genetics.QuoteStringDelimited | src/data/genetics.py:92 | two texts that start with quoted strings are equal only if the quoted strings and the rests are equal |
| Genetics.EscapeDelimited | src/data/genetics.py:92 | the escaped body of a quoted string ends at its first unescaped quote, so equal escaped texts followed by the quote come from equal strings |
| Genetics.JoinQuotedDelimited | src/data/genetics.py:92 | a comma-separated run of quoted strings followed by a closing text is read back unambiguously: equal texts give equal lists and equal closings |
| Genetics.SignatureText | src/data/genetics.py:92 | `str(signature)`: a parenthesised text, "()" exactly for the empty tuple; Genetics.SignatureTextInjective shows it determines the signature |
| Genetics.SignatureTextInjective | src/data/genetics.py:92 | different signatures have different texts, so the digest is of a text that determines the signature: equal hashes mean equal signatures up to a SHA-1 collision |
| Genetics.SignatureHash | src/data/genetics.py:83-92 | the hash is 40 characters long (the copy in genetics.py lines 44-46 behaves the same) |
| Genetics.EqualSignaturesEqualHashes | src/data/genetics.py:92 | equal signatures give equal hashes |
| Text.Lower | src/data/genetics.py:105 | `str.lower()`: same length, each ASCII capital replaced by its small letter, every other character kept |
| Genetics.IsNegativeControl | src/data/genetics.py:94-106 | true iff the name is present and its lowercase form contains "neg" or "tem"; false for a missing or empty name |
| Genetics.NegativeControlIgnoresCase | src/data/genetics.py:105 | the flag does not change when the name is lowercased |
| Genetics.NegativeControlExamples | src/data/genetics.py:94-106 | "TEST_NeG_cOntRoL" and "temoin_negatif" are controls; a missing or empty name is not |
| Genetics.NegativeControlAsWritten | src/data/genetics.py:103-106 | as written: a missing (NaN) name raises, any other name gives the intended flag; the legacy copies in genetics.py lines 48-51 and utils.py lines 148-158 have no guard at all, so a missing name raises, an empty one gives false and others get the keyword test |
| Genetics.MissingNameRaises | src/data/genetics.py:103-105 | a missing name raises as written, where the intended flag is false |
| Genetics.PatientKey | src/data/genetics.py:125-127 | for a name without a newline, one trailing "bis" or "ter" is removed and any other name is unchanged |
| Genetics.ReplicatesShareKey | src/data/genetics.py:125-127 | n, n+"bis" and n+"ter" share the key n |
| Genetics.PatientKeyExamples | src/data/genetics.py:125-127 | "P1bisbis" gives "P1bis", "Peter" gives "Pe", "P1" stays |
| Genetics.PatientOf | src/data/genetics.py:125-127 | a NaN name gives a NaN Patient; otherwise the Patient is the name's key |
| Genetics.Prepare | src/data/genetics.py:108-134 | the derived columns are appended in order, one sample per input row in order, each derived from its own row (the copy in genetics.py lines 53-73 behaves the same) |
| Genetics.PrepareData | src/data/genetics.py:116-134 | the column-by-column preparation yields exactly the prepared frame |
| Genetics.PrepareAsWritten | src/data/genetics.py:108-134 | as written the preparation fails iff some row has no sample name, and otherwise gives the prepared frame |
| Genetics.NamelessRowAbortsPrepare | src/data/genetics.py:128 | one nameless row aborts the preparation as written; the intended frame gives that row a NaN Patient and no control flag |
| Genetics.PrepareKeepsRows | src/data/genetics.py:116-134 | preparation keeps every input row's cells, sets the signature length (at most the allele-column count) and starts every row as success/"" |
| Genetics.AlleleColumnsIgnoreDerived | src/data/genetics.py:38-50 | appending the derived columns does not change the allele columns |
| Genetics.DeriveIsIdempotentOnSignatures | src/data/genetics.py:116-134 | deriving again on a prepared table's columns gives the same signature and hash |
| Processing.KeepingColumns | src/data/processing.py:78-80 | a column is kept iff it lacks the "Allele" prefix, table order kept |
| Processing.AlleleColumns | src/data/processing.py:83 | a column is merged iff it has the "Allele" prefix, sex markers included, table order kept |
| Processing.Pairs | src/data/processing.py:84-87 | ⌊n/2⌋ pairs of consecutive columns; an odd last column is left out |
| Processing.Normalize | src/data/processing.py:92-93 | the normalised value is never longer than the cell's text |
| Processing.NormalizeContents | src/data/processing.py:92-93 | no "_" survives; a missing cell or one reading "nan" gives ""; a stripped text holding neither "_" nor "nan" is kept as it is |
| Processing.NormalizeMissing | src/data/processing.py:92-93 | a missing cell, or one reading "nan", contributes an empty allele |
| Processing.NormalizeTakesLastField | src/data/processing.py:92-93 | a call "probe_allele" keeps only the allele after the last "_", when the allele holds no "_", no "nan" and no trailing space |
| Text.AfterLast | src/data/processing.py:92-93 | `split("_")[-1]`: a suffix of the text with no "_" in it, preceded by "_" whenever it is shorter than the text |
| Text.RemoveAll | src/data/processing.py:92-93 | `replace("nan", "")`: never longer than the input; the left-to-right, non-overlapping removal is stated by Text.RemoveAllLeftmost and Text.RemoveAllAbsent |
| Text.RemoveAllLeftmost | src/data/processing.py:92-93 | `replace` scans left to right without overlap: the leftmost occurrence is removed, the text before it kept, and the scan resumes after it |
| Text.RemoveAllAbsent | src/data/processing.py:92-93 | a text without the pattern is left unchanged |
| Text.RemoveAllKeepsChars | src/data/processing.py:92-93 | removing every occurrence of a non-empty pattern introduces no character |
| Text.RemoveAllNotIdempotent | src/data/processing.py:92-93 | removing every "nan" once from "nnanan" leaves "nan" |
| Processing.Combine | src/data/processing.py:94-102 | "" iff both are empty; one empty gives the other; equal gives that value; otherwise "v1/v2" |
| Processing.CombineKeepsColumnOrder | src/data/processing.py:102 | for different slash-free values the column order shows in the genotype |
| Processing.CombineOrderCanCollide | src/data/processing.py:102 | values holding a slash can give the same genotype in both orders |
| Processing.LocusNameInjective | src/data/processing.py:104 | distinct pair indices give distinct "Locus k" names |
| Processing.LocusNameIsNotAllele | src/data/processing.py:104 | a "Locus k" name never has the "Allele" prefix |
| Processing.MergedRowContents | src/data/processing.py:80-104 | a merged row holds "Locus j" = the j-th genotype, every other non-allele cell of the input, and no allele cell (proved by Processing.MergedRowLoci, Processing.MergedRowOthers and Processing.MergedRowHasNoAllele, one clause each) |
| Processing.MergedColumnsContents | src/data/processing.py:80-104 | the merged columns are the input's non-allele columns plus "Locus 1".."Locus k", and no allele column |
| Processing.LocusColumns | src/services/identity_vigilance.py:74 | a column is listed iff it is in the frame and starts with "Locus", frame order kept |
| Processing.MergedLocusColumns | src/data/processing.py:104 | after the merge the "Locus" columns are the written loci plus any input "Locus" column |
| Processing.Merged | src/data/processing.py:71-106 | one row per input row; every non-allele column of the input survives |
| Processing.MergeGenotypes | src/data/processing.py:71-106 | the pair loop produces exactly the merged frame (the engine copy in src/data/comparison.py lines 163-193 pairs the same consecutive "Allele" columns) |
| Processing.MergedContents | src/data/processing.py:80-104 | 2·k allele columns give loci 1..k; each "Locus k" cell combines allele columns 2k-1 and 2k of its row; no allele column remains |
| Processing.MergedKeepsOtherCells | src/data/processing.py:80-81 | every non-locus cell is the input's (allele cells gone) and the derived fields of the sample are untouched |
| Intra.GroupKeys | src/services/identity_vigilance.py:208 | the group keys are sorted, distinct, and exactly the non-NaN Patients |
| Intra.Group | src/services/identity_vigilance.py:208 | a group holds exactly the rows with its Patient |
| Intra.GroupOnlyReadsItsRows | src/services/identity_vigilance.py:208-229 | changing other groups' rows does not change a group |
| Intra.NUniqueAboveOne | src/services/identity_vigilance.py:222 | more than one distinct value iff some value differs from the first |
| Intra.PrePass | utils.py:177-181 | under the legacy rules a row with no alleles that is not a control becomes error/"no alleles found"; keys, signatures and sexes stay |
| Intra.CurrentHasNoPrePass | src/services/identity_vigilance.py:205-231 | the current rules have no pre-pass |
| Intra.IntraRows | src/services/identity_vigilance.py:205-231 | one output row per input row |
| Intra.IntraComparison | src/services/identity_vigilance.py:205-231 | the group loop yields each row judged by its group's verdict, columns kept; the engine copy in src/data/comparison.py lines 101-134 is the same loop under the current rules, and the legacy copy in utils.py lines 161-205 runs the pre-pass and the guarded rules and drops signature, signature_len and is_neg |
| Intra.IntraOnlyWritesStatus | src/services/identity_vigilance.py:207-231 | the comparison changes only status and description; a row with no Patient is left as the pre-pass left it |
| Intra.IntraKeepsControlFields | src/services/identity_vigilance.py:207-231 | the control flag and signature length are never changed |
| Intra.LoneSampleIsWarning | src/services/identity_vigilance.py:209-212 | a lone non-control sample still at success becomes warning/"Echantillon unique" |
| Intra.CurrentLoneNegativeControl | src/services/identity_vigilance.py:213-221 | a lone control with alleles becomes error/"Contrôle négatif avec alleles" whatever its status; without alleles, info/"Contrôle négatif" if still success, otherwise unchanged |
| Intra.CurrentContaminatedControlOverwrites | src/services/identity_vigilance.py:214-218 | a contaminated lone control whose status is already warning is overwritten to error |
| Intra.LegacyLoneNegativeControl | utils.py:189-192 | under the legacy rules a lone control gets info/"Contrôle négatif" even with alleles |
| Intra.SignatureMismatchIsError | src/services/identity_vigilance.py:222-225 | a group of two or more with differing signatures, still success, marks every member error/"Incohérente de SNPs" |
| Intra.GenreMismatchIsError | src/services/identity_vigilance.py:226-229 | a group with one signature but differing sexes, still success, marks every member error/"Incohérence de genre" |
| Intra.ConsistentGroupUnchanged | src/services/identity_vigilance.py:222-231 | a group of two or more with one signature and one sex keeps its statuses |
| Intra.GenreVerdict | src/services/identity_vigilance.py:226-229 | the verdict of a one-signature, two-sex group still at success is the sex error |
| Intra.ConsistentVerdict | src/services/identity_vigilance.py:222-231 | a consistent group of two or more gets no verdict |
| Intra.LegacyNoAllelesIsError | utils.py:177-181 | under the legacy rules a row without alleles that is not a control ends as error/"no alleles found" |
| Intra.LegacyNeverOverwrites | utils.py:184-200 | under the legacy rules a row the pre-pass marked keeps that mark |
| Intra.NegControlClean | src/services/identity_vigilance.py:53-57 | clean iff at least one control exists and every control has no alleles |
| Intra.NegControlCleanAfterIntra | src/services/identity_vigilance.py:53-57 | reading the flag after the comparison gives the flag of its input |
| Intra.CleanControlsAreNotFlagged | src/services/identity_vigilance.py:213-221 | in a clean batch a lone control still at success becomes info |
| Intra.ErrorCount | src/services/identity_vigilance.py:61 | the count is the number of rows whose status is error, at most the row count |
| Intra.NoErrorsCountZero | src/services/identity_vigilance.py:61 | the count is 0 iff no row is in error |
| Intra.GuardAsWritten | utils.py:186 | the numpy comparison raises iff the group's statuses differ; passing means all success; blocking means not all success |
| Intra.GuardAgreesUnlessItRaises | utils.py:186-198 | when it does not raise, the guard passes iff the group is still success |
| Intra.LegacyMixedGroupRaises | utils.py:194 | as written: one replicate without alleles next to one with alleles gives differing signatures and a guard that raises |
| Intra.LegacyMixedGroupKept | utils.py:177-198 | intended: that replicate keeps "no alleles found", and a replicate the pre-pass left alone is left unchanged |
| Inter.Considered | src/services/identity_vigilance.py:239 | only rows with a non-empty signature are considered |
| Inter.HashKeys | src/services/identity_vigilance.py:241 | the bucket keys are sorted, distinct, and exactly the considered hashes |
| Inter.WithHashIn | src/services/identity_vigilance.py:241-243 | a row is selected iff it is considered and its hash is one of the keys |
| Inter.InterComparison | src/services/identity_vigilance.py:233-258 | the bucket loop yields the colliding rows with the helper columns dropped, or an empty frame (the copies in src/data/comparison.py lines 136-161 and utils.py lines 208-239 behave the same) |
| Inter.DuplicatedIsColliding | src/services/identity_vigilance.py:238-246 | the concatenated buckets are, as a multiset, the rows whose hash is a colliding key |
| Inter.InterIsColliding | src/services/identity_vigilance.py:241-246 | the output is, as a multiset, every considered row whose bucket spans more than one Patient |
| Inter.InterMembership | src/services/identity_vigilance.py:239-246 | a row is output iff it has a signature and its bucket holds two or more distinct Patients |
| Inter.InterEmpty | src/services/identity_vigilance.py:245-258 | the result is empty iff no bucket holds two Patients |
| Inter.TwoPatientsOneHashCollide | src/services/identity_vigilance.py:241-243 | two considered rows of different Patients with one hash are both reported |
| Inter.OnePatientDoesNotCollide | src/services/identity_vigilance.py:242 | a bucket of a single Patient is not reported |
| Inter.WithHashInUnion | src/services/identity_vigilance.py:246 | selecting two disjoint key sets is the multiset union of the two selections |
| Similarity.HeatmapColumns | src/services/identity_vigilance.py:262-265 | one compared column per allele column, then "Genre" last |
| Similarity.SampleNames | src/services/identity_vigilance.py:266 | the matrix is indexed by the distinct Sample Names, NaN included once |
| Similarity.NamesEmptyIffNoRows | src/services/identity_vigilance.py:126-129 | the matrix is empty iff there are no rows |
| Similarity.Selected | src/services/identity_vigilance.py:271-276 | a name selects exactly the rows with that name; NaN selects none |
| Similarity.Flatten | src/services/identity_vigilance.py:271-276 | the flattened selection has one cell per row and column |
| Similarity.FlattenRowMajor | src/services/identity_vigilance.py:271-276 | row-major order: the cell of row i and column j sits at index i * (number of columns) + j |
| Similarity.Common | src/services/identity_vigilance.py:281-288 | the common count never exceeds either length |
| Similarity.MissingValues | src/services/identity_vigilance.py:283-286 | two missing cells match; one missing cell is a mismatch |
| Similarity.Percentage | src/services/identity_vigilance.py:290-293 | undefined iff total is 0; otherwise the value times total is common times 100, so it lies in [0, 100] and is 100 when all match (15 of 16 gives 93.75) |
| Similarity.CountMatches | src/services/identity_vigilance.py:278-288 | the loop counts `zip`-truncated pairs (the shorter length) and the matches among them |
| Similarity.SampleHeatmap | src/services/identity_vigilance.py:260-296 | the nested loops fill every cell (i, j) with the identity of names i and j (the copy in utils.py lines 242-299 behaves the same) |
| Similarity.FillRow | src/services/identity_vigilance.py:270-294 | the inner loop fills row i with the identity of name i against every name and leaves the other rows alone |
| Similarity.IdentityCell | src/services/identity_vigilance.py:271-293 | one cell: both selections flattened, their matches counted, the percentage taken |
| Similarity.CommonSymmetric | src/services/identity_vigilance.py:281-288 | the common count is symmetric |
| Similarity.IdentityBounds | src/services/identity_vigilance.py:290-293 | every defined cell lies in [0, 100] |
| Similarity.IdentitySymmetric | src/services/identity_vigilance.py:269-294 | the matrix is symmetric |
| Similarity.IdentityDiagonal | src/services/identity_vigilance.py:269-294 | a present name with rows compares to itself at 100 over any non-empty column list; the NaN name's cell is undefined |
| Similarity.HeatmapDiagonal | src/services/identity_vigilance.py:269-294 | every present name's diagonal cell of the heatmap is 100 |
| Plots.StatusColor | src/visualization/plots.py:24-29 | success, error, info and warning map to their fixed colours; anything else, NaN included, to "white" |
| Plots.StatusColorsDistinct | src/visualization/plots.py:24-29 | the four statuses have four different colours |
| Plots.HighlightStatus | src/visualization/plots.py:30 | one identical style string per cell of the row |
| Plots.SortByKey | src/visualization/plots.py:45 | the rows sorted by the group key (NaN last), as a permutation of the input |
| Plots.InsertRowSorted | src/visualization/plots.py:45 | inserting a row into sorted rows keeps them sorted |
| Plots.InsertBlankRowsBetweenGroups | src/visualization/plots.py:33-58 | the loop produces the layout of the sorted rows with blank rows rendered as all-"" rows; an empty table gives an empty frame |
| Plots.LayoutKeepsRows | src/visualization/plots.py:55 | removing the blank rows gives back exactly the sorted input rows, in order |
| Plots.LayoutLength | src/visualization/plots.py:51-56 | the output has the rows plus one blank row per key change |
| Plots.LayoutEnds | src/visualization/plots.py:51-56 | the output starts and ends with a data row |
| Plots.LayoutSeparatesGroups | src/visualization/plots.py:53-54 | a blank row stands between two data rows whose keys differ, and two adjacent data rows share their key |
| Plots.BreaksCountGroups | src/visualization/plots.py:51-56 | on sorted rows that all have a key, the blank rows number the distinct keys minus one |
| Legacy.ValidateFileFormat | utils.py:34-45 | exactly the legacy required columns missing from the table, in the required order; empty iff none is missing |
| Legacy.RequiredColumnsExtendCurrent | utils.py:9-11 | 40 required columns: the current 39 followed by "Allele 35" |
| Legacy.LegacyCheckIsStricter | utils.py:9-11 | a table the legacy check accepts passes the current one; the only extra demand is "Allele 35" |
| Legacy.PrepareData | utils.py:48-98 | dropping the 7 columns and deriving gives the same frame as the current processor and analyser, under the same intended reading of a missing Sample Name as Genetics.Prepare |
| Engine.IntraColumnOrder | src/data/comparison.py:74-86 | Patient, Sample Name, Genre, status_description, then exactly the "Locus" columns, then status_type last |
| Engine.InterColumnOrder | src/data/comparison.py:88-99 | Patient, Sample Name, Genre, then exactly the "Locus" columns, then signature_hash last |
| Engine.IntraOrderFitsMergedColumns | src/data/comparison.py:74-86 | after the merge, every column of the intra order exists |
| Engine.PreparedHasDerivedColumns | src/data/comparison.py:31-34 | the prepared frame holds every input column, every derived column and all columns the intra comparison reads |
| Engine.MergeKeepsErrorCount | src/data/comparison.py:43-44 | merging does not change the error count |
| Engine.ComparisonEngine.constructor | src/data/comparison.py:25-34 | the prepared frame is the analyser's preparation of the processor's cleaned table |
| Engine.ComparisonEngine.PerformIntraComparison | src/data/comparison.py:36-45 | the merged result of the current intra rules, and the number of rows in error |
| Engine.ComparisonEngine.PerformInterComparison | src/data/comparison.py:47-57 | the count is the number of colliding rows, taken before the merge; the merge happens only for a non-empty result |
| Engine.ComparisonEngine.SampleHeatmap | src/data/comparison.py:195-240 | the matrix over the prepared frame's allele columns (sex markers excluded) and "Genre" |
| Engine.ComparisonEngine.GenerateHeatmap | src/data/comparison.py:59-68 | no matrix is handed to the renderer exactly when there are no rows |
| Service.FormatIntraComparison | src/services/identity_vigilance.py:64-87 | the five display columns, then exactly the "Locus" columns; rows unchanged |
| Service.FormatInterComparison | src/services/identity_vigilance.py:89-111 | Patient, Sample Name, Genre, exactly the "Locus" columns, signature_hash last; rows unchanged |
| Service.InterFrameKeepsDisplayColumns | src/services/identity_vigilance.py:119-121 | the colliding rows keep the columns the inter display needs, also after the merge |
| Service.MergeKeepsStatuses | src/services/identity_vigilance.py:59-61 | merging keeps every row's status |
| Service.IdentityVigilanceService.constructor | src/services/identity_vigilance.py:16-19 | both helpers start on an empty table |
| Service.ListText | src/services/identity_vigilance.py:31-34 | Python's list text: bracketed, "[]" exactly for the empty list |
| Service.ListTextInjective | src/services/identity_vigilance.py:31-34 | the list text in the format-error message determines the list of missing columns |
| Service.IdentityVigilanceService.LoadAndValidateFile | src/services/identity_vigilance.py:27-35 | the processor takes the table; it is returned iff no required column is missing, otherwise the message lists the missing ones |
| Service.IdentityVigilanceService.PrepareData | src/services/identity_vigilance.py:39-45 | the argument is ignored; the analyser gets the processor's cleaned table and the result is its preparation |
| Service.IdentityVigilanceService.PerformIntraComparison | src/services/identity_vigilance.py:47-62 | the formatted merge of the current intra rules, the number of rows in error, and the clean-control flag of the input |
| Service.IdentityVigilanceService.PerformInterComparison | src/services/identity_vigilance.py:113-122 | the count is the number of colliding rows; an empty result is neither merged nor formatted |
| Service.IdentityVigilanceService.SampleHeatmap | src/services/identity_vigilance.py:260-296 | the matrix over the analyser's allele columns and "Genre"; the prepared frame must hold those columns and "Sample Name", whose absence raises KeyError at lines 266-276 |
| Service.IdentityVigilanceService.GenerateHeatmap | src/services/identity_vigilance.py:124-129 | on a frame holding "Sample Name", "Genre" and the analyser's allele columns, no matrix is handed to the renderer exactly when there are no rows |

## Left out

- Reading the GeneMapper file (`load_genemapper_data`, `read_csv`) and the exception text of `load_and_validate_file`: I/O. `Service.IdentityVigilanceService.LoadAndValidateFile` takes the loaded table.
- SHA-1 itself: an abstract function, of which only determinism and the 40-character length are used.
- Floating point: identity percentages are exact reals, and NaN/`pd.NA` is `None`.
- The Plotly figure, report generation (`format_*_for_report`, PDF), the Streamlit UI and the record classes of models.py: not part of the comparison logic.
- The root comparison.py wrapper: it only forwards to utils.py and an unseen visualisation module.
- `Genetics.Prepare`: it models the intended preparation, in which a missing sample name gives no control flag. The as-written failure is `Genetics.PrepareAsWritten` (see Findings).
- `Intra.IntraComparison`: a numpy error on a group with mixed statuses is modelled only by `Intra.GuardAsWritten`. The rules use the "still success" reading.
- `Plots.SortByKey`: pandas' default quicksort is not stable. The model sorts stably, so the order of rows with equal keys may differ. Only sortedness and the permutation are promised.
- `Plots.InsertBlankRowsBetweenGroups`: a key is a string or NaN. A NaN key differs from every key, itself included. A Python `None` stored in the column, which would suppress the blank row after it, is not modelled.
- `Text.Lower`: ASCII letters only. `str.lower` on other scripts is not modelled.
- `Genetics.SignatureText`: Python's `repr` escapes of non-printable characters are not modelled, beyond quotes and backslashes.
- `Legacy.PrepareData`: like `Genetics.Prepare`, it models the intended preparation. As written, `is_negative_control` in utils.py lines 148-158 has no null guard, so a missing Sample Name raises; that failure is the one `Genetics.PrepareAsWritten` models.
- Missing columns: where pandas would raise KeyError on a column the frame lacks, the model excludes that frame with a `requires` instead of modelling the exception. This holds for `Genetics.Prepare`/`Genetics.PrepareData`, `Engine.ComparisonEngine.constructor`, `Intra.IntraComparison`, `Inter.InterComparison`, `Plots.HighlightStatus`/`Plots.InsertBlankRowsBetweenGroups` and the `Service.IdentityVigilanceService` methods. The application validates the required columns before it calls any of them.
- Column dtypes: every cell is text or NaN. Numeric columns that pandas would infer are not modelled.

## Findings

| source | as written | input that shows it | evidently intended | confidence | as-written member | corrected member |
|---|---|---|---|---|---|---|
| utils.py:194 | after the pre-pass, `df.loc[group.index, "status_type"].unique() == "success"` compares an array with two statuses, and `if` on it raises numpy's ambiguous-truth-value error | Patient "P1" with a row "P1" that has no allele calls (pre-pass error) and a row "P1bis" with allele calls (signatures differ) | a guard that lets a rule fire only while every row of the group is still success, so the "no alleles found" row keeps its error | high, not executed | Intra.LegacyMixedGroupRaises | Intra.LegacyMixedGroupKept |
| src/data/genetics.py:103-104 | `if not sample_name` is false for NaN, so a missing Sample Name reaches `.lower()` on a float and raises | a row whose Sample Name cell is empty in the export (read as NaN) | a missing name is not a negative control | medium, not executed | Genetics.PrepareAsWritten | Genetics.IsNegativeControl |
