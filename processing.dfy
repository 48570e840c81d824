/**
 * The current application's `DataProcessor` (src/data/processing.py):
 * format validation, removal of unused columns, and the merge of allele
 * columns two by two into one genotype per locus.
 */
module Processing {
  import opened Wrappers
  import opened Text
  import opened Tables
  import opened Frames
  import Config

  /** `validate_file_format`: the required columns the table lacks, in the configured order. */
  function ValidateFileFormat(t: Table): (missing: seq<string>)
    ensures forall c :: c in missing <==> c in Config.RequiredColumns && c !in t.columns
    ensures IsSubseq(missing, Config.RequiredColumns)
    ensures missing == [] <==> forall c :: c in Config.RequiredColumns ==> c in t.columns
  {
    MissingColumns(t.columns, Config.RequiredColumns)
  }

  /** `prepare_data`: the configured unused columns removed when present. */
  function PrepareData(t: Table): (r: Table)
    ensures forall c :: c in r.columns <==> c in t.columns && c !in Config.ColumnsToDrop
    ensures |r.rows| == |t.rows|
    ensures forall i, c :: 0 <= i < |t.rows| && c !in Config.ColumnsToDrop ==> Get(r.rows[i], c) == Get(t.rows[i], c)
  {
    DropColumns(t, Config.ColumnsToDrop)
  }

  /** The merge treats every "Allele"-prefixed column as an allele, sex markers included. */
  predicate IsAlleleColumn(c: string) {
    StartsWith(c, Config.AllelePrefix)
  }

  function KeepingColumns(cols: seq<string>): (r: seq<string>)
    ensures forall c :: c in r <==> c in cols && !IsAlleleColumn(c)
    ensures IsSubseq(r, cols)
  {
    if cols == [] then []
    else if !IsAlleleColumn(cols[0]) then [cols[0]] + KeepingColumns(cols[1..])
    else SubseqSkip(KeepingColumns(cols[1..]), cols); KeepingColumns(cols[1..])
  }

  function AlleleColumns(cols: seq<string>): (r: seq<string>)
    ensures forall c :: c in r <==> c in cols && IsAlleleColumn(c)
    ensures IsSubseq(r, cols)
  {
    if cols == [] then []
    else if IsAlleleColumn(cols[0]) then [cols[0]] + AlleleColumns(cols[1..])
    else SubseqSkip(AlleleColumns(cols[1..]), cols); AlleleColumns(cols[1..])
  }

  /** Consecutive pairs (a[0], a[1]), (a[2], a[3]), ...; an odd last column has no partner. */
  function Pairs(a: seq<string>): (ps: seq<(string, string)>)
    ensures |ps| == |a| / 2
    ensures forall k :: 0 <= k < |ps| ==> ps[k] == (a[2 * k], a[2 * k + 1])
  {
    seq(|a| / 2, k requires 0 <= k < |a| / 2 => (a[2 * k], a[2 * k + 1]))
  }

  /** One allele as the merge reads it: stripped, the text after its last "_", every "nan" removed. */
  function Normalize(c: Cell): (v: string)
    ensures |v| <= |CellText(c)|
  {
    RemoveAll(AfterLast(Strip(CellText(c)), '_'), "nan")
  }

  /**
   * No "_" survives the normalisation, a missing cell (printed "nan") or a
   * "nan" cell contributes nothing, and a stripped text with neither "_"
   * nor "nan" in it is kept as it is.
   */
  lemma NormalizeContents(c: Cell)
    ensures '_' !in Normalize(c)
    ensures c.None? || c == Some("nan") ==> Normalize(c) == ""
    ensures '_' !in Strip(CellText(c)) && !Contains(Strip(CellText(c)), "nan") ==> Normalize(c) == Strip(CellText(c))
  {
    NormalizeDropsUnderscores(c);
    PlainTextNormalizesToItself(Strip(CellText(c)));
    if c.None? || c == Some("nan") {
      NormalizeMissing(c);
    }
  }

  lemma NormalizeMissing(c: Cell)
    requires c.None? || c == Some("nan")
    ensures Normalize(c) == ""
  {
    var t := CellText(c);
    assert t == "nan";
    SelfNormalizesToNothing(t);
  }

  lemma NormalizeDropsUnderscores(c: Cell)
    ensures '_' !in Normalize(c)
  {
    var a := AfterLast(Strip(CellText(c)), '_');
    RemoveAllKeepsChars(a, "nan");
    assert '_' !in a;
  }

  /** A text without surrounding whitespace or "_" is removed entirely by its own `replace`. */
  lemma SelfNormalizesToNothing(n: string)
    requires n != [] && !IsSpace(n[0]) && !IsSpace(n[|n| - 1]) && '_' !in n
    ensures RemoveAll(AfterLast(Strip(n), '_'), n) == ""
  {
    StripUnspaced(n);
    AfterLastAbsent(n, '_');
    assert StartsWith(n, n) && n[|n|..] == "";
  }

  /** A stripped text without "_" or "nan" normalises to itself. */
  lemma PlainTextNormalizesToItself(t: string)
    ensures '_' !in t && !Contains(t, "nan") ==> RemoveAll(AfterLast(t, '_'), "nan") == t
  {
    if '_' !in t && !Contains(t, "nan") {
      AfterLastAbsent(t, '_');
      RemoveAllAbsent(t, "nan");
    }
  }

  /**
   * A call written "<probe>_<allele>" keeps only the allele, as long as the
   * allele has no "_", no "nan" and no trailing whitespace.
   */
  lemma NormalizeTakesLastField(probe: string, allele: string)
    requires probe != [] && !IsSpace(probe[0])
    requires allele != [] && !IsSpace(allele[|allele| - 1])
    requires '_' !in allele && !Contains(allele, "nan")
    ensures Normalize(Some(probe + "_" + allele)) == allele
  {
    var s := probe + "_" + allele;
    assert s[0] == probe[0] && s[|s| - 1] == allele[|allele| - 1];
    StripUnspaced(s);
    assert s[|probe|] == '_' && s[|probe| + 1..] == allele;
    AfterLastAt(s, '_', |probe|);
    RemoveAllAbsent(allele, "nan");
  }

  /**
   * `combine`: both empty give "", one empty gives the other, equal values
   * give that value, and otherwise both are written "v1/v2" in column order.
   */
  function Combine(v1: string, v2: string): (g: string)
    ensures g == "" <==> v1 == "" && v2 == ""
    ensures v1 == "" ==> g == v2
    ensures v2 == "" || v1 == v2 ==> g == v1
    ensures v1 != "" && v2 != "" && v1 != v2 ==> g == v1 + "/" + v2
  {
    if v1 == "" && v2 == "" then ""
    else if v1 != "" && v2 == "" then v1
    else if v1 == "" && v2 != "" then v2
    else if v1 == v2 then v1
    else v1 + "/" + v2
  }

  /**
   * Heterozygous genotypes are not sorted: for slash-free values the order
   * of the two columns shows in the result.
   */
  lemma CombineKeepsColumnOrder(v1: string, v2: string)
    requires v1 != "" && v2 != "" && v1 != v2
    requires '/' !in v1 && '/' !in v2
    ensures Combine(v1, v2) != Combine(v2, v1)
  {
    var g1, g2 := Combine(v1, v2), Combine(v2, v1);
    if |v1| == |v2| {
      assert g1[..|v1|] == v1 && g2[..|v2|] == v2;
    } else if |v1| < |v2| {
      assert g1[|v1|] == '/' && g2[|v1|] == v2[|v1|];
    } else {
      assert g2[|v2|] == '/' && g1[|v2|] == v1[|v2|];
    }
  }

  /** Values holding a slash can collide: "a" with "a/a" gives "a/a/a" either way round. */
  lemma CombineOrderCanCollide()
    ensures Combine("a", "a/a") == Combine("a/a", "a")
  {
  }

  /** "Locus k". */
  function LocusName(k: nat): string {
    "Locus " + NatToString(k)
  }

  lemma LocusNameInjective(j: nat, k: nat)
    requires LocusName(j) == LocusName(k)
    ensures j == k
  {
    assert NatToString(j) == LocusName(j)[6..] == LocusName(k)[6..] == NatToString(k);
    NatToStringInjective(j, k);
  }

  lemma LocusNameIsNotAllele(k: nat)
    ensures !IsAlleleColumn(LocusName(k))
  {
    assert LocusName(k)[0] == 'L';
  }

  /** The genotype of one locus for one row. */
  function LocusValue(r: Row, p: (string, string)): string {
    Combine(Normalize(Get(r, p.0)), Normalize(Get(r, p.1)))
  }

  /** The genotypes of every pair for one row, in pair order. */
  function Genotypes(r: Row, ps: seq<(string, string)>): (g: seq<string>)
    ensures |g| == |ps|
  {
    seq(|ps|, k requires 0 <= k < |ps| => LocusValue(r, ps[k]))
  }

  /** A row without its allele cells. */
  function KeepingCells(r: Row): (d: Row)
    ensures forall c :: c in d <==> c in r && !IsAlleleColumn(c)
    ensures forall c :: c in d ==> d[c] == r[c]
  {
    map c | c in r && !IsAlleleColumn(c) :: r[c]
  }

  /** The merged row once the first `k` genotypes have been written as "Locus 1" .. "Locus k". */
  function MergedRow(r: Row, g: seq<string>, k: nat): Row
    requires k <= |g|
  {
    if k == 0 then KeepingCells(r)
    else MergedRow(r, g, k - 1)[LocusName(k) := Some(g[k - 1])]
  }

  /** The merged columns once the first `k` loci have been written. */
  function MergedColumns(cols: seq<string>, k: nat): seq<string> {
    if k == 0 then KeepingColumns(cols) else AddColumn(MergedColumns(cols, k - 1), LocusName(k))
  }

  /**
   * What a merged row holds: "Locus j" is the j-th genotype, every other
   * cell that is not an allele is the input's, and no allele cell is left.
   */
  lemma {:induction false} MergedRowContents(r: Row, g: seq<string>, k: nat)
    requires k <= |g|
    ensures forall j :: 1 <= j <= k ==> Get(MergedRow(r, g, k), LocusName(j)) == Some(g[j - 1])
    ensures forall c :: (forall j :: 1 <= j <= k ==> c != LocusName(j)) ==>
      Get(MergedRow(r, g, k), c) == if IsAlleleColumn(c) then None else Get(r, c)
    ensures forall c :: c in MergedRow(r, g, k) ==> !IsAlleleColumn(c)
  {
    MergedRowLoci(r, g, k);
    MergedRowOthers(r, g, k);
    MergedRowHasNoAllele(r, g, k);
  }

  lemma {:induction false} MergedRowLoci(r: Row, g: seq<string>, k: nat)
    requires k <= |g|
    ensures forall j :: 1 <= j <= k ==> Get(MergedRow(r, g, k), LocusName(j)) == Some(g[j - 1])
  {
    if k > 0 {
      MergedRowLoci(r, g, k - 1);
      assert MergedRow(r, g, k) == MergedRow(r, g, k - 1)[LocusName(k) := Some(g[k - 1])];
      forall j | 1 <= j < k
        ensures LocusName(j) != LocusName(k)
      {
        if LocusName(j) == LocusName(k) {
          LocusNameInjective(j, k);
        }
      }
    }
  }

  lemma {:induction false} MergedRowOthers(r: Row, g: seq<string>, k: nat)
    requires k <= |g|
    ensures forall c :: (forall j :: 1 <= j <= k ==> c != LocusName(j)) ==>
      Get(MergedRow(r, g, k), c) == if IsAlleleColumn(c) then None else Get(r, c)
  {
    if k > 0 {
      MergedRowOthers(r, g, k - 1);
      assert MergedRow(r, g, k) == MergedRow(r, g, k - 1)[LocusName(k) := Some(g[k - 1])];
    }
  }

  lemma {:induction false} MergedRowHasNoAllele(r: Row, g: seq<string>, k: nat)
    requires k <= |g|
    ensures forall c :: c in MergedRow(r, g, k) ==> !IsAlleleColumn(c)
  {
    if k > 0 {
      MergedRowHasNoAllele(r, g, k - 1);
      assert MergedRow(r, g, k) == MergedRow(r, g, k - 1)[LocusName(k) := Some(g[k - 1])];
      LocusNameIsNotAllele(k);
    }
  }

  /**
   * The merged columns: the non-allele columns in order, then each
   * "Locus j" that was not already one of them.
   */
  lemma {:induction false} MergedColumnsContents(cols: seq<string>, k: nat)
    ensures forall c :: c in MergedColumns(cols, k) <==>
      (c in cols && !IsAlleleColumn(c)) || exists j :: 1 <= j <= k && c == LocusName(j)
    ensures forall c :: c in MergedColumns(cols, k) ==> !IsAlleleColumn(c)
  {
    if k > 0 {
      MergedColumnsContents(cols, k - 1);
      LocusNameIsNotAllele(k);
      forall c | c in MergedColumns(cols, k) && !(c in cols && !IsAlleleColumn(c))
        ensures exists j :: 1 <= j <= k && c == LocusName(j)
      {
        if c != LocusName(k) {
          var j :| 1 <= j <= k - 1 && c == LocusName(j);
        }
      }
      forall j | 1 <= j <= k - 1
        ensures !IsAlleleColumn(LocusName(j))
      {
        LocusNameIsNotAllele(j);
      }
    }
  }

  /** `[col for col in df.columns if col.startswith("Locus")]`. */
  function LocusColumns(cols: seq<string>): (r: seq<string>)
    ensures forall c :: c in r <==> c in cols && StartsWith(c, "Locus")
    ensures IsSubseq(r, cols)
  {
    if cols == [] then []
    else if StartsWith(cols[0], "Locus") then [cols[0]] + LocusColumns(cols[1..])
    else SubseqSkip(LocusColumns(cols[1..]), cols); LocusColumns(cols[1..])
  }

  /** After the merge, the "Locus" columns are the written loci and any non-allele "Locus" column of the input. */
  lemma MergedLocusColumns(cols: seq<string>, k: nat)
    ensures forall c :: c in LocusColumns(MergedColumns(cols, k)) <==>
      (c in cols && StartsWith(c, "Locus")) || exists j :: 1 <= j <= k && c == LocusName(j)
  {
    MergedColumnsContents(cols, k);
    forall j | 1 <= j <= k ensures StartsWith(LocusName(j), "Locus") {
      assert LocusName(j)[..5] == "Locus";
    }
    forall c | c in cols && StartsWith(c, "Locus") ensures !IsAlleleColumn(c) {
      assert c[0] == 'L';
    }
  }

  /** `pairs` as the merge builds them from a frame's columns. */
  function AllelePairs(cols: seq<string>): seq<(string, string)> {
    Pairs(AlleleColumns(cols))
  }

  /** The frame that `merge_genotypes` returns. */
  function Merged(f: Frame): (m: Frame)
    ensures |m.rows| == |f.rows|
    ensures forall c :: c in f.columns && !IsAlleleColumn(c) ==> c in m.columns
  {
    var ps := AllelePairs(f.columns);
    MergedColumnsContents(f.columns, |ps|);
    Frame(MergedColumns(f.columns, |ps|),
          seq(|f.rows|, i requires 0 <= i < |f.rows| =>
            f.rows[i].(cells := MergedRow(f.rows[i].cells, Genotypes(f.rows[i].cells, ps), |ps|))))
  }

  /**
   * `merge_genotypes`: starting from the non-allele columns, pair `idx`
   * (counted from 1) writes "Locus idx" into every row. Only the raw cells
   * change; the derived fields of each sample are kept.
   */
  method MergeGenotypes(f: Frame) returns (m: Frame)
    ensures m == Merged(f)
  {
    var ps := AllelePairs(f.columns);
    var g := GenotypesOfRows(f);
    var cells := KeptCellsOfRows(f, g);
    var cols := KeepingColumns(f.columns);
    var idx := 0;
    while idx < |ps|
      invariant idx <= |ps|
      invariant cols == MergedColumns(f.columns, idx)
      invariant MergedUpTo(f, g, idx, cells)
    {
      cells := WriteLocus(f, g, idx, cells);
      cols := AddColumn(cols, LocusName(idx + 1));
      idx := idx + 1;
    }
    m := WithCells(f, g, cells);
  }

  /** The genotypes of every row, computed once before the loop. */
  function GenotypesOfRows(f: Frame): (g: seq<seq<string>>)
    ensures |g| == |f.rows|
    ensures forall i :: 0 <= i < |g| ==> g[i] == Genotypes(f.rows[i].cells, AllelePairs(f.columns))
  {
    seq(|f.rows|, i requires 0 <= i < |f.rows| => Genotypes(f.rows[i].cells, AllelePairs(f.columns)))
  }

  /** The cells of every row before the first pass: the non-allele cells. */
  function KeptCellsOfRows(f: Frame, g: seq<seq<string>>): (cells: seq<Row>)
    requires |g| == |f.rows|
    requires forall i :: 0 <= i < |g| ==> g[i] == Genotypes(f.rows[i].cells, AllelePairs(f.columns))
    ensures MergedUpTo(f, g, 0, cells)
  {
    seq(|f.rows|, i requires 0 <= i < |f.rows| => KeepingCells(f.rows[i].cells))
  }

  /** One pass of the merge loop: writes locus `idx + 1` into every row. */
  function WriteLocus(f: Frame, g: seq<seq<string>>, idx: nat, cells: seq<Row>): (next: seq<Row>)
    requires idx < |AllelePairs(f.columns)| && MergedUpTo(f, g, idx, cells)
    ensures MergedUpTo(f, g, idx + 1, next)
  {
    var next := WithLocus(cells, g, idx);
    MergeStep(f, g, idx, cells, next);
    next
  }

  /** Every row of `cells` with "Locus idx+1" set to that row's genotype at `idx`. */
  function WithLocus(cells: seq<Row>, g: seq<seq<string>>, idx: nat): (next: seq<Row>)
    requires |g| == |cells| && forall i :: 0 <= i < |g| ==> idx < |g[i]|
    ensures |next| == |cells|
    ensures forall i :: 0 <= i < |cells| ==> next[i] == cells[i][LocusName(idx + 1) := Some(g[i][idx])]
  {
    seq(|cells|, i requires 0 <= i < |cells| => cells[i][LocusName(idx + 1) := Some(g[i][idx])])
  }

  /** The frame the loop returns once every pair is written. */
  function WithCells(f: Frame, g: seq<seq<string>>, cells: seq<Row>): (m: Frame)
    requires MergedUpTo(f, g, |AllelePairs(f.columns)|, cells)
    ensures m == Merged(f)
  {
    MergeDone(f, g, cells);
    Frame(MergedColumns(f.columns, |AllelePairs(f.columns)|),
          seq(|f.rows|, i requires 0 <= i < |f.rows| => f.rows[i].(cells := cells[i])))
  }

  /** The loop state after `idx` passes: the cells of every row hold its first `idx` loci. */
  predicate MergedUpTo(f: Frame, g: seq<seq<string>>, idx: nat, cells: seq<Row>) {
    && idx <= |AllelePairs(f.columns)|
    && |g| == |cells| == |f.rows|
    && (forall i :: 0 <= i < |g| ==> g[i] == Genotypes(f.rows[i].cells, AllelePairs(f.columns)))
    && forall i :: 0 <= i < |cells| ==> cells[i] == MergedRow(f.rows[i].cells, g[i], idx)
  }

  /** One pass of the merge loop writes the next locus into every row. */
  lemma MergeStep(f: Frame, g: seq<seq<string>>, idx: nat, cells: seq<Row>, next: seq<Row>)
    requires idx < |AllelePairs(f.columns)| && MergedUpTo(f, g, idx, cells) && |next| == |cells|
    requires forall i :: 0 <= i < |cells| ==> next[i] == cells[i][LocusName(idx + 1) := Some(g[i][idx])]
    ensures MergedUpTo(f, g, idx + 1, next)
  {
  }

  /** Once every pair is written, the rows are those of the merged frame. */
  lemma MergeDone(f: Frame, g: seq<seq<string>>, cells: seq<Row>)
    requires MergedUpTo(f, g, |AllelePairs(f.columns)|, cells)
    ensures seq(|f.rows|, i requires 0 <= i < |f.rows| => f.rows[i].(cells := cells[i])) == Merged(f).rows
  {
  }

  /** Every cell of the merged frame, as the partner of `MergeGenotypes`. */
  lemma MergedContents(f: Frame)
    ensures var m := Merged(f); var a := AlleleColumns(f.columns);
      && |AllelePairs(f.columns)| == |a| / 2
      && (forall c :: c in m.columns ==> !IsAlleleColumn(c))
      && (forall c :: c in f.columns && !IsAlleleColumn(c) ==> c in m.columns)
      && forall i, k :: 0 <= i < |f.rows| && 1 <= k <= |a| / 2 ==>
           Get(m.rows[i].cells, LocusName(k)) == Some(LocusValue(f.rows[i].cells, (a[2 * k - 2], a[2 * k - 1])))
  {
    var ps := AllelePairs(f.columns);
    MergedColumnsContents(f.columns, |ps|);
    forall i, k | 0 <= i < |f.rows| && 1 <= k <= |ps| {
      MergedLocus(f, i, k);
    }
  }

  lemma MergedLocus(f: Frame, i: nat, k: nat)
    requires i < |f.rows| && 1 <= k <= |AllelePairs(f.columns)|
    ensures var a := AlleleColumns(f.columns);
      Get(Merged(f).rows[i].cells, LocusName(k)) == Some(LocusValue(f.rows[i].cells, (a[2 * k - 2], a[2 * k - 1])))
  {
    var ps := AllelePairs(f.columns);
    var r := f.rows[i].cells;
    var g := Genotypes(r, ps);
    MergedRowOf(f, i);
    MergedRowContents(r, g, |ps|);
    assert Get(MergedRow(r, g, |ps|), LocusName(k)) == Some(g[k - 1]);
    var a := AlleleColumns(f.columns);
    assert 2 * (k - 1) == 2 * k - 2 && 2 * (k - 1) + 1 == 2 * k - 1;
    assert ps[k - 1] == (a[2 * k - 2], a[2 * k - 1]);
    assert g[k - 1] == LocusValue(r, ps[k - 1]);
  }

  /** The cells of merged row `i`. */
  lemma MergedRowOf(f: Frame, i: nat)
    requires i < |f.rows|
    ensures Merged(f).rows[i].cells
         == MergedRow(f.rows[i].cells, Genotypes(f.rows[i].cells, AllelePairs(f.columns)), |AllelePairs(f.columns)|)
  {
  }

  /** Cells other than the written loci are the input's, allele cells excepted, which are gone. */
  lemma MergedKeepsOtherCells(f: Frame, i: nat, c: string)
    requires i < |f.rows|
    requires forall j :: 1 <= j <= |AllelePairs(f.columns)| ==> c != LocusName(j)
    ensures Get(Merged(f).rows[i].cells, c) == if IsAlleleColumn(c) then None else Get(f.rows[i].cells, c)
    ensures Merged(f).rows[i].(cells := f.rows[i].cells) == f.rows[i]
  {
    var ps := AllelePairs(f.columns);
    var r := f.rows[i].cells;
    MergedRowContents(r, Genotypes(r, ps), |ps|);
    MergedRowOf(f, i);
  }
}
