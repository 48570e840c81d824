/**
 * The sample similarity matrix (`_sample_heatmap`): for every pair of
 * distinct sample names, the share of equal cells between their rows over
 * the signature columns and "Genre".
 */
module Similarity {
  import opened Wrappers
  import opened Tables
  import opened Frames

  /** The compared columns: the signature allele columns followed by "Genre". */
  function HeatmapColumns(alleleCols: seq<string>): (cols: seq<string>)
    ensures |cols| == |alleleCols| + 1 && cols[|alleleCols|] == "Genre"
  {
    alleleCols + ["Genre"]
  }

  /** The matrix has no rows and no columns exactly when the table has no rows. */
  lemma NamesEmptyIffNoRows(rows: seq<Sample>)
    ensures SampleNames(rows) == [] <==> rows == []
  {
    if rows != [] {
      assert Name(rows[0]) in SampleNames(rows);
    }
  }

  /** One cell of the compared columns; "Genre" is the derived sex label. */
  function CellOf(s: Sample, c: string): Cell {
    if c == "Genre" then Some(SexLabel(s.genre)) else Get(s.cells, c)
  }

  /** `df["Sample Name"].unique()`: distinct names in order of first appearance, NaN included once. */
  function SampleNames(rows: seq<Sample>): (names: seq<Cell>)
    ensures forall i, j :: 0 <= i < j < |names| ==> names[i] != names[j]
    ensures forall n :: n in names <==> exists s :: s in rows && Name(s) == n
  {
    var xs := seq(|rows|, i requires 0 <= i < |rows| => Name(rows[i]));
    assert forall n :: n in xs <==> exists s :: s in rows && Name(s) == n by {
      forall n ensures n in xs <==> exists s :: s in rows && Name(s) == n {
        if exists s :: s in rows && Name(s) == n {
          var s :| s in rows && Name(s) == n;
          var i :| 0 <= i < |rows| && rows[i] == s;
          assert xs[i] == n;
        }
      }
    }
    Distinct(xs, [])
  }

  /** The entries of `xs` in first-appearance order, skipping those already in `seen`. */
  function Distinct(xs: seq<Cell>, seen: seq<Cell>): (r: seq<Cell>)
    requires forall i, j :: 0 <= i < j < |seen| ==> seen[i] != seen[j]
    ensures forall i, j :: 0 <= i < j < |r| ==> r[i] != r[j]
    ensures |r| >= |seen| && r[..|seen|] == seen
    ensures forall n :: n in r <==> n in seen || n in xs
    decreases |xs|
  {
    if xs == [] then seen
    else if xs[0] in seen then Distinct(xs[1..], seen)
    else Distinct(xs[1..], seen + [xs[0]])
  }

  /** `df[df["Sample Name"] == name]`: a NaN name equals nothing, so it selects no row. */
  function Selected(rows: seq<Sample>, name: Cell): (sel: seq<Sample>)
    ensures forall s :: s in sel <==> s in rows && name.Some? && Name(s) == name
  {
    if rows == [] then []
    else if name.Some? && Name(rows[0]) == name then [rows[0]] + Selected(rows[1..], name)
    else Selected(rows[1..], name)
  }

  /** `[cols].values.flatten()`: the selected rows' cells, row after row. */
  function Flatten(sel: seq<Sample>, cols: seq<string>): (v: seq<Cell>)
    ensures |v| == |sel| * |cols|
  {
    if sel == [] then [] else RowCells(sel[0], cols) + Flatten(sel[1..], cols)
  }

  /** The flattening is row-major: row `i`, column `j` sits at `i * |cols| + j`. */
  lemma {:induction false} FlattenRowMajor(sel: seq<Sample>, cols: seq<string>)
    ensures forall i, j :: 0 <= i < |sel| && 0 <= j < |cols| ==>
              FlatIndex(i, j, |cols|) < |Flatten(sel, cols)|
              && Flatten(sel, cols)[FlatIndex(i, j, |cols|)] == CellOf(sel[i], cols[j])
  {
    if sel != [] {
      FlattenRowMajor(sel[1..], cols);
      FlattenCons(sel, cols, Flatten(sel[1..], cols));
    }
  }

  /** One more row in front shifts every later cell by one row of columns. */
  lemma FlattenCons(sel: seq<Sample>, cols: seq<string>, rest: seq<Cell>)
    requires sel != [] && |rest| == (|sel| - 1) * |cols|
    requires forall i, j :: 0 <= i < |sel| - 1 && 0 <= j < |cols| ==>
               FlatIndex(i, j, |cols|) < |rest| && rest[FlatIndex(i, j, |cols|)] == CellOf(sel[1..][i], cols[j])
    ensures |RowCells(sel[0], cols) + rest| == |sel| * |cols|
    ensures forall i, j :: 0 <= i < |sel| && 0 <= j < |cols| ==>
              FlatIndex(i, j, |cols|) < |RowCells(sel[0], cols) + rest|
              && (RowCells(sel[0], cols) + rest)[FlatIndex(i, j, |cols|)] == CellOf(sel[i], cols[j])
  {
    var v := RowCells(sel[0], cols) + rest;
    assert |sel| * |cols| == |cols| + (|sel| - 1) * |cols|;
    forall i, j | 0 <= i < |sel| && 0 <= j < |cols|
      ensures FlatIndex(i, j, |cols|) < |v| && v[FlatIndex(i, j, |cols|)] == CellOf(sel[i], cols[j])
    {
      if i > 0 {
        FlatIndexStep(i, j, |sel|, |cols|);
        assert sel[1..][i - 1] == sel[i];
      }
    }
  }

  /** The position of row `i`, column `j` in a row-major flattening of `n` columns. */
  function FlatIndex(i: nat, j: nat, n: nat): nat {
    i * n + j
  }

  lemma FlatIndexStep(i: nat, j: nat, m: nat, n: nat)
    requires 0 < i < m && j < n
    ensures FlatIndex(i, j, n) == n + FlatIndex(i - 1, j, n)
    ensures FlatIndex(i - 1, j, n) < (m - 1) * n
  {
    assert i * n == n + (i - 1) * n;
    assert (i - 1) * n + j < (i - 1) * n + n == i * n <= (m - 1) * n;
  }

  function RowCells(s: Sample, cols: seq<string>): (v: seq<Cell>)
    ensures |v| == |cols|
  {
    seq(|cols|, j requires 0 <= j < |cols| => CellOf(s, cols[j]))
  }

  /** Two missing values match, one missing value is a mismatch, otherwise the values are compared. */
  predicate Match(x: Cell, y: Cell) {
    if x.None? && y.None? then true
    else if x.None? || y.None? then false
    else x.value == y.value
  }

  /** How many positions of `zip(a, b)` match. */
  function Common(a: seq<Cell>, b: seq<Cell>): (n: nat)
    ensures n <= |a| && n <= |b|
  {
    if a == [] || b == [] then 0
    else (if Match(a[0], b[0]) then 1 else 0) + Common(a[1..], b[1..])
  }

  function Min(x: nat, y: nat): nat {
    if x <= y then x else y
  }

  /** The identity percentage; `None` (NA) when nothing was compared. */
  function Percentage(common: nat, total: nat): (p: Option<real>)
    requires common <= total
    ensures p.None? <==> total == 0
    ensures p.Some? ==> 0.0 <= p.value <= 100.0
    ensures p.Some? && common == total ==> p.value == 100.0
    ensures p.Some? ==> p.value * (total as real) == (common as real) * 100.0
  {
    if total > 0 then Some((common as real / total as real) * 100.0) else None
  }

  /** The matrix cell for sample names `n1` and `n2`. */
  function Identity(rows: seq<Sample>, cols: seq<string>, n1: Cell, n2: Cell): Option<real> {
    var a := Flatten(Selected(rows, n1), cols);
    var b := Flatten(Selected(rows, n2), cols);
    Percentage(Common(a, b), Min(|a|, |b|))
  }

  /** The counting loop over `zip(sample_1, sample_2)`. */
  method CountMatches(a: seq<Cell>, b: seq<Cell>) returns (common: nat, total: nat)
    ensures total == Min(|a|, |b|)
    ensures common == Common(a, b)
  {
    common, total := 0, 0;
    var k := 0;
    while k < |a| && k < |b|
      invariant 0 <= k <= |a| && k <= |b|
      invariant total == k
      invariant common + Common(a[k..], b[k..]) == Common(a, b)
    {
      assert a[k..][1..] == a[k + 1..] && b[k..][1..] == b[k + 1..];
      total := total + 1;
      if Match(a[k], b[k]) {
        common := common + 1;
      }
      k := k + 1;
    }
  }

  /**
   * `_sample_heatmap`: a square matrix indexed by the distinct sample names,
   * filled by two nested loops.
   */
  method SampleHeatmap(rows: seq<Sample>, cols: seq<string>) returns (names: seq<Cell>, m: array2<Option<real>>)
    ensures names == SampleNames(rows)
    ensures fresh(m) && m.Length0 == |names| && m.Length1 == |names|
    ensures forall i, j :: 0 <= i < |names| && 0 <= j < |names| ==> m[i, j] == Identity(rows, cols, names[i], names[j])
  {
    names := SampleNames(rows);
    m := new Option<real>[|names|, |names|]((i, j) => None);
    var i := 0;
    while i < |names|
      invariant 0 <= i <= |names|
      invariant forall p, q :: 0 <= p < i && 0 <= q < |names| ==> m[p, q] == Identity(rows, cols, names[p], names[q])
    {
      FillRow(m, rows, cols, names, i);
      i := i + 1;
    }
  }

  /** The inner loop: row `i` of the matrix, one cell per name; the other rows are left alone. */
  method FillRow(m: array2<Option<real>>, rows: seq<Sample>, cols: seq<string>, names: seq<Cell>, i: nat)
    requires m.Length0 == |names| && m.Length1 == |names| && i < |names|
    modifies m
    ensures forall q :: 0 <= q < |names| ==> m[i, q] == Identity(rows, cols, names[i], names[q])
    ensures forall p, q :: 0 <= p < |names| && p != i && 0 <= q < |names| ==> m[p, q] == old(m[p, q])
  {
    var j := 0;
    while j < |names|
      invariant 0 <= j <= |names|
      invariant forall q :: 0 <= q < j ==> m[i, q] == Identity(rows, cols, names[i], names[q])
      invariant forall p, q :: 0 <= p < |names| && 0 <= q < |names| && (p != i || j <= q) ==> m[p, q] == old(m[p, q])
    {
      var v := IdentityCell(rows, cols, names[i], names[j]);
      m[i, j] := v;
      j := j + 1;
    }
  }

  /** One cell of the heatmap: the two selections flattened, then their matches counted. */
  method IdentityCell(rows: seq<Sample>, cols: seq<string>, n1: Cell, n2: Cell) returns (p: Option<real>)
    ensures p == Identity(rows, cols, n1, n2)
  {
    var s1 := Flatten(Selected(rows, n1), cols);
    var s2 := Flatten(Selected(rows, n2), cols);
    var common, total := CountMatches(s1, s2);
    p := Percentage(common, total);
  }


  // ---------------------------------------------------------------------
  // Properties of the matrix

  lemma {:induction false} CommonSymmetric(a: seq<Cell>, b: seq<Cell>)
    ensures Common(a, b) == Common(b, a)
  {
    if a != [] && b != [] {
      CommonSymmetric(a[1..], b[1..]);
    }
  }

  lemma {:induction false} CommonSelf(a: seq<Cell>)
    ensures Common(a, a) == |a|
  {
    if a != [] {
      CommonSelf(a[1..]);
    }
  }

  /** Every defined cell lies between 0 and 100. */
  lemma IdentityBounds(rows: seq<Sample>, cols: seq<string>, n1: Cell, n2: Cell)
    ensures var p := Identity(rows, cols, n1, n2); p.Some? ==> 0.0 <= p.value <= 100.0
  {
  }

  /** The matrix is symmetric. */
  lemma IdentitySymmetric(rows: seq<Sample>, cols: seq<string>, n1: Cell, n2: Cell)
    ensures Identity(rows, cols, n1, n2) == Identity(rows, cols, n2, n1)
  {
    CommonSymmetric(Flatten(Selected(rows, n1), cols), Flatten(Selected(rows, n2), cols));
  }

  /** A name that selects rows is 100% identical to itself; a NaN name gives NA. */
  lemma IdentityDiagonal(rows: seq<Sample>, cols: seq<string>, n: Cell)
    ensures n.Some? && (exists s :: s in rows && Name(s) == n) && cols != [] ==>
      Identity(rows, cols, n, n) == Some(100.0)
    ensures n.None? ==> Identity(rows, cols, n, n).None?
  {
    var a := Flatten(Selected(rows, n), cols);
    CommonSelf(a);
    if n.Some? && (exists s :: s in rows && Name(s) == n) && cols != [] {
      var s :| s in rows && Name(s) == n;
      assert s in Selected(rows, n);
    }
    if n.None? {
      NaNSelectsNothing(rows);
    }
  }

  lemma {:induction false} NaNSelectsNothing(rows: seq<Sample>)
    ensures Selected(rows, None) == []
  {
    if rows != [] {
      NaNSelectsNothing(rows[1..]);
    }
  }

  /** The diagonal of the computed matrix: 100 on every non-NaN name, since "Genre" is always compared. */
  lemma HeatmapDiagonal(rows: seq<Sample>, alleleCols: seq<string>, i: nat)
    requires i < |SampleNames(rows)| && SampleNames(rows)[i].Some?
    ensures Identity(rows, HeatmapColumns(alleleCols), SampleNames(rows)[i], SampleNames(rows)[i]) == Some(100.0)
  {
    var n := SampleNames(rows)[i];
    assert n in SampleNames(rows);
    IdentityDiagonal(rows, HeatmapColumns(alleleCols), n);
  }

  /** Both missing counts as a match and one missing as a mismatch. */
  lemma MissingValues(v: string)
    ensures Common([None], [None]) == 1
    ensures Common([None], [Some(v)]) == 0 && Common([Some(v)], [None]) == 0
  {
  }
}
