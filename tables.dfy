/** Tables: named columns in order, and rows mapping a column name to a cell. */
module Tables {
  import opened Wrappers
  import opened Text

  /** A table cell; None is pandas' missing value (NaN). */
  type Cell = Option<string>

  type Row = map<string, Cell>

  datatype Table = Table(columns: seq<string>, rows: seq<Row>)

  /** `row.get(c)`: the cell, missing when the row has no such column. */
  function Get(r: Row, c: string): Cell {
    if c in r then r[c] else None
  }

  /** `[c for c in cols if c not in drop]`. */
  function Without(cols: seq<string>, drop: seq<string>): (r: seq<string>)
    ensures forall c :: c in r <==> c in cols && c !in drop
    ensures IsSubseq(r, cols)
  {
    if cols == [] then []
    else if cols[0] in drop then SubseqSkip(Without(cols[1..], drop), cols); Without(cols[1..], drop)
    else [cols[0]] + Without(cols[1..], drop)
  }

  lemma {:induction false} SubseqSkip<T>(sub: seq<T>, s: seq<T>)
    requires s != [] && IsSubseq(sub, s[1..])
    ensures IsSubseq(sub, s)
    decreases |sub| + |s|
  {
    if sub != [] && sub[0] == s[0] {
      SubseqTail(sub, s[1..]);
    }
  }

  lemma {:induction false} SubseqTail<T>(sub: seq<T>, s: seq<T>)
    requires sub != [] && IsSubseq(sub, s)
    ensures IsSubseq(sub[1..], s)
    decreases |sub| + |s|
  {
    if sub[0] != s[0] {
      SubseqTail(sub, s[1..]);
      SubseqSkip(sub[1..], s);
    } else if sub[1..] != [] {
      SubseqSkip(sub[1..], s);
    }
  }

  /**
   * `validate_file_format`: the required columns the table lacks, in the
   * order of `required`; it is empty exactly when every one is present.
   */
  function MissingColumns(columns: seq<string>, required: seq<string>): (missing: seq<string>)
    ensures forall c :: c in missing <==> c in required && c !in columns
    ensures IsSubseq(missing, required)
    ensures missing == [] <==> forall c :: c in required ==> c in columns
  {
    var r := Without(required, columns);
    assert r != [] ==> r[0] in r;
    r
  }

  /** `str(cell)`: a missing cell prints as "nan". */
  function CellText(c: Cell): string {
    if c.None? then "nan" else c.value
  }

  /** A row without the named columns. */
  function DropCells(r: Row, drop: seq<string>): (d: Row)
    ensures forall c :: c in d <==> c in r && c !in drop
    ensures forall c :: c in d ==> d[c] == r[c]
  {
    map c | c in r && c !in drop :: r[c]
  }

  /**
   * `df.drop(columns=drop, errors="ignore")`: every listed column that is
   * present goes, absent ones are ignored, and every other column is kept
   * in order with its cells.
   */
  function DropColumns(t: Table, drop: seq<string>): (r: Table)
    ensures forall c :: c in r.columns <==> c in t.columns && c !in drop
    ensures IsSubseq(r.columns, t.columns)
    ensures |r.rows| == |t.rows|
    ensures forall i, c :: 0 <= i < |t.rows| && c !in drop ==> Get(r.rows[i], c) == Get(t.rows[i], c)
    ensures forall i, c :: 0 <= i < |t.rows| && c in drop ==> c !in r.rows[i]
  {
    Table(Without(t.columns, drop), seq(|t.rows|, i requires 0 <= i < |t.rows| => DropCells(t.rows[i], drop)))
  }
}
