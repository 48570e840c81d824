/**
 * Display helpers of src/visualization/plots.py: the row colouring of the
 * comparison tables and the blank separator rows between Patient groups.
 */
module Plots {
  import opened Wrappers
  import opened Text
  import opened Tables

  /** The background colour of a status; an unknown or missing status is "white". */
  function StatusColor(status: Cell): (color: string)
    ensures status == Some("success") ==> color == "#ffffff"
    ensures status == Some("error") ==> color == "#f8d7da"
    ensures status == Some("info") ==> color == "#d1ecf1"
    ensures status == Some("warning") ==> color == "#fff3cd"
    ensures status.None? || status.value !in ["success", "error", "info", "warning"] ==> color == "white"
  {
    if status == Some("success") then "#ffffff"
    else if status == Some("error") then "#f8d7da"
    else if status == Some("info") then "#d1ecf1"
    else if status == Some("warning") then "#fff3cd"
    else "white"
  }

  /** `highlight_status`: one identical style per cell of the row. */
  function HighlightStatus(cols: seq<string>, r: Row): (styles: seq<string>)
    requires "status_type" in cols
    ensures |styles| == |cols|
    ensures forall i :: 0 <= i < |styles| ==> styles[i] == "background-color: " + StatusColor(Get(r, "status_type"))
  {
    seq(|cols|, i requires 0 <= i < |cols| => "background-color: " + StatusColor(Get(r, "status_type")))
  }

  /** Distinct statuses get distinct colours. */
  lemma StatusColorsDistinct()
    ensures StatusColor(Some("success")) != StatusColor(Some("error"))
    ensures StatusColor(Some("error")) != StatusColor(Some("info"))
    ensures StatusColor(Some("info")) != StatusColor(Some("warning"))
    ensures StatusColor(Some("warning")) != StatusColor(Some("success"))
    ensures StatusColor(Some("error")) != StatusColor(Some("warning"))
    ensures StatusColor(Some("success")) != StatusColor(Some("info"))
  {
  }

  // ---------------------------------------------------------------------
  // Sorting by the group column

  /** `sort_values` order on cells: strings by code point, NaN last. */
  predicate CellLe(a: Cell, b: Cell) {
    if b.None? then true
    else if a.None? then false
    else StrLe(a.value, b.value)
  }

  lemma CellLeTotal(a: Cell, b: Cell)
    ensures CellLe(a, b) || CellLe(b, a)
  {
    if a.Some? && b.Some? {
      StrLeTotal(a.value, b.value);
    }
  }

  lemma CellLeTrans(a: Cell, b: Cell, c: Cell)
    requires CellLe(a, b) && CellLe(b, c)
    ensures CellLe(a, c)
  {
    if a.Some? && b.Some? && c.Some? {
      StrLeTrans(a.value, b.value, c.value);
    }
  }

  predicate SortedBy(rs: seq<Row>, g: string) {
    forall i, j :: 0 <= i < j < |rs| ==> CellLe(Get(rs[i], g), Get(rs[j], g))
  }

  /** Insert before the first row whose key is not smaller. */
  function InsertRow(x: Row, rs: seq<Row>, g: string): (r: seq<Row>)
    ensures multiset(r) == multiset(rs) + multiset{x}
  {
    if rs == [] then [x]
    else if CellLe(Get(x, g), Get(rs[0], g)) then [x] + rs
    else
      assert rs == [rs[0]] + rs[1..];
      [rs[0]] + InsertRow(x, rs[1..], g)
  }

  /** Every key of a sorted sequence is at least its first key. */
  lemma FirstIsLeast(rs: seq<Row>, g: string, j: int)
    requires SortedBy(rs, g) && 0 <= j < |rs|
    ensures CellLe(Get(rs[0], g), Get(rs[j], g))
  {
    if j == 0 {
      if Get(rs[0], g).Some? { StrLeTotal(Get(rs[0], g).value, Get(rs[0], g).value); }
    }
  }

  lemma {:induction false} InsertRowSorted(x: Row, rs: seq<Row>, g: string)
    requires SortedBy(rs, g)
    ensures SortedBy(InsertRow(x, rs, g), g)
  {
    if rs == [] {
    } else if CellLe(Get(x, g), Get(rs[0], g)) {
      forall j | 0 <= j < |rs| ensures CellLe(Get(x, g), Get(rs[j], g)) {
        FirstIsLeast(rs, g, j);
        CellLeTrans(Get(x, g), Get(rs[0], g), Get(rs[j], g));
      }
      ConsSorted(x, rs, g);
    } else {
      CellLeTotal(Get(x, g), Get(rs[0], g));
      assert SortedBy(rs[1..], g);
      InsertRowSorted(x, rs[1..], g);
      InsertedAfterHead(x, rs, g);
      ConsSorted(rs[0], InsertRow(x, rs[1..], g), g);
    }
  }

  /** A row no greater than every key of a sorted sequence can go in front of it. */
  lemma ConsSorted(h: Row, rest: seq<Row>, g: string)
    requires SortedBy(rest, g)
    requires forall j :: 0 <= j < |rest| ==> CellLe(Get(h, g), Get(rest[j], g))
    ensures SortedBy([h] + rest, g)
  {
    var r := [h] + rest;
    forall i, j | 0 <= i < j < |r| ensures CellLe(Get(r[i], g), Get(r[j], g)) {
      if i == 0 {
        assert r[j] == rest[j - 1];
      } else {
        assert r[i] == rest[i - 1] && r[j] == rest[j - 1];
      }
    }
  }

  /** Inserting past the head leaves the head no greater than every row after it. */
  lemma InsertedAfterHead(x: Row, rs: seq<Row>, g: string)
    requires rs != [] && SortedBy(rs, g) && CellLe(Get(rs[0], g), Get(x, g))
    ensures forall j :: 0 <= j < |InsertRow(x, rs[1..], g)| ==> CellLe(Get(rs[0], g), Get(InsertRow(x, rs[1..], g)[j], g))
  {
    var rest := InsertRow(x, rs[1..], g);
    forall j | 0 <= j < |rest| ensures CellLe(Get(rs[0], g), Get(rest[j], g)) {
      assert rest[j] in multiset(rest);
      if rest[j] != x {
        assert rest[j] in multiset(rs[1..]);
        var k :| 0 <= k < |rs[1..]| && rs[1..][k] == rest[j];
        assert rs[k + 1] == rest[j];
      }
    }
  }

  /** `df.sort_values(group_col)`, taken as stable. */
  function SortByKey(rs: seq<Row>, g: string): (r: seq<Row>)
    ensures SortedBy(r, g)
    ensures multiset(r) == multiset(rs)
    ensures |r| == |rs|
  {
    if rs == [] then []
    else
      assert rs == [rs[0]] + rs[1..];
      InsertRowSorted(rs[0], SortByKey(rs[1..], g), g);
      var r := InsertRow(rs[0], SortByKey(rs[1..], g), g);
      assert |r| == |multiset(r)| == |rs|;
      r
  }

  // ---------------------------------------------------------------------
  // Blank rows

  /** `row[group_col] != previous_value`; NaN differs from everything, itself included. */
  predicate KeysDiffer(prev: Cell, cur: Cell) {
    prev.None? || cur.None? || prev.value != cur.value
  }

  predicate BreakAt(rs: seq<Row>, g: string, i: nat)
    requires 0 < i < |rs|
  {
    KeysDiffer(Get(rs[i - 1], g), Get(rs[i], g))
  }

  /** The output as a layout: `None` for a blank row, `Some(r)` for input row `r`. */
  function Layout(rs: seq<Row>, g: string): (l: seq<Option<Row>>)
    ensures |l| >= |rs|
  {
    if rs == [] then []
    else
      var n := |rs|;
      Layout(rs[..n - 1], g) + (if n > 1 && BreakAt(rs, g, n - 1) then [None] else []) + [Some(rs[n - 1])]
  }

  /** The all-"" row on the given columns. */
  function BlankRow(cols: seq<string>): Row {
    map c | c in cols :: Some("")
  }

  function Render(l: seq<Option<Row>>, cols: seq<string>): (out: seq<Row>)
    ensures |out| == |l|
  {
    seq(|l|, i requires 0 <= i < |l| => if l[i].None? then BlankRow(cols) else l[i].value)
  }

  /**
   * `insert_blank_rows_between_groups`: after sorting, a blank row goes in
   * front of every row whose key differs from the previous row's. An empty
   * table gives an empty frame without columns.
   */
  method InsertBlankRowsBetweenGroups(t: Table, g: string) returns (r: Table)
    requires g in t.columns
    ensures t.rows == [] ==> r == Table([], [])
    ensures t.rows != [] ==> r == Table(t.columns, Render(Layout(SortByKey(t.rows, g), g), t.columns))
  {
    var sorted := SortByKey(t.rows, g);
    var rows: seq<Row> := [];
    var previous: Option<Cell> := None;
    var k := 0;
    while k < |sorted|
      invariant 0 <= k <= |sorted|
      invariant rows == Render(Layout(sorted[..k], g), t.columns)
      invariant previous == if k == 0 then None else Some(Get(sorted[k - 1], g))
    {
      var row := sorted[k];
      LayoutStep(sorted, g, k, t.columns);
      if previous.Some? && KeysDiffer(previous.value, Get(row, g)) {
        rows := rows + [BlankRow(t.columns)];
      }
      rows := rows + [row];
      previous := Some(Get(row, g));
      k := k + 1;
    }
    assert sorted[..k] == sorted;
    if rows == [] {
      r := Table([], []);
    } else {
      r := Table(t.columns, rows);
    }
  }

  lemma RenderAppend(a: seq<Option<Row>>, b: seq<Option<Row>>, cols: seq<string>)
    ensures Render(a + b, cols) == Render(a, cols) + Render(b, cols)
  {
  }

  /** One more sorted row adds at most a blank row and then that row. */
  lemma LayoutStep(s: seq<Row>, g: string, k: nat, cols: seq<string>)
    requires k < |s|
    ensures Render(Layout(s[..k + 1], g), cols)
         == Render(Layout(s[..k], g), cols)
            + (if k > 0 && KeysDiffer(Get(s[k - 1], g), Get(s[k], g)) then [BlankRow(cols)] else [])
            + [s[k]]
  {
    var p := s[..k + 1];
    assert p[..k] == s[..k];
    var gap: seq<Option<Row>> := if k > 0 && BreakAt(p, g, k) then [None] else [];
    assert Layout(p, g) == Layout(s[..k], g) + gap + [Some(s[k])];
    RenderAppend(Layout(s[..k], g) + gap, [Some(s[k])], cols);
    RenderAppend(Layout(s[..k], g), gap, cols);
  }

  // ---------------------------------------------------------------------
  // What the layout promises

  /** The non-blank rows of a layout, in order. */
  function DataRows(l: seq<Option<Row>>): (rs: seq<Row>)
    ensures |rs| <= |l|
  {
    if l == [] then []
    else DataRows(l[..|l| - 1]) + (if l[|l| - 1].Some? then [l[|l| - 1].value] else [])
  }

  lemma DataRowsAppend(a: seq<Option<Row>>, b: seq<Option<Row>>)
    ensures DataRows(a + b) == DataRows(a) + DataRows(b)
    decreases |b|
  {
    if b != [] {
      assert (a + b)[..|a + b| - 1] == a + b[..|b| - 1];
      DataRowsAppend(a, b[..|b| - 1]);
    } else {
      assert a + b == a;
    }
  }

  lemma DataRowsSingle(x: Option<Row>)
    ensures DataRows([x]) == if x.Some? then [x.value] else []
  {
    assert [x][..0] == [];
  }

  /** Removing the blank rows gives back the sorted rows, in order. */
  lemma {:induction false} LayoutKeepsRows(rs: seq<Row>, g: string)
    ensures DataRows(Layout(rs, g)) == rs
  {
    if rs != [] {
      var n := |rs|;
      var q := rs[..n - 1];
      var p := Layout(q, g);
      var gap: seq<Option<Row>> := if n > 1 && BreakAt(rs, g, n - 1) then [None] else [];
      var l := Layout(rs, g);
      assert l == p + gap + [Some(rs[n - 1])];
      LayoutKeepsRows(q, g);
      GapHasNoData(p, gap, Some(rs[n - 1]));
      assert DataRows(l) == q + [rs[n - 1]];
      LastSplit(rs);
    }
  }

  lemma LastSplit(rs: seq<Row>)
    requires rs != []
    ensures rs[..|rs| - 1] + [rs[|rs| - 1]] == rs
  {
  }

  lemma GapHasNoData(p: seq<Option<Row>>, gap: seq<Option<Row>>, x: Option<Row>)
    requires gap == [] || gap == [None]
    requires x.Some?
    ensures DataRows(p + gap + [x]) == DataRows(p) + [x.value]
  {
    DataRowsSingle(x);
    DataRowsAppend(p + gap, [x]);
    DataRowsAppend(p, gap);
    if gap != [] { DataRowsSingle(None); } else { assert p + gap == p; }
  }

  /** The number of adjacent sorted rows whose keys differ. */
  function Breaks(rs: seq<Row>, g: string): (n: nat)
    ensures rs != [] ==> n < |rs|
  {
    if |rs| <= 1 then 0
    else Breaks(rs[..|rs| - 1], g) + (if BreakAt(rs, g, |rs| - 1) then 1 else 0)
  }

  /** One blank row per break and nothing else is added. */
  lemma {:induction false} LayoutLength(rs: seq<Row>, g: string)
    ensures |Layout(rs, g)| == |rs| + Breaks(rs, g)
  {
    if rs != [] {
      LayoutLength(rs[..|rs| - 1], g);
    }
  }

  /** The output starts and ends with a data row. */
  lemma {:induction false} LayoutEnds(rs: seq<Row>, g: string)
    requires rs != []
    ensures Layout(rs, g)[0] == Some(rs[0])
    ensures Layout(rs, g)[|Layout(rs, g)| - 1] == Some(rs[|rs| - 1])
  {
    if |rs| > 1 {
      LayoutEnds(rs[..|rs| - 1], g);
    }
  }

  predicate BlankBetweenGroups(l: seq<Option<Row>>, g: string, i: int)
    requires 0 <= i < |l|
  {
    0 < i < |l| - 1 && l[i - 1].Some? && l[i + 1].Some?
    && KeysDiffer(Get(l[i - 1].value, g), Get(l[i + 1].value, g))
  }

  predicate SameGroupAdjacent(l: seq<Option<Row>>, g: string, i: int)
    requires 0 <= i < |l| - 1 && l[i].Some? && l[i + 1].Some?
  {
    !KeysDiffer(Get(l[i].value, g), Get(l[i + 1].value, g))
  }

  /**
   * A blank row stands exactly between two rows of different groups: every
   * blank row has a data row on each side with differing keys, and two
   * adjacent data rows have the same key.
   */
  lemma {:induction false} LayoutSeparatesGroups(rs: seq<Row>, g: string)
    ensures forall i :: 0 <= i < |Layout(rs, g)| && Layout(rs, g)[i].None? ==> BlankBetweenGroups(Layout(rs, g), g, i)
    ensures forall i :: 0 <= i < |Layout(rs, g)| - 1 && Layout(rs, g)[i].Some? && Layout(rs, g)[i + 1].Some?
                      ==> SameGroupAdjacent(Layout(rs, g), g, i)
  {
    if |rs| > 1 {
      var n := |rs|;
      var p := Layout(rs[..n - 1], g);
      LayoutSeparatesGroups(rs[..n - 1], g);
      LayoutEnds(rs[..n - 1], g);
      var gap: seq<Option<Row>> := if BreakAt(rs, g, n - 1) then [None] else [];
      var l := Layout(rs, g);
      assert l == p + gap + [Some(rs[n - 1])];
      assert p[|p| - 1] == Some(rs[n - 2]);
      forall i | 0 <= i < |l| && l[i].None? ensures BlankBetweenGroups(l, g, i) {
        if i < |p| {
          assert BlankBetweenGroups(p, g, i);
        }
      }
      forall i | 0 <= i < |l| - 1 && l[i].Some? && l[i + 1].Some? ensures SameGroupAdjacent(l, g, i) {
        if i < |p| - 1 {
          assert SameGroupAdjacent(p, g, i);
        }
      }
    }
  }

  /** The keys of the rows, as a set. */
  function KeySet(rs: seq<Row>, g: string): set<Cell> {
    set i | 0 <= i < |rs| :: Get(rs[i], g)
  }

  lemma KeySetLast(rs: seq<Row>, g: string)
    requires rs != []
    ensures KeySet(rs, g) == KeySet(rs[..|rs| - 1], g) + {Get(rs[|rs| - 1], g)}
  {
    var p := rs[..|rs| - 1];
    forall c | c in KeySet(rs, g) ensures c in KeySet(p, g) + {Get(rs[|rs| - 1], g)} {
      var i :| 0 <= i < |rs| && Get(rs[i], g) == c;
      if i < |rs| - 1 { assert Get(p[i], g) == c; }
    }
    forall c | c in KeySet(p, g) ensures c in KeySet(rs, g) {
      var i :| 0 <= i < |p| && Get(p[i], g) == c;
      assert Get(rs[i], g) == c;
    }
  }

  /** In sorted rows, a key that differs from the one before is new. */
  lemma NewKeyAfterBreak(rs: seq<Row>, g: string)
    requires SortedBy(rs, g)
    requires forall i :: 0 <= i < |rs| ==> Get(rs[i], g).Some?
    requires |rs| > 1 && BreakAt(rs, g, |rs| - 1)
    ensures Get(rs[|rs| - 1], g) !in KeySet(rs[..|rs| - 1], g)
  {
    var n := |rs|;
    var p := rs[..n - 1];
    var last := Get(rs[n - 1], g);
    if last in KeySet(p, g) {
      var i :| 0 <= i < |p| && Get(p[i], g) == last;
      if i < n - 2 {
        assert CellLe(Get(rs[i], g), Get(rs[n - 2], g));
        StrLeAntisym(Get(rs[n - 2], g).value, last.value);
      }
      assert false;
    }
  }

  /** A key equal to the one before adds no group. */
  lemma OldKeyWithoutBreak(rs: seq<Row>, g: string)
    requires forall i :: 0 <= i < |rs| ==> Get(rs[i], g).Some?
    requires |rs| > 1 && !BreakAt(rs, g, |rs| - 1)
    ensures KeySet(rs, g) == KeySet(rs[..|rs| - 1], g)
  {
    var p := rs[..|rs| - 1];
    KeySetLast(rs, g);
    assert Get(p[|rs| - 2], g) in KeySet(p, g);
  }

  /**
   * On sorted rows that all have a key, the blank rows number one fewer
   * than the groups.
   */
  lemma {:induction false} BreaksCountGroups(rs: seq<Row>, g: string)
    requires SortedBy(rs, g)
    requires forall i :: 0 <= i < |rs| ==> Get(rs[i], g).Some?
    requires rs != []
    ensures Breaks(rs, g) == |KeySet(rs, g)| - 1
  {
    var n := |rs|;
    if n == 1 {
      assert KeySet(rs, g) == {Get(rs[0], g)};
    } else {
      var p := rs[..n - 1];
      assert SortedBy(p, g);
      BreaksCountGroups(p, g);
      if BreakAt(rs, g, n - 1) {
        KeySetLast(rs, g);
        NewKeyAfterBreak(rs, g);
      } else {
        OldKeyWithoutBreak(rs, g);
      }
    }
  }
}
