/**
 * Intra-patient comparison: the samples are grouped by Patient and each
 * group gets one verdict written into its status columns. Two rule sets
 * exist: the current one (src/services/identity_vigilance.py, repeated in
 * src/data/comparison.py) and the legacy one of utils.py.
 */
module Intra {
  import opened Wrappers
  import opened Text
  import opened Tables
  import opened Frames

  /** `Current` flags a negative control with alleles; `Legacy` first flags samples without alleles. */
  datatype Rules = Current | Legacy

  /** A status to write into every row of a group. */
  datatype Mark = Mark(status: StatusType, description: string)

  function Apply(s: Sample, m: Mark): Sample {
    s.(status := m.status, description := m.description)
  }

  // ---------------------------------------------------------------------
  // Groups

  /**
   * `df.groupby("Patient")`: the distinct Patient values in increasing
   * order; rows whose Patient is NaN belong to no group.
   */
  function GroupKeys(rows: seq<Sample>): (ks: seq<string>)
    ensures StrictlySorted(ks)
    ensures forall k :: k in ks <==> exists i :: 0 <= i < |rows| && rows[i].patient == Some(k)
  {
    if rows == [] then []
    else
      var rest := GroupKeys(rows[1..]);
      assert forall k :: (exists i :: 0 <= i < |rows[1..]| && rows[1..][i].patient == Some(k))
                     ==> exists i :: 0 <= i < |rows| && rows[i].patient == Some(k) by {
        forall k | exists i :: 0 <= i < |rows[1..]| && rows[1..][i].patient == Some(k)
          ensures exists i :: 0 <= i < |rows| && rows[i].patient == Some(k)
        {
          var i :| 0 <= i < |rows[1..]| && rows[1..][i].patient == Some(k);
          assert rows[i + 1].patient == Some(k);
        }
      }
      assert forall k :: (exists i :: 0 <= i < |rows| && rows[i].patient == Some(k))
                     ==> rows[0].patient == Some(k) || exists i :: 0 <= i < |rows[1..]| && rows[1..][i].patient == Some(k) by {
        forall k | exists i :: 0 <= i < |rows| && rows[i].patient == Some(k)
          ensures rows[0].patient == Some(k) || exists i :: 0 <= i < |rows[1..]| && rows[1..][i].patient == Some(k)
        {
          var i :| 0 <= i < |rows| && rows[i].patient == Some(k);
          if i > 0 { assert rows[1..][i - 1].patient == Some(k); }
        }
      }
      if rows[0].patient.Some? then InsertKey(rows[0].patient.value, rest) else rest
  }

  /** The rows of one group, in table order. */
  function Group(rows: seq<Sample>, k: string): (g: seq<Sample>)
    ensures forall s :: s in g ==> s.patient == Some(k) && s in rows
    ensures forall i :: 0 <= i < |rows| && rows[i].patient == Some(k) ==> rows[i] in g
    ensures |g| <= |rows|
  {
    if rows == [] then []
    else if rows[0].patient == Some(k) then [rows[0]] + Group(rows[1..], k)
    else
      assert forall i :: 1 <= i < |rows| ==> rows[i] == rows[1..][i - 1];
      Group(rows[1..], k)
  }

  /** A group only reads its own rows. */
  lemma {:induction false} GroupOnlyReadsItsRows(a: seq<Sample>, b: seq<Sample>, k: string)
    requires |a| == |b|
    requires forall i :: 0 <= i < |a| ==> a[i].patient == b[i].patient
    requires forall i :: 0 <= i < |a| && a[i].patient == Some(k) ==> a[i] == b[i]
    ensures Group(a, k) == Group(b, k)
  {
    if a != [] {
      GroupOnlyReadsItsRows(a[1..], b[1..], k);
    }
  }

  lemma {:induction false} GroupNonEmpty(rows: seq<Sample>, k: string, i: nat)
    requires i < |rows| && rows[i].patient == Some(k)
    ensures Group(rows, k) != []
  {
  }

  /** `series.nunique()` for a sequence of values. */
  function NUnique<T(==)>(xs: seq<T>): nat {
    |set x | x in xs|
  }

  /** `nunique() > 1` holds exactly when two entries differ. */
  lemma NUniqueAboveOne<T>(xs: seq<T>)
    requires xs != []
    ensures NUnique(xs) > 1 <==> exists i :: 0 <= i < |xs| && xs[i] != xs[0]
  {
    var s := set x | x in xs;
    if exists i :: 0 <= i < |xs| && xs[i] != xs[0] {
      var i :| 0 <= i < |xs| && xs[i] != xs[0];
      assert {xs[0], xs[i]} <= s;
      assert |{xs[0], xs[i]}| == 2;
      SubsetCard({xs[0], xs[i]}, s);
    } else {
      assert s == {xs[0]} by {
        forall x | x in s ensures x == xs[0] {
          var i :| 0 <= i < |xs| && xs[i] == x;
        }
      }
    }
  }

  function Signatures(g: seq<Sample>): seq<seq<string>> {
    seq(|g|, i requires 0 <= i < |g| => g[i].signature)
  }

  function Genres(g: seq<Sample>): seq<Sex> {
    seq(|g|, i requires 0 <= i < |g| => g[i].genre)
  }

  // ---------------------------------------------------------------------
  // The rules

  /** The legacy pre-pass: every non-control row without alleles is flagged before grouping. */
  function PrePass(rules: Rules, rows: seq<Sample>): (r: seq<Sample>)
    ensures |r| == |rows|
    ensures forall i :: 0 <= i < |rows| ==> r[i] == rows[i] || r[i] == Apply(rows[i], Mark(Error, "no alleles found"))
    ensures forall i :: 0 <= i < |rows| ==> r[i].patient == rows[i].patient
    ensures forall i :: 0 <= i < |rows| ==> r[i].signature == rows[i].signature && r[i].genre == rows[i].genre
  {
    seq(|rows|, i requires 0 <= i < |rows| =>
      if rules == Legacy && rows[i].sigLen == 0 && !rows[i].isNeg
      then Apply(rows[i], Mark(Error, "no alleles found")) else rows[i])
  }

  /**
   * The guard `status_type.unique() == "success"`, read as intended: every
   * row of the group is still "success".
   */
  predicate StillSuccess(g: seq<Sample>) {
    forall s :: s in g ==> s.status == Success
  }

  /** What one group is marked with, or `None` when it is left as it is. */
  function Verdict(rules: Rules, g: seq<Sample>): Option<Mark>
    requires g != []
  {
    if |g| == 1 && !g[0].isNeg then
      if StillSuccess(g) then Some(Mark(Warning, "Echantillon unique")) else None
    else if |g| == 1 then
      if rules == Current && g[0].sigLen > 0 then Some(Mark(Error, "Contrôle négatif avec alleles"))
      else if StillSuccess(g) then Some(Mark(Info, "Contrôle négatif"))
      else None
    else if NUnique(Signatures(g)) > 1 then
      if StillSuccess(g) then Some(Mark(Error, "Incohérente de SNPs")) else None
    else if NUnique(Genres(g)) > 1 then
      if StillSuccess(g) then Some(Mark(Error, "Incohérence de genre")) else None
    else None
  }

  /** One row after its group's verdict. */
  function Judged(rules: Rules, rows: seq<Sample>, i: nat): Sample
    requires i < |rows|
  {
    var s := rows[i];
    if s.patient.None? then s
    else
      GroupNonEmpty(rows, s.patient.value, i);
      var v := Verdict(rules, Group(rows, s.patient.value));
      if v.Some? then Apply(s, v.value) else s
  }

  /** The rows `_intra_comparison` returns, as a function of its input rows. */
  function IntraRows(rules: Rules, rows: seq<Sample>): (r: seq<Sample>)
    ensures |r| == |rows|
  {
    var pre := PrePass(rules, rows);
    seq(|pre|, i requires 0 <= i < |pre| => Judged(rules, pre, i))
  }

  /** The legacy copy drops three helper columns at the end. */
  const LegacyDropped := ["signature", "signature_len", "is_neg"]

  function IntraColumns(rules: Rules, cols: seq<string>): seq<string> {
    if rules == Legacy then Without(cols, LegacyDropped) else cols
  }

  /** The columns that the comparison reads. */
  predicate HasIntraColumns(f: Frame) {
    HasColumns(f, ["Patient", "is_neg", "status_type", "status_description", "signature", "signature_len", "Genre"])
  }

  /** The rows after the groups of `keys[..n]` have been judged. */
  predicate JudgedUpTo(rules: Rules, pre: seq<Sample>, keys: seq<string>, n: nat, rows: seq<Sample>)
    requires n <= |keys|
  {
    && |rows| == |pre|
    && (forall i :: 0 <= i < |pre| ==> rows[i].patient == pre[i].patient)
    && forall i :: 0 <= i < |pre| ==>
         rows[i] == if pre[i].patient.Some? && pre[i].patient.value in keys[..n] then Judged(rules, pre, i) else pre[i]
  }

  /** Writing one verdict into the rows of group `k`. */
  function JudgeGroup(rows: seq<Sample>, k: string, v: Option<Mark>): (r: seq<Sample>)
    ensures |r| == |rows|
    ensures forall i :: 0 <= i < |rows| ==> r[i].patient == rows[i].patient
    ensures forall i :: 0 <= i < |rows| ==> r[i].signature == rows[i].signature && r[i].genre == rows[i].genre
  {
    seq(|rows|, i requires 0 <= i < |rows| =>
      if rows[i].patient == Some(k) && v.Some? then Apply(rows[i], v.value) else rows[i])
  }

  /** The row of group `k` after its verdict, read off the untouched rows. */
  lemma JudgedRow(rules: Rules, pre: seq<Sample>, k: string, i: nat)
    requires i < |pre| && pre[i].patient == Some(k)
    ensures Group(pre, k) != []
    ensures JudgeGroup(pre, k, Verdict(rules, Group(pre, k)))[i] == Judged(rules, pre, i)
  {
    GroupNonEmpty(pre, k, i);
  }

  /** In a strictly increasing list, each key is new to the keys before it. */
  lemma FreshKey(keys: seq<string>, n: nat)
    requires n < |keys| && StrictlySorted(keys)
    ensures keys[n] !in keys[..n] && keys[..n + 1] == keys[..n] + [keys[n]]
  {
  }

  /** Judging the next group, whose rows are still untouched, extends the judged prefix. */
  lemma JudgeNextGroup(rules: Rules, pre: seq<Sample>, keys: seq<string>, n: nat, rows: seq<Sample>)
    requires n < |keys| && keys[n] !in keys[..n] && keys[..n + 1] == keys[..n] + [keys[n]]
    requires exists i :: 0 <= i < |pre| && pre[i].patient == Some(keys[n])
    requires JudgedUpTo(rules, pre, keys, n, rows)
    ensures Group(rows, keys[n]) == Group(pre, keys[n]) != []
    ensures JudgedUpTo(rules, pre, keys, n + 1, JudgeGroup(rows, keys[n], Verdict(rules, Group(pre, keys[n]))))
  {
    var k := keys[n];
    GroupOnlyReadsItsRows(rows, pre, k);
    var i0 :| 0 <= i0 < |pre| && pre[i0].patient == Some(k);
    GroupNonEmpty(pre, k, i0);
    forall i | 0 <= i < |pre|
      ensures JudgeGroup(rows, k, Verdict(rules, Group(pre, k)))[i]
           == if pre[i].patient.Some? && pre[i].patient.value in keys[..n + 1] then Judged(rules, pre, i) else pre[i]
    {
      JudgeNextRow(rules, pre, keys, n, rows, i);
    }
  }

  /** One row after the next group is judged. */
  lemma JudgeNextRow(rules: Rules, pre: seq<Sample>, keys: seq<string>, n: nat, rows: seq<Sample>, i: nat)
    requires n < |keys| && keys[n] !in keys[..n] && keys[..n + 1] == keys[..n] + [keys[n]]
    requires JudgedUpTo(rules, pre, keys, n, rows) && i < |pre|
    requires Group(pre, keys[n]) != []
    ensures JudgeGroup(rows, keys[n], Verdict(rules, Group(pre, keys[n])))[i]
         == if pre[i].patient.Some? && pre[i].patient.value in keys[..n + 1] then Judged(rules, pre, i) else pre[i]
  {
    var k := keys[n];
    var v := Verdict(rules, Group(pre, k));
    var next := JudgeGroup(rows, k, v);
    if pre[i].patient == Some(k) {
      assert rows[i] == pre[i];
      JudgedRow(rules, pre, k, i);
      assert next[i] == JudgeGroup(pre, k, v)[i];
    } else {
      assert next[i] == rows[i];
      assert pre[i].patient.Some? ==> (pre[i].patient.value in keys[..n + 1] <==> pre[i].patient.value in keys[..n]);
    }
  }

  /**
   * `_intra_comparison` / `intra_comparison`: for each Patient group in
   * key order, the group's rows all receive the group's verdict.
   */
  method IntraComparison(rules: Rules, f: Frame) returns (r: Frame)
    requires HasIntraColumns(f)
    ensures r == Frame(IntraColumns(rules, f.columns), IntraRows(rules, f.rows))
  {
    var pre := PrePass(rules, f.rows);
    var rows := pre;
    var keys := GroupKeys(pre);
    var idx := 0;
    while idx < |keys|
      invariant 0 <= idx <= |keys|
      invariant JudgedUpTo(rules, pre, keys, idx, rows)
    {
      FreshKey(keys, idx);
      JudgeNextGroup(rules, pre, keys, idx, rows);
      var v := Verdict(rules, Group(rows, keys[idx]));
      rows := JudgeGroup(rows, keys[idx], v);
      idx := idx + 1;
    }
    assert keys[..idx] == keys;
    assert forall i :: 0 <= i < |pre| && pre[i].patient.Some? ==> pre[i].patient.value in keys;
    r := Frame(IntraColumns(rules, f.columns), rows);
  }

  // ---------------------------------------------------------------------
  // Properties of the comparison

  /** The current rules have no pre-pass. */
  lemma CurrentHasNoPrePass(rows: seq<Sample>)
    ensures PrePass(Current, rows) == rows
  {
  }

  /** Two distinct rows with one key make a group of at least two. */
  lemma {:induction false} GroupOfTwo(rows: seq<Sample>, k: string, i: nat, j: nat)
    requires i < |rows| && j < |rows| && i != j
    requires rows[i].patient == Some(k) && rows[j].patient == Some(k)
    ensures |Group(rows, k)| >= 2
  {
    if i == 0 {
      GroupNonEmpty(rows[1..], k, j - 1);
    } else if j == 0 {
      GroupNonEmpty(rows[1..], k, i - 1);
    } else {
      GroupOfTwo(rows[1..], k, i - 1, j - 1);
    }
  }

  /** A key held by one row only makes a group of that row alone. */
  lemma {:induction false} GroupOfOne(rows: seq<Sample>, k: string, i: nat)
    requires i < |rows| && rows[i].patient == Some(k)
    requires forall j :: 0 <= j < |rows| && rows[j].patient == Some(k) ==> j == i
    ensures Group(rows, k) == [rows[i]]
  {
    if i == 0 {
      NoGroup(rows[1..], k);
    } else {
      assert rows[0].patient != Some(k);
      GroupOfOne(rows[1..], k, i - 1);
    }
  }

  lemma {:induction false} NoGroup(rows: seq<Sample>, k: string)
    requires forall j :: 0 <= j < |rows| ==> rows[j].patient != Some(k)
    ensures Group(rows, k) == []
  {
    if rows != [] {
      NoGroup(rows[1..], k);
    }
  }

  /** Alone in its group: no other row has its Patient, in `rows` or in the pre-passed rows. */
  lemma AloneMeans(rules: Rules, rows: seq<Sample>, i: nat)
    requires i < |rows| && rows[i].patient.Some? && Alone(rows, i)
    ensures forall j :: 0 <= j < |rows| && PrePass(rules, rows)[j].patient == rows[i].patient ==> j == i
  {
    forall j | 0 <= j < |rows| && PrePass(rules, rows)[j].patient == rows[i].patient
      ensures j == i
    {
      assert SameGroup(rows, i, j);
    }
  }

  /** Same Patient as row `i`, whose Patient is present. */
  predicate SameGroup(rows: seq<Sample>, i: nat, j: int)
    requires i < |rows|
  {
    0 <= j < |rows| && rows[i].patient.Some? && rows[j].patient == rows[i].patient
  }

  predicate Alone(rows: seq<Sample>, i: nat)
    requires i < |rows|
  {
    forall j :: 0 <= j < |rows| && SameGroup(rows, i, j) ==> j == i
  }

  predicate GroupStillSuccess(rows: seq<Sample>, i: nat)
    requires i < |rows|
  {
    forall j :: 0 <= j < |rows| && SameGroup(rows, i, j) ==> rows[j].status == Success
  }

  /** Only the status columns change, and rows without a Patient are not judged. */
  lemma IntraOnlyWritesStatus(rules: Rules, rows: seq<Sample>, i: nat)
    requires i < |rows|
    ensures var out := IntraRows(rules, rows)[i];
      out.(status := rows[i].status, description := rows[i].description) == rows[i]
    ensures rows[i].patient.None? ==> IntraRows(rules, rows)[i] == PrePass(rules, rows)[i]
  {
  }

  /** A lone sample that is not a negative control is a warning, under both rule sets. */
  lemma LoneSampleIsWarning(rules: Rules, rows: seq<Sample>, i: nat)
    requires i < |rows| && rows[i].patient.Some? && Alone(rows, i)
    requires !rows[i].isNeg && rows[i].status == Success
    requires rules == Legacy ==> rows[i].sigLen > 0
    ensures IntraRows(rules, rows)[i] == Apply(rows[i], Mark(Warning, "Echantillon unique"))
  {
    var pre := PrePass(rules, rows);
    AloneMeans(rules, rows, i);
    GroupOfOne(pre, rows[i].patient.value, i);
  }

  /**
   * A lone negative control under the current rules: with alleles it is an
   * error whatever its status was; without, a still successful one is info.
   */
  lemma CurrentLoneNegativeControl(rows: seq<Sample>, i: nat)
    requires i < |rows| && rows[i].patient.Some? && Alone(rows, i) && rows[i].isNeg
    ensures rows[i].sigLen > 0 ==>
      IntraRows(Current, rows)[i] == Apply(rows[i], Mark(Error, "Contrôle négatif avec alleles"))
    ensures rows[i].sigLen == 0 && rows[i].status == Success ==>
      IntraRows(Current, rows)[i] == Apply(rows[i], Mark(Info, "Contrôle négatif"))
    ensures rows[i].sigLen == 0 && rows[i].status != Success ==> IntraRows(Current, rows)[i] == rows[i]
  {
    CurrentHasNoPrePass(rows);
    AloneMeans(Current, rows, i);
    GroupOfOne(rows, rows[i].patient.value, i);
  }

  /** The legacy rules call a lone, still successful negative control info even when it has alleles. */
  lemma LegacyLoneNegativeControl(rows: seq<Sample>, i: nat)
    requires i < |rows| && rows[i].patient.Some? && Alone(rows, i) && rows[i].isNeg
    requires rows[i].status == Success
    ensures IntraRows(Legacy, rows)[i] == Apply(rows[i], Mark(Info, "Contrôle négatif"))
  {
    AloneMeans(Legacy, rows, i);
    GroupOfOne(PrePass(Legacy, rows), rows[i].patient.value, i);
  }

  /** The judged group of a row with a Patient, with what it is made of. */
  lemma GroupOfRow(rows: seq<Sample>, i: nat, j: nat)
    requires i < |rows| && SameGroup(rows, i, j) && j != i
    ensures var g := Group(rows, rows[i].patient.value);
      && |g| >= 2 && rows[i] in g && rows[j] in g
      && (GroupStillSuccess(rows, i) ==> StillSuccess(g))
      && forall s :: s in g ==> exists m :: SameGroup(rows, i, m) && rows[m] == s
  {
    var k := rows[i].patient.value;
    GroupOfTwo(rows, k, i, j);
    var g := Group(rows, k);
    forall s | s in g ensures exists m :: SameGroup(rows, i, m) && rows[m] == s {
      var m :| 0 <= m < |rows| && rows[m] == s;
    }
  }

  /** Members of one Patient with different signatures are all errors when the group was still successful. */
  lemma SignatureMismatchIsError(rules: Rules, rows: seq<Sample>, i: nat, j: nat)
    requires i < |rows| && SameGroup(rows, i, j) && j != i
    requires rows[j].signature != rows[i].signature
    requires GroupStillSuccess(PrePass(rules, rows), i)
    ensures IntraRows(rules, rows)[i] == Apply(rows[i], Mark(Error, "Incohérente de SNPs"))
  {
    var pre := PrePass(rules, rows);
    assert SameGroup(pre, i, j);
    var g := Group(pre, rows[i].patient.value);
    GroupOfRow(pre, i, j);
    TwoSignatures(g, pre[i], pre[j]);
    RowGetsGroupVerdict(rules, rows, i);
    assert pre[i] == rows[i];
  }

  /** Two members with different signatures make `nunique` exceed one and the group an error. */
  lemma TwoSignatures(g: seq<Sample>, x: Sample, y: Sample)
    requires |g| >= 2 && x in g && y in g && x.signature != y.signature && StillSuccess(g)
    ensures forall rules :: Verdict(rules, g) == Some(Mark(Error, "Incohérente de SNPs"))
  {
    var sigs := Signatures(g);
    NUniqueAboveOne(sigs);
    var a :| 0 <= a < |g| && g[a] == x;
    var b :| 0 <= b < |g| && g[b] == y;
    assert sigs[a] != sigs[0] || sigs[b] != sigs[0];
  }

  /** In a group whose members share one signature, `nunique` of the signatures is at most one. */
  lemma OneSignature(rows: seq<Sample>, i: nat, j: nat)
    requires i < |rows| && SameGroup(rows, i, j) && j != i
    requires forall m :: SameGroup(rows, i, m) ==> rows[m].signature == rows[i].signature
    ensures var g := Group(rows, rows[i].patient.value); |g| >= 2 && NUnique(Signatures(g)) <= 1
  {
    var g := Group(rows, rows[i].patient.value);
    GroupOfRow(rows, i, j);
    var sigs := Signatures(g);
    NUniqueAboveOne(sigs);
    forall a | 0 <= a < |g| ensures sigs[a] == sigs[0] {
      assert g[a] in g && g[0] in g;
    }
  }

  /** A row with a Patient receives its group's verdict. */
  lemma RowGetsGroupVerdict(rules: Rules, rows: seq<Sample>, i: nat)
    requires i < |rows| && rows[i].patient.Some?
    ensures var pre := PrePass(rules, rows);
      var g := Group(pre, rows[i].patient.value);
      g != [] &&
      IntraRows(rules, rows)[i] == if Verdict(rules, g).Some? then Apply(pre[i], Verdict(rules, g).value) else pre[i]
  {
    GroupNonEmpty(PrePass(rules, rows), rows[i].patient.value, i);
  }

  lemma GenreVerdict(rules: Rules, g: seq<Sample>)
    requires |g| >= 2 && NUnique(Signatures(g)) <= 1 && StillSuccess(g)
    requires NUnique(Genres(g)) > 1
    ensures Verdict(rules, g) == Some(Mark(Error, "Incohérence de genre"))
  {
  }

  lemma ConsistentVerdict(rules: Rules, g: seq<Sample>)
    requires |g| >= 2 && NUnique(Signatures(g)) <= 1 && NUnique(Genres(g)) <= 1
    ensures Verdict(rules, g) == None
  {
  }

  /** A group of one signature but more than one Genre is all errors when it was still successful. */
  lemma GenreMismatchIsError(rules: Rules, rows: seq<Sample>, i: nat, j: nat)
    requires i < |rows| && SameGroup(rows, i, j) && j != i
    requires forall m :: SameGroup(rows, i, m) ==> rows[m].signature == rows[i].signature
    requires rows[j].genre != rows[i].genre && GroupStillSuccess(PrePass(rules, rows), i)
    ensures IntraRows(rules, rows)[i] == Apply(rows[i], Mark(Error, "Incohérence de genre"))
  {
    var pre := PrePass(rules, rows);
    OneSignature(pre, i, j);
    var g := Group(pre, rows[i].patient.value);
    GroupOfRow(pre, i, j);
    var genres := Genres(g);
    NUniqueAboveOne(genres);
    var a :| 0 <= a < |g| && g[a] == pre[i];
    var b :| 0 <= b < |g| && g[b] == pre[j];
    assert genres[a] != genres[b];
    assert genres[a] != genres[0] || genres[b] != genres[0];
    GenreVerdict(rules, g);
    RowGetsGroupVerdict(rules, rows, i);
  }

  /** A group of one signature and one Genre is left as it is. */
  lemma ConsistentGroupUnchanged(rules: Rules, rows: seq<Sample>, i: nat, j: nat)
    requires i < |rows| && SameGroup(rows, i, j) && j != i
    requires forall m :: SameGroup(rows, i, m) ==> rows[m].signature == rows[i].signature
    requires forall m :: SameGroup(rows, i, m) ==> rows[m].genre == rows[i].genre
    ensures IntraRows(rules, rows)[i] == PrePass(rules, rows)[i]
  {
    var pre := PrePass(rules, rows);
    assert SameGroup(pre, i, j);
    assert forall m :: SameGroup(pre, i, m) ==> pre[m].signature == pre[i].signature && pre[m].genre == pre[i].genre by {
      forall m | SameGroup(pre, i, m) ensures pre[m].signature == pre[i].signature && pre[m].genre == pre[i].genre {
        assert SameGroup(rows, i, m);
      }
    }
    OneGenre(pre, i, j);
    var g := Group(pre, rows[i].patient.value);
    ConsistentVerdict(rules, g);
    RowGetsGroupVerdict(rules, rows, i);
  }

  lemma OneGenre(rows: seq<Sample>, i: nat, j: nat)
    requires i < |rows| && SameGroup(rows, i, j) && j != i
    requires forall m :: SameGroup(rows, i, m) ==> rows[m].signature == rows[i].signature && rows[m].genre == rows[i].genre
    ensures var g := Group(rows, rows[i].patient.value);
      |g| >= 2 && NUnique(Signatures(g)) <= 1 && NUnique(Genres(g)) <= 1
  {
    OneSignature(rows, i, j);
    var g := Group(rows, rows[i].patient.value);
    GroupOfRow(rows, i, j);
    var genres := Genres(g);
    NUniqueAboveOne(genres);
    forall a | 0 <= a < |g| ensures genres[a] == genres[0] {
      assert g[a] in g && g[0] in g;
    }
  }

  /** Legacy: a sample without alleles outside the negative controls is an error from the pre-pass on. */
  lemma LegacyNoAllelesIsError(rows: seq<Sample>, i: nat)
    requires i < |rows| && rows[i].sigLen == 0 && !rows[i].isNeg
    ensures IntraRows(Legacy, rows)[i] == Apply(rows[i], Mark(Error, "no alleles found"))
  {
    LegacyNeverOverwrites(rows, i);
  }

  /** Legacy: a row whose status is no longer "success" after the pre-pass keeps it. */
  lemma LegacyNeverOverwrites(rows: seq<Sample>, i: nat)
    requires i < |rows|
    requires PrePass(Legacy, rows)[i].status != Success
    ensures IntraRows(Legacy, rows)[i] == PrePass(Legacy, rows)[i]
  {
    var pre := PrePass(Legacy, rows);
    if pre[i].patient.Some? {
      var g := Group(pre, pre[i].patient.value);
      assert pre[i] in g && !StillSuccess(g);
    }
  }

  /** Current: a lone negative control with alleles is an error even over an earlier status. */
  lemma CurrentContaminatedControlOverwrites()
    ensures var s := Sample(map[], ["A"], "", 1, Undetermined, Some("neg"), true, Warning, "earlier");
      IntraRows(Current, [s])[0].status == Error
  {
    var s := Sample(map[], ["A"], "", 1, Undetermined, Some("neg"), true, Warning, "earlier");
    CurrentLoneNegativeControl([s], 0);
  }

  /** The intra comparison leaves is_neg and signature_len as they were. */
  lemma IntraKeepsControlFields(rules: Rules, rows: seq<Sample>, i: nat)
    requires i < |rows|
    ensures IntraRows(rules, rows)[i].isNeg == rows[i].isNeg
    ensures IntraRows(rules, rows)[i].sigLen == rows[i].sigLen
  {
    IntraOnlyWritesStatus(rules, rows, i);
  }

  // ---------------------------------------------------------------------
  // The summary values of the service

  /**
   * `neg_control_clean`: there is at least one negative control, and none
   * of them has an allele.
   */
  predicate NegControlClean(rows: seq<Sample>) {
    (exists i :: 0 <= i < |rows| && rows[i].isNeg)
    && forall i :: 0 <= i < |rows| && rows[i].isNeg ==> rows[i].sigLen == 0
  }

  /** Reading the flag after the intra comparison gives the flag of its input. */
  lemma NegControlCleanAfterIntra(rules: Rules, rows: seq<Sample>)
    ensures NegControlClean(IntraRows(rules, rows)) == NegControlClean(rows)
  {
    forall i | 0 <= i < |rows| {
      IntraKeepsControlFields(rules, rows, i);
    }
  }

  /** Under the current rules, a clean set of controls means no lone control was flagged for alleles. */
  lemma CleanControlsAreNotFlagged(rows: seq<Sample>, i: nat)
    requires NegControlClean(rows) && i < |rows| && rows[i].isNeg
    requires rows[i].patient.Some? && Alone(rows, i) && rows[i].status == Success
    ensures IntraRows(Current, rows)[i].status == Info
  {
    CurrentLoneNegativeControl(rows, i);
  }

  function Statuses(rows: seq<Sample>): seq<StatusType> {
    seq(|rows|, i requires 0 <= i < |rows| => rows[i].status)
  }

  /** `value_counts().get("error", 0)`: how many rows have status "error". */
  function ErrorCount(rows: seq<Sample>): (n: nat)
    ensures n == multiset(Statuses(rows))[Error]
    ensures n <= |rows|
  {
    if rows == [] then 0
    else
      assert Statuses(rows) == [rows[0].status] + Statuses(rows[1..]);
      (if rows[0].status == Error then 1 else 0) + ErrorCount(rows[1..])
  }

  lemma {:induction false} NoErrorsCountZero(rows: seq<Sample>)
    ensures ErrorCount(rows) == 0 <==> forall i :: 0 <= i < |rows| ==> rows[i].status != Error
  {
    var st := Statuses(rows);
    if exists i :: 0 <= i < |rows| && rows[i].status == Error {
      var i :| 0 <= i < |rows| && rows[i].status == Error;
      assert st[i] == Error;
      assert Error in multiset(st);
    } else {
      assert Error !in multiset(st);
    }
  }

  // ---------------------------------------------------------------------
  // The guard as numpy evaluates it

  /** Evaluating `if status_type.unique() == "success":` */
  datatype GuardOutcome = Pass | Block | Raises

  /**
   * With one distinct status the comparison gives a one-element array
   * whose truth is that element's; with several the array's truth value is
   * ambiguous and numpy raises ValueError.
   */
  function GuardAsWritten(g: seq<Sample>): (o: GuardOutcome)
    requires g != []
    ensures o == Raises <==> exists i :: 0 <= i < |g| && g[i].status != g[0].status
    ensures o == Pass ==> StillSuccess(g)
    ensures o == Block ==> !StillSuccess(g)
  {
    NUniqueAboveOne(Statuses(g));
    assert forall i :: 0 <= i < |g| ==> Statuses(g)[i] == g[i].status;
    if NUnique(Statuses(g)) > 1 then Raises
    else if g[0].status == Success then
      assert forall s :: s in g ==> s.status == Success by {
        forall s | s in g ensures s.status == Success {
          var i :| 0 <= i < |g| && g[i] == s;
          assert Statuses(g)[i] == g[i].status;
        }
      }
      Pass
    else
      assert g[0] in g;
      Block
  }

  /** Whenever the guard does not raise it decides as `StillSuccess` does. */
  lemma GuardAgreesUnlessItRaises(g: seq<Sample>)
    requires g != [] && GuardAsWritten(g) != Raises
    ensures GuardAsWritten(g) == Pass <==> StillSuccess(g)
  {
  }

  /**
   * Legacy: a Patient with one replicate without alleles and one with
   * alleles reaches the signature rule with two distinct statuses after
   * the pre-pass, so the guard raises.
   */
  lemma LegacyMixedGroupRaises(rows: seq<Sample>, i: nat, j: nat)
    requires i < |rows| && SameGroup(rows, i, j)
    requires rows[i].sigLen == 0 == |rows[i].signature| && !rows[i].isNeg
    requires rows[j].sigLen > 0 && |rows[j].signature| > 0 && rows[j].status == Success
    ensures var pre := PrePass(Legacy, rows); var g := Group(pre, rows[i].patient.value);
      |g| >= 2 && NUnique(Signatures(g)) > 1 && GuardAsWritten(g) == Raises
  {
    var pre := PrePass(Legacy, rows);
    var g := Group(pre, rows[i].patient.value);
    assert j != i;
    assert SameGroup(pre, i, j);
    GroupOfRow(pre, i, j);
    assert pre[i].status == Error && pre[j].status == Success;
    MixedGroup(g, pre[i], pre[j]);
  }

  /** Two members differing in signature and in status: `nunique` exceeds one and the guard raises. */
  lemma MixedGroup(g: seq<Sample>, x: Sample, y: Sample)
    requires x in g && y in g && x.signature != y.signature && x.status != y.status
    ensures NUnique(Signatures(g)) > 1 && GuardAsWritten(g) == Raises
  {
    var a :| 0 <= a < |g| && g[a] == x;
    var b :| 0 <= b < |g| && g[b] == y;
    NUniqueAboveOne(Signatures(g));
    assert Signatures(g)[a] != Signatures(g)[0] || Signatures(g)[b] != Signatures(g)[0];
    assert g[a].status != g[0].status || g[b].status != g[0].status;
  }

  /** The corrected guard keeps such a group as the pre-pass left it. */
  lemma LegacyMixedGroupKept(rows: seq<Sample>, i: nat, j: nat)
    requires i < |rows| && SameGroup(rows, i, j)
    requires rows[i].sigLen == 0 && !rows[i].isNeg
    ensures IntraRows(Legacy, rows)[i] == Apply(rows[i], Mark(Error, "no alleles found"))
    ensures PrePass(Legacy, rows)[j] == rows[j] ==> IntraRows(Legacy, rows)[j] == rows[j]
  {
    LegacyNoAllelesIsError(rows, i);
    var pre := PrePass(Legacy, rows);
    if pre[j] == rows[j] && j != i {
      assert SameGroup(pre, j, i);
      GroupOfRow(pre, j, i);
      assert !StillSuccess(Group(pre, rows[j].patient.value));
      RowGetsGroupVerdict(Legacy, rows, j);
    }
  }
}
