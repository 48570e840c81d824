/**
 * Inter-patient comparison (src/services/identity_vigilance.py, repeated
 * in src/data/comparison.py and utils.py): among the samples that have
 * alleles, every signature hash shared by more than one Patient is a
 * collision, and all samples carrying it are reported.
 */
module Inter {
  import opened Wrappers
  import opened Text
  import opened Tables
  import opened Frames

  /** `df[df["signature_len"] > 0]`: the samples with at least one allele, in order. */
  function Considered(rows: seq<Sample>): (c: seq<Sample>)
    ensures forall s :: s in c <==> s in rows && s.sigLen > 0
    ensures |c| <= |rows|
  {
    if rows == [] then []
    else if rows[0].sigLen > 0 then [rows[0]] + Considered(rows[1..])
    else Considered(rows[1..])
  }

  /** The rows whose hash is in `ks`, in order. */
  function WithHashIn(rows: seq<Sample>, ks: set<string>): (r: seq<Sample>)
    ensures forall s :: s in r <==> s in rows && s.hash in ks
  {
    if rows == [] then []
    else if rows[0].hash in ks then [rows[0]] + WithHashIn(rows[1..], ks)
    else WithHashIn(rows[1..], ks)
  }

  /** One group of `groupby("signature_hash")`. */
  function Bucket(rows: seq<Sample>, h: string): seq<Sample> {
    WithHashIn(rows, {h})
  }

  /** `len(group["Patient"].unique()) > 1`; a missing Patient counts as one more value. */
  predicate Collides(b: seq<Sample>) {
    |set s | s in b :: s.patient| > 1
  }

  /** The distinct hashes in increasing order. */
  function HashKeys(rows: seq<Sample>): (ks: seq<string>)
    ensures StrictlySorted(ks)
    ensures forall h :: h in ks <==> exists s :: s in rows && s.hash == h
  {
    if rows == [] then []
    else
      var rest := HashKeys(rows[1..]);
      assert forall s :: s in rows <==> s == rows[0] || s in rows[1..];
      InsertKey(rows[0].hash, rest)
  }

  /** The colliding buckets among `ks`, concatenated in the order of `ks`. */
  function Duplicated(c: seq<Sample>, ks: seq<string>): seq<Sample> {
    if ks == [] then []
    else
      var last := ks[|ks| - 1];
      Duplicated(c, ks[..|ks| - 1]) + (if Collides(Bucket(c, last)) then Bucket(c, last) else [])
  }

  /** The rows `_inter_comparison` returns. */
  function InterRows(rows: seq<Sample>): seq<Sample> {
    var c := Considered(rows);
    Duplicated(c, HashKeys(c))
  }

  /** The hashes of `ks` whose bucket collides. */
  function CollidingKeys(c: seq<Sample>, ks: seq<string>): set<string> {
    set k | k in ks && Collides(Bucket(c, k))
  }

  /** The columns removed from the report. */
  const DroppedAtOnce := ["signature"]
  const DroppedAfter := ["is_neg", "signature_len", "status_type", "status_description"]

  function InterColumns(cols: seq<string>): seq<string> {
    Without(Without(cols, DroppedAtOnce), DroppedAfter)
  }

  /** The result frame: the colliding rows with their helper columns dropped, or an empty frame. */
  function InterFrame(f: Frame): Frame {
    var d := InterRows(f.rows);
    if d == [] then Frame([], []) else Frame(InterColumns(f.columns), d)
  }

  /**
   * `_inter_comparison`: for each hash in key order, a colliding bucket is
   * appended to `duplicated`.
   */
  method InterComparison(f: Frame) returns (r: Frame)
    requires HasColumns(f, ["signature", "signature_len", "signature_hash", "Patient"])
    requires InterRows(f.rows) != [] ==> HasColumns(f, DroppedAfter)
    ensures r == InterFrame(f)
  {
    var c := Considered(f.rows);
    var keys := HashKeys(c);
    var duplicated := [];
    var idx := 0;
    while idx < |keys|
      invariant 0 <= idx <= |keys|
      invariant duplicated == Duplicated(c, keys[..idx])
    {
      var group := Bucket(c, keys[idx]);
      if Collides(group) {
        duplicated := duplicated + group;
      }
      assert keys[..idx + 1][..idx] == keys[..idx];
      idx := idx + 1;
    }
    assert keys[..idx] == keys;
    if duplicated != [] {
      r := Frame(InterColumns(f.columns), duplicated);
    } else {
      r := Frame([], []);
    }
  }

  // ---------------------------------------------------------------------
  // What the output holds

  lemma {:induction false} WithHashInUnion(rows: seq<Sample>, a: set<string>, b: set<string>)
    requires a !! b
    ensures multiset(WithHashIn(rows, a + b)) == multiset(WithHashIn(rows, a)) + multiset(WithHashIn(rows, b))
  {
    if rows != [] {
      WithHashInUnion(rows[1..], a, b);
    }
  }

  lemma {:induction false} WithHashInEmpty(rows: seq<Sample>)
    ensures WithHashIn(rows, {}) == []
  {
    if rows != [] {
      WithHashInEmpty(rows[1..]);
    }
  }

  /** Over distinct hashes, the concatenated buckets are the rows of the colliding hashes. */
  lemma {:induction false} DuplicatedIsColliding(c: seq<Sample>, ks: seq<string>)
    requires forall i, j :: 0 <= i < j < |ks| ==> ks[i] != ks[j]
    ensures multiset(Duplicated(c, ks)) == multiset(WithHashIn(c, CollidingKeys(c, ks)))
  {
    if ks == [] {
      WithHashInEmpty(c);
      assert CollidingKeys(c, ks) == {};
    } else {
      var init, last := ks[..|ks| - 1], ks[|ks| - 1];
      DuplicatedIsColliding(c, init);
      var rest := CollidingKeys(c, init);
      var mine: set<string> := if Collides(Bucket(c, last)) then {last} else {};
      assert last !in init;
      assert forall k :: k in ks <==> k in init || k == last;
      assert CollidingKeys(c, ks) == rest + mine;
      WithHashInUnion(c, rest, mine);
      if mine == {} {
        WithHashInEmpty(c);
      }
    }
  }

  /** The rows of colliding hashes among the samples with alleles, in table order. */
  function CollidingRows(rows: seq<Sample>): seq<Sample> {
    var c := Considered(rows);
    WithHashIn(c, CollidingKeys(c, HashKeys(c)))
  }

  /** The output is exactly the colliding rows, each as often as in the table. */
  lemma InterIsColliding(rows: seq<Sample>)
    ensures multiset(InterRows(rows)) == multiset(CollidingRows(rows))
  {
    var c := Considered(rows);
    var ks := HashKeys(c);
    assert forall i, j :: 0 <= i < j < |ks| ==> ks[i] != ks[j] by {
      forall i, j | 0 <= i < j < |ks| ensures ks[i] != ks[j] {
        assert StrLt(ks[i], ks[j]);
      }
    }
    DuplicatedIsColliding(c, ks);
  }

  /**
   * A sample is reported exactly when it has an allele and its hash
   * bucket holds more than one Patient; so the whole bucket is reported.
   */
  lemma InterMembership(rows: seq<Sample>, s: Sample)
    ensures s in InterRows(rows) <==>
      s in rows && s.sigLen > 0 && Collides(Bucket(Considered(rows), s.hash))
  {
    InterIsColliding(rows);
    assert s in InterRows(rows) <==> s in multiset(InterRows(rows));
    assert s in CollidingRows(rows) <==> s in multiset(CollidingRows(rows));
    var c := Considered(rows);
    if s in c {
      assert s.hash in HashKeys(c);
    }
  }

  /** With no colliding hash the result is empty, and only then. */
  lemma InterEmpty(rows: seq<Sample>)
    ensures InterRows(rows) == [] <==>
      forall s :: s in rows && s.sigLen > 0 ==> !Collides(Bucket(Considered(rows), s.hash))
  {
    if InterRows(rows) != [] {
      InterMembership(rows, InterRows(rows)[0]);
    } else {
      forall s | s in rows && s.sigLen > 0
        ensures !Collides(Bucket(Considered(rows), s.hash))
      {
        InterMembership(rows, s);
      }
    }
  }

  /** Two samples with alleles, one hash and two Patients are both reported. */
  lemma TwoPatientsOneHashCollide(rows: seq<Sample>, i: nat, j: nat)
    requires i < |rows| && j < |rows|
    requires rows[i].sigLen > 0 && rows[j].sigLen > 0
    requires rows[i].hash == rows[j].hash && rows[i].patient != rows[j].patient
    ensures rows[i] in InterRows(rows) && rows[j] in InterRows(rows)
  {
    var b := Bucket(Considered(rows), rows[i].hash);
    var ps := set s | s in b :: s.patient;
    assert rows[i] in b && rows[j] in b;
    assert {rows[i].patient, rows[j].patient} <= ps;
    assert |{rows[i].patient, rows[j].patient}| == 2;
    SubsetCard({rows[i].patient, rows[j].patient}, ps);
    InterMembership(rows, rows[i]);
    InterMembership(rows, rows[j]);
  }

  /** Replicates of one Patient sharing a hash are a single Patient: not a collision. */
  lemma OnePatientDoesNotCollide(b: seq<Sample>, p: Cell)
    requires b != [] && forall s :: s in b ==> s.patient == p
    ensures !Collides(b)
  {
    assert b[0] in b;
    assert (set s | s in b :: s.patient) == {p};
  }
}
