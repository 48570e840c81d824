/**
 * Per-sample derivation of the current application's `GeneticAnalyzer`
 * (src/data/genetics.py): allele columns, sex, signature and its hash,
 * negative-control flag, Patient key, and `prepare_data`.
 */
module Genetics {
  import opened Wrappers
  import opened Text
  import opened Tables
  import opened Frames
  import Config

  /** The allele columns of the signature: "Allele"-prefixed, sex markers excluded, table order kept. */
  predicate IsSignatureColumn(c: string) {
    StartsWith(c, Config.AllelePrefix) && c != Config.GenderAllelesX && c != Config.GenderAllelesY
  }

  function AlleleColumns(columns: seq<string>): (r: seq<string>)
    ensures forall c :: c in r <==> c in columns && IsSignatureColumn(c)
    ensures IsSubseq(r, columns)
  {
    if columns == [] then []
    else if IsSignatureColumn(columns[0]) then [columns[0]] + AlleleColumns(columns[1..])
    else SubseqSkip(AlleleColumns(columns[1..]), columns); AlleleColumns(columns[1..])
  }

  lemma SexMarkersNotInSignature(columns: seq<string>)
    ensures Config.GenderAllelesX !in AlleleColumns(columns)
    ensures Config.GenderAllelesY !in AlleleColumns(columns)
  {
  }

  /**
   * `determine_sex`: "femme" when the X slot holds "X" and the Y slot is
   * missing or empty, "homme" when they hold "X" and "Y", otherwise
   * "indéterminé" (missing columns included).
   */
  function DetermineSex(r: Row): (s: Sex)
    ensures s == Female <==>
      Get(r, Config.GenderAllelesX) == Some("X")
      && (Get(r, Config.GenderAllelesY) == None || Get(r, Config.GenderAllelesY) == Some(""))
    ensures s == Male <==>
      Get(r, Config.GenderAllelesX) == Some("X") && Get(r, Config.GenderAllelesY) == Some("Y")
  {
    var x, y := Get(r, Config.GenderAllelesX), Get(r, Config.GenderAllelesY);
    if x.Some? && x.value == "X" && (y.None? || y.value == "") then Female
    else if x.Some? && x.value == "X" && y.Some? && y.value == "Y" then Male
    else Undetermined
  }

  /** Sex is read from the two marker cells and nothing else. */
  lemma SexOnlyReadsMarkers(r1: Row, r2: Row)
    requires Get(r1, Config.GenderAllelesX) == Get(r2, Config.GenderAllelesX)
    requires Get(r1, Config.GenderAllelesY) == Get(r2, Config.GenderAllelesY)
    ensures DetermineSex(r1) == DetermineSex(r2)
  {
  }

  /** A stripped allele value enters the signature unless it is empty or some casing of "nan". */
  predicate Kept(a: string) {
    a != "" && Lower(a) != "nan"
  }

  function StrippedValue(r: Row, c: string): string {
    Strip(CellText(Get(r, c)))
  }

  /** The stripped text of every listed cell, in order. */
  function StrippedValues(r: Row, cols: seq<string>): (vs: seq<string>)
    ensures |vs| == |cols|
    ensures forall i :: 0 <= i < |cols| ==> vs[i] == StrippedValue(r, cols[i])
  {
    seq(|cols|, i requires 0 <= i < |cols| => StrippedValue(r, cols[i]))
  }

  /** How many entries of `vs` a signature keeps. */
  function KeptCount(vs: seq<string>): nat {
    if vs == [] then 0 else (if Kept(vs[0]) then 1 else 0) + KeptCount(vs[1..])
  }

  /**
   * The filter `[a for a in alleles if a and a.lower() != "nan"]`: an
   * ordered subsequence made only of kept entries and as long as the
   * number of kept entries, which makes it exactly the kept entries in
   * order (`KeptSubseqUnique`).
   */
  function KeptOnly(vs: seq<string>): (sig: seq<string>)
    ensures |sig| <= |vs|
    ensures forall a :: a in sig ==> Kept(a)
    ensures IsSubseq(sig, vs)
    ensures |sig| == KeptCount(vs)
    ensures sig == [] <==> forall a :: a in vs ==> !Kept(a)
  {
    if vs == [] then []
    else
      var rest := KeptOnly(vs[1..]);
      assert forall a :: a in vs ==> a == vs[0] || a in vs[1..];
      if Kept(vs[0]) then [vs[0]] + rest
      else SubseqSkip(rest, vs); rest
  }

  /**
   * `compute_signature`: the stripped values of the allele columns, in
   * column order, with empty and "nan" entries removed; it is empty iff no
   * allele column holds a kept value.
   */
  function ComputeSignature(r: Row, alleleCols: seq<string>): (sig: seq<string>)
    ensures |sig| <= |alleleCols|
    ensures forall a :: a in sig ==> Kept(a)
    ensures IsSubseq(sig, StrippedValues(r, alleleCols))
    ensures |sig| == KeptCount(StrippedValues(r, alleleCols))
    ensures sig == [] <==> forall c :: c in alleleCols ==> !Kept(StrippedValue(r, c))
  {
    var vs := StrippedValues(r, alleleCols);
    assert forall c :: c in alleleCols ==> StrippedValue(r, c) in vs by {
      forall c | c in alleleCols ensures StrippedValue(r, c) in vs {
        var k :| 0 <= k < |alleleCols| && alleleCols[k] == c;
        assert vs[k] == StrippedValue(r, c);
      }
    }
    KeptOnly(vs)
  }

  /**
   * The contract of `KeptOnly` determines the signature: any ordered
   * subsequence of `vs` made of kept entries and as long as the kept count
   * is the same sequence.
   */
  lemma {:induction false} KeptSubseqUnique(s: seq<string>, t: seq<string>, vs: seq<string>)
    requires IsSubseq(s, vs) && IsSubseq(t, vs)
    requires forall a :: a in s ==> Kept(a)
    requires forall a :: a in t ==> Kept(a)
    requires |s| == KeptCount(vs) && |t| == KeptCount(vs)
    ensures s == t
    decreases |vs|
  {
    if vs != [] {
      KeptSubseqBound(s, vs);
      KeptSubseqBound(t, vs);
      if Kept(vs[0]) {
        KeptHead(s, vs);
        KeptHead(t, vs);
        KeptSubseqUnique(s[1..], t[1..], vs[1..]);
        assert s == [s[0]] + s[1..] && t == [t[0]] + t[1..];
      } else {
        assert s == [] || s[0] in s;
        assert t == [] || t[0] in t;
        KeptSubseqUnique(s, t, vs[1..]);
      }
    }
  }

  /** A subsequence of kept entries is no longer than the kept count. */
  lemma {:induction false} KeptSubseqBound(s: seq<string>, vs: seq<string>)
    requires IsSubseq(s, vs) && forall a :: a in s ==> Kept(a)
    ensures |s| <= KeptCount(vs)
    decreases |vs|
  {
    if s != [] && vs != [] {
      if s[0] == vs[0] {
        assert forall a :: a in s[1..] ==> a in s;
        KeptSubseqBound(s[1..], vs[1..]);
        assert s[0] in s;
      } else {
        KeptSubseqBound(s, vs[1..]);
      }
    }
  }

  /** A longest subsequence of kept entries takes a kept head of `vs`. */
  lemma KeptHead(s: seq<string>, vs: seq<string>)
    requires vs != [] && Kept(vs[0])
    requires IsSubseq(s, vs) && forall a :: a in s ==> Kept(a)
    requires |s| == KeptCount(vs)
    ensures s != [] && s[0] == vs[0]
    ensures IsSubseq(s[1..], vs[1..]) && |s[1..]| == KeptCount(vs[1..])
  {
    if s == [] || s[0] != vs[0] {
      KeptSubseqBound(s, vs[1..]);
      assert false;
    }
  }

  /** Two rows that agree on the allele cells have the same signature. */
  lemma SignatureOnlyReadsAlleleCells(r1: Row, r2: Row, alleleCols: seq<string>)
    requires forall c :: c in alleleCols ==> Get(r1, c) == Get(r2, c)
    ensures ComputeSignature(r1, alleleCols) == ComputeSignature(r2, alleleCols)
  {
    assert forall k :: 0 <= k < |alleleCols| ==> alleleCols[k] in alleleCols;
    assert StrippedValues(r1, alleleCols) == StrippedValues(r2, alleleCols);
  }

  /**
   * Filtering two equally long lists that differ somewhere, and only where
   * both entries are kept, gives two different results.
   */
  lemma {:induction false} KeptOnlyDiffers(vs: seq<string>, ws: seq<string>, k: nat)
    requires |vs| == |ws| && k < |vs| && vs[k] != ws[k]
    requires forall i :: 0 <= i < |vs| && vs[i] != ws[i] ==> Kept(vs[i]) && Kept(ws[i])
    ensures KeptOnly(vs) != KeptOnly(ws)
  {
    if vs[0] == ws[0] {
      KeptOnlyDiffers(vs[1..], ws[1..], k - 1);
      if Kept(vs[0]) {
        assert KeptOnly(vs)[1..] == KeptOnly(vs[1..]) && KeptOnly(ws)[1..] == KeptOnly(ws[1..]);
      }
    } else {
      assert KeptOnly(vs)[0] == vs[0] && KeptOnly(ws)[0] == ws[0];
    }
  }

  /** Two rows whose allele cells differ only by exchanging the cells of columns `x` and `y`. */
  predicate SwappedCells(r1: Row, r2: Row, cols: seq<string>, x: string, y: string) {
    forall c :: c in cols ==>
      Get(r2, c) == (if c == x then Get(r1, y) else if c == y then Get(r1, x) else Get(r1, c))
  }

  /** Where two swapped rows read differently, both read one of the two swapped values. */
  lemma SwappedEntryKept(r1: Row, r2: Row, cols: seq<string>, x: string, y: string, k: nat)
    requires k < |cols| && SwappedCells(r1, r2, cols, x, y)
    requires Kept(StrippedValue(r1, x)) && Kept(StrippedValue(r1, y))
    requires StrippedValue(r1, cols[k]) != StrippedValue(r2, cols[k])
    ensures Kept(StrippedValue(r1, cols[k])) && Kept(StrippedValue(r2, cols[k]))
  {
    var c := cols[k];
    assert c in cols;
    if c == x {
      assert StrippedValue(r2, c) == StrippedValue(r1, y);
    } else if c == y {
      assert StrippedValue(r2, c) == StrippedValue(r1, x);
    }
  }

  /**
   * The signature keeps column order: exchanging two kept, different
   * allele values between two columns gives another signature.
   */
  lemma SignatureIsOrderSensitive(r1: Row, r2: Row, alleleCols: seq<string>, i: nat, j: nat)
    requires i < j < |alleleCols|
    requires SwappedCells(r1, r2, alleleCols, alleleCols[i], alleleCols[j])
    requires Kept(StrippedValue(r1, alleleCols[i])) && Kept(StrippedValue(r1, alleleCols[j]))
    requires StrippedValue(r1, alleleCols[i]) != StrippedValue(r1, alleleCols[j])
    ensures ComputeSignature(r1, alleleCols) != ComputeSignature(r2, alleleCols)
  {
    var vs, ws := StrippedValues(r1, alleleCols), StrippedValues(r2, alleleCols);
    var x, y := alleleCols[i], alleleCols[j];
    forall k | 0 <= k < |vs| && vs[k] != ws[k]
      ensures Kept(vs[k]) && Kept(ws[k])
    {
      SwappedEntryKept(r1, r2, alleleCols, x, y, k);
    }
    assert x in alleleCols && ws[i] == StrippedValue(r1, y);
    KeptOnlyDiffers(vs, ws, i);
  }

  /** Python's `repr` of one string: single quotes unless it holds a ' and no ". */
  function QuoteString(s: string): (r: string)
    ensures |r| >= |s| + 2 && IsQuote(r[0]) && r[|r| - 1] == r[0]
    ensures r[0] == '"' <==> '\'' in s && '"' !in s
  {
    var q := if '\'' in s && '"' !in s then '"' else '\'';
    EscapeLength(s, q);
    [q] + Escape(s, q) + [q]
  }

  lemma {:induction false} EscapeLength(s: string, q: char)
    ensures |Escape(s, q)| >= |s|
  {
    if s != [] {
      EscapeLength(s[1..], q);
    }
  }

  function Escape(s: string, q: char): string {
    if s == [] then []
    else (if s[0] == '\\' || s[0] == q then ['\\', s[0]] else [s[0]]) + Escape(s[1..], q)
  }

  function JoinQuoted(items: seq<string>): string {
    if items == [] then ""
    else if |items| == 1 then QuoteString(items[0])
    else QuoteString(items[0]) + ", " + JoinQuoted(items[1..])
  }

  /** `str(signature)`: Python's text of a tuple of strings, e.g. "('A', 'T')" or "('A',)". */
  function SignatureText(sig: seq<string>): (r: string)
    ensures |r| >= 2 && r[0] == '(' && r[|r| - 1] == ')'
    ensures r == "()" <==> sig == []
  {
    "(" + JoinQuoted(sig) + (if |sig| == 1 then "," else "") + ")"
  }

  predicate IsQuote(c: char) {
    c == '\'' || c == '"'
  }

  /** The escape of a non-empty text does not start with the quote. */
  lemma EscapeStartsUnquoted(a: string, q: char, rest: string)
    requires a != [] && IsQuote(q)
    ensures (Escape(a, q) + rest)[0] != q
  {
    assert (Escape(a, q) + rest)[0] == (if a[0] == '\\' || a[0] == q then '\\' else a[0]);
  }

  /** The escaped text never holds an unescaped quote, so the closing quote is found unambiguously. */
  lemma {:induction false} EscapeDelimited(a: string, b: string, x: string, y: string, q: char)
    requires IsQuote(q)
    requires Escape(a, q) + [q] + x == Escape(b, q) + [q] + y
    ensures a == b && x == y
    decreases |a|
  {
    var u := Escape(a, q) + [q] + x;
    if a == [] || b == [] {
      if a == [] && b == [] {
        assert x == u[1..];
      } else if a != [] {
        assert Escape(b, q) == [] && u[0] == q;
        EscapeStartsUnquoted(a, q, [q] + x);
      } else {
        assert Escape(a, q) == [] && u[0] == q;
        EscapeStartsUnquoted(b, q, [q] + y);
      }
    } else {
      var ea := if a[0] == '\\' || a[0] == q then ['\\', a[0]] else [a[0]];
      var eb := if b[0] == '\\' || b[0] == q then ['\\', b[0]] else [b[0]];
      assert Escape(a, q) == ea + Escape(a[1..], q);
      assert Escape(b, q) == eb + Escape(b[1..], q);
      assert u == ea + (Escape(a[1..], q) + [q] + x);
      assert u == eb + (Escape(b[1..], q) + [q] + y);
      assert u[0] == ea[0] && u[0] == eb[0];
      assert ea == eb by {
        if |ea| == 2 {
          assert u[1] == ea[1];
        }
        if |eb| == 2 {
          assert u[1] == eb[1];
        }
      }
      assert a[0] == b[0];
      assert Escape(a[1..], q) + [q] + x == u[|ea|..] == Escape(b[1..], q) + [q] + y;
      EscapeDelimited(a[1..], b[1..], x, y, q);
    }
  }

  /**
   * A quoted string is read back unambiguously from the front of a text:
   * equal texts that start with quoted strings start with the same one.
   */
  lemma QuoteStringDelimited(a: string, b: string, x: string, y: string)
    requires QuoteString(a) + x == QuoteString(b) + y
    ensures a == b && x == y
  {
    var qa := QuoteString(a)[0];
    var qb := QuoteString(b)[0];
    assert qa == (QuoteString(a) + x)[0] == (QuoteString(b) + y)[0] == qb;
    assert QuoteString(a) + x == [qa] + (Escape(a, qa) + [qa] + x);
    assert QuoteString(b) + y == [qa] + (Escape(b, qa) + [qa] + y);
    assert Escape(a, qa) + [qa] + x == (QuoteString(a) + x)[1..] == Escape(b, qa) + [qa] + y;
    EscapeDelimited(a, b, x, y, qa);
  }

  /** What may follow a list of quoted strings without reading as another item. */
  predicate EndsItems(x: string) {
    x != [] && !IsQuote(x[0]) && !StartsWith(x, ", ")
  }

  lemma JoinQuotedStartsWithQuote(t: seq<string>, y: string)
    requires t != []
    ensures IsQuote((JoinQuoted(t) + y)[0])
  {
    assert (JoinQuoted(t) + y)[0] == QuoteString(t[0])[0];
  }

  /** The text after the first item of a run of quoted strings. */
  function RestItems(s: seq<string>): string
    requires s != []
  {
    if |s| == 1 then [] else ", " + JoinQuoted(s[1..])
  }

  lemma JoinQuotedFirst(s: seq<string>, x: string)
    requires s != []
    ensures JoinQuoted(s) + x == QuoteString(s[0]) + (RestItems(s) + x)
  {
  }

  /** A comma-separated run of quoted strings is read back unambiguously. */
  lemma {:induction false} JoinQuotedDelimited(s: seq<string>, t: seq<string>, x: string, y: string)
    requires EndsItems(x) && EndsItems(y)
    requires JoinQuoted(s) + x == JoinQuoted(t) + y
    ensures s == t && x == y
    decreases |s|
  {
    if s == [] || t == [] {
      if s != [] {
        assert JoinQuoted(t) + y == y;
        JoinQuotedStartsWithQuote(s, x);
      } else if t != [] {
        assert JoinQuoted(s) + x == x;
        JoinQuotedStartsWithQuote(t, y);
      } else {
        assert JoinQuoted(s) == [] == JoinQuoted(t);
        assert x == JoinQuoted(s) + x == JoinQuoted(t) + y == y;
      }
    } else {
      JoinQuotedFirst(s, x);
      JoinQuotedFirst(t, y);
      QuoteStringDelimited(s[0], t[0], RestItems(s) + x, RestItems(t) + y);
      RestItemsDelimited(s, t, x, y);
      assert s == [s[0]] + s[1..] && t == [t[0]] + t[1..];
    }
  }

  /** After a first item that is not the last, the text goes on with ", ". */
  lemma RestItemsContinue(t: seq<string>, y: string)
    requires |t| > 1
    ensures StartsWith(RestItems(t) + y, ", ")
    ensures (RestItems(t) + y)[2..] == JoinQuoted(t[1..]) + y
  {
    var u := JoinQuoted(t[1..]) + y;
    assert RestItems(t) + y == ", " + u;
    assert (", " + u)[..2] == ", ";
    assert (", " + u)[2..] == u;
  }

  /** After equal first items, the rest of the two runs agree item by item. */
  lemma {:induction false} RestItemsDelimited(s: seq<string>, t: seq<string>, x: string, y: string)
    requires s != [] && t != [] && EndsItems(x) && EndsItems(y)
    requires RestItems(s) + x == RestItems(t) + y
    ensures s[1..] == t[1..] && x == y
    decreases |s|, 1
  {
    if |s| == 1 && |t| == 1 {
      assert RestItems(s) == [] && RestItems(t) == [];
      assert s[1..] == [] == t[1..];
      assert x == RestItems(s) + x == RestItems(t) + y == y;
    } else if |s| == 1 {
      assert RestItems(s) == [];
      RestItemsContinue(t, y);
    } else if |t| == 1 {
      assert RestItems(t) == [];
      RestItemsContinue(s, x);
    } else {
      RestItemsContinue(s, x);
      RestItemsContinue(t, y);
      JoinQuotedDelimited(s[1..], t[1..], x, y);
    }
  }

  /**
   * Different signatures have different texts, so the digest is taken of a
   * text that determines the signature: equal hashes mean equal signatures
   * up to a SHA-1 collision.
   */
  lemma SignatureTextInjective(s: seq<string>, t: seq<string>)
    requires SignatureText(s) == SignatureText(t)
    ensures s == t
  {
    var xs := (if |s| == 1 then "," else "") + ")";
    var xt := (if |t| == 1 then "," else "") + ")";
    assert SignatureText(s) == "(" + (JoinQuoted(s) + xs);
    assert SignatureText(t) == "(" + (JoinQuoted(t) + xt);
    assert JoinQuoted(s) + xs == SignatureText(s)[1..] == JoinQuoted(t) + xt;
    assert !StartsWith(xs, ", ") by { if |xs| >= 2 { assert xs[1] == ')'; } }
    assert !StartsWith(xt, ", ") by { if |xt| >= 2 { assert xt[1] == ')'; } }
    JoinQuotedDelimited(s, t, xs, xt);
  }

  /** A SHA-1 hex digest: always 40 characters. */
  type Digest = s: string | |s| == 40 witness "0000000000000000000000000000000000000000"

  /** SHA-1 of the UTF-8 text, taken as a given deterministic function. */
  type Hasher = string -> Digest

  /** `compute_signature_hash`: the digest of the signature's text. */
  function SignatureHash(sig: seq<string>, sha1: Hasher): (h: string)
    ensures |h| == 40
  {
    sha1(SignatureText(sig))
  }

  lemma EqualSignaturesEqualHashes(s1: seq<string>, s2: seq<string>, sha1: Hasher)
    requires s1 == s2
    ensures SignatureHash(s1, sha1) == SignatureHash(s2, sha1)
  {
  }

  /** `any(k in name for k in keywords)`. */
  predicate AnyKeyword(name: string, keywords: seq<string>) {
    exists k :: k in keywords && Contains(name, k)
  }

  /**
   * `is_negative_control`: false for a missing or empty name, otherwise
   * whether the lowercased name contains "neg" or "tem".
   */
  function IsNegativeControl(name: Cell): (b: bool)
    ensures b <==> name.Some? && (Contains(Lower(name.value), "neg") || Contains(Lower(name.value), "tem"))
  {
    if name.None? || name.value == "" then false
    else AnyKeyword(Lower(name.value), Config.NegativeKeywords)
  }

  /**
   * `is_negative_control` as written: the guard `if not sample_name` only
   * catches the empty string, and a missing name (NaN, which is truthy)
   * reaches `.lower()` and raises; `None` stands for that exception.
   */
  function NegativeControlAsWritten(name: Cell): (r: Option<bool>)
    ensures r.None? <==> name.None?
    ensures name.Some? ==> r == Some(IsNegativeControl(name))
  {
    if name.None? then None
    else if name.value == "" then Some(false)
    else Some(AnyKeyword(Lower(name.value), Config.NegativeKeywords))
  }

  /** A row without a sample name makes the flag raise, where a missing name was meant to be no control. */
  lemma MissingNameRaises()
    ensures NegativeControlAsWritten(None).None?
    ensures !IsNegativeControl(None)
  {
  }

  /** The flag does not depend on case. */
  lemma NegativeControlIgnoresCase(name: string)
    ensures IsNegativeControl(Some(name)) == IsNegativeControl(Some(Lower(name)))
  {
    LowerIdempotent(name);
  }

  lemma NegativeControlExamples()
    ensures IsNegativeControl(Some("TEST_NeG_cOntRoL"))
    ensures IsNegativeControl(Some("temoin_negatif"))
    ensures !IsNegativeControl(None) && !IsNegativeControl(Some(""))
  {
    assert Lower("TEST_NeG_cOntRoL") == "test_neg_control";
    assert "test_neg_control"[5..8] == "neg";
    ContainsAt("test_neg_control", "neg", 5);
    assert Lower("temoin_negatif") == "temoin_negatif";
    assert "temoin_negatif"[0..3] == "tem";
    ContainsAt("temoin_negatif", "tem", 0);
  }

  predicate HasReplicateSuffix(s: string) {
    |s| >= 3 && (s[|s| - 3..] == "bis" || s[|s| - 3..] == "ter")
  }

  /**
   * The Patient key: `re.sub(r"^(.*?)(bis|ter)$", r"\1", name)`. One
   * trailing "bis" or "ter" is removed; `$` may also match before a final
   * newline, and `.` does not cross a newline.
   */
  function PatientKey(name: string): (p: string)
    ensures '\n' !in name ==> p == if HasReplicateSuffix(name) then name[..|name| - 3] else name
  {
    if HasReplicateSuffix(name) && '\n' !in name[..|name| - 3] then name[..|name| - 3]
    else if |name| >= 4 && name[|name| - 1] == '\n' && HasReplicateSuffix(name[..|name| - 1])
         && '\n' !in name[..|name| - 4]
    then name[..|name| - 4] + "\n"
    else name
  }

  /** A sample and its "bis" and "ter" replicates share one Patient key. */
  lemma ReplicatesShareKey(n: string)
    requires '\n' !in n
    ensures PatientKey(n + "bis") == n && PatientKey(n + "ter") == n
  {
    assert (n + "bis")[..|n|] == n && (n + "ter")[..|n|] == n;
  }

  lemma PatientKeyExamples()
    ensures PatientKey("P1bisbis") == "P1bis"
    ensures PatientKey("Peter") == "Pe"
    ensures PatientKey("P1") == "P1"
  {
    ReplicatesShareKey("P1bis");
    ReplicatesShareKey("Pe");
    assert "P1bis" + "bis" == "P1bisbis" && "Pe" + "ter" == "Peter";
  }

  /** The "Patient" cell: NaN stays NaN. */
  function PatientOf(name: Cell): (p: Cell)
    ensures p.Some? <==> name.Some?
    ensures p.Some? ==> p.value == PatientKey(name.value)
  {
    if name.Some? then Some(PatientKey(name.value)) else None
  }

  /**
   * The derived columns of one row: its input cells unchanged, the
   * signature with its length and hash, Genre, Patient (NaN when the name
   * is missing), is_neg, and the success status with an empty description.
   */
  function Derive(r: Row, alleleCols: seq<string>, sha1: Hasher): Sample {
    var sig := ComputeSignature(r, alleleCols);
    var name := Get(r, "Sample Name");
    Sample(r, sig, SignatureHash(sig, sha1), |sig|, DetermineSex(r),
           PatientOf(name),
           IsNegativeControl(name), Success, "")
  }

  /**
   * `GeneticAnalyzer(t).prepare_data()`: one derived sample per input row,
   * in order, reading the table's allele columns; the derived columns are
   * appended to the table's columns.
   */
  function Prepare(t: Table, sha1: Hasher): (f: Frame)
    requires "Sample Name" in t.columns
    ensures f.columns == AddColumns(t.columns, DerivedColumns)
    ensures |f.rows| == |t.rows|
    ensures forall i :: 0 <= i < |t.rows| ==> f.rows[i] == Derive(t.rows[i], AlleleColumns(t.columns), sha1)
  {
    Frame(AddColumns(t.columns, DerivedColumns),
          seq(|t.rows|, i requires 0 <= i < |t.rows| => Derive(t.rows[i], AlleleColumns(t.columns), sha1)))
  }

  /**
   * `prepare_data` as written: it raises as soon as one row has no sample
   * name, and otherwise produces the prepared frame.
   */
  function PrepareAsWritten(t: Table, sha1: Hasher): (r: Option<Frame>)
    requires "Sample Name" in t.columns
    ensures r.None? <==> exists i :: 0 <= i < |t.rows| && NegativeControlAsWritten(Get(t.rows[i], "Sample Name")).None?
    ensures r.Some? ==> r.value == Prepare(t, sha1)
  {
    if exists i :: 0 <= i < |t.rows| && Get(t.rows[i], "Sample Name").None? then None
    else Some(Prepare(t, sha1))
  }

  /** As written, one nameless row aborts the preparation of the whole table. */
  lemma NamelessRowAbortsPrepare(t: Table, sha1: Hasher, i: nat)
    requires "Sample Name" in t.columns
    requires i < |t.rows| && Get(t.rows[i], "Sample Name").None?
    ensures PrepareAsWritten(t, sha1).None?
    ensures Prepare(t, sha1).rows[i].patient.None? && !Prepare(t, sha1).rows[i].isNeg
  {
  }

  /**
   * `prepare_data` step by step: the copy gets "signature", then each
   * column computed from the ones before it, then the two status defaults.
   */
  method PrepareData(t: Table, sha1: Hasher) returns (f: Frame)
    requires "Sample Name" in t.columns
    ensures f == Prepare(t, sha1)
  {
    var alleleCols := AlleleColumns(t.columns);
    var rows, cols := AddSignatureColumns(t, alleleCols, sha1);
    rows, cols := AddIdentityColumns(rows, cols);
    forall i | 0 <= i < |t.rows| ensures rows[i] == Derive(t.rows[i], alleleCols, sha1) {
      DeriveFields(t.rows[i], alleleCols, sha1);
    }
    PrepareRows(t, sha1, rows);
    DerivedColumnsInOrder(t.columns);
    f := Frame(cols, rows);
  }

  /** The first four steps: "signature", "signature_hash", "signature_len" and "Genre". */
  method AddSignatureColumns(t: Table, alleleCols: seq<string>, sha1: Hasher) returns (rows: seq<Sample>, cols: seq<string>)
    ensures cols == AddColumn(AddColumn(AddColumn(AddColumn(t.columns,
      "signature"), "signature_hash"), "signature_len"), "Genre")
    ensures |rows| == |t.rows|
    ensures forall i :: 0 <= i < |t.rows| ==> rows[i] == Sample(t.rows[i], ComputeSignature(t.rows[i], alleleCols),
      SignatureHash(ComputeSignature(t.rows[i], alleleCols), sha1), |ComputeSignature(t.rows[i], alleleCols)|,
      DetermineSex(t.rows[i]), None, false, Success, "")
  {
    var n := |t.rows|;
    rows := seq(n, i requires 0 <= i < n =>
      Sample(t.rows[i], ComputeSignature(t.rows[i], alleleCols), "", 0, Undetermined, None, false, Success, ""));
    cols := AddColumn(t.columns, "signature");
    rows := seq(n, i requires 0 <= i < n => rows[i].(hash := SignatureHash(rows[i].signature, sha1)));
    cols := AddColumn(cols, "signature_hash");
    rows := seq(n, i requires 0 <= i < n => rows[i].(sigLen := |rows[i].signature|));
    cols := AddColumn(cols, "signature_len");
    rows := seq(n, i requires 0 <= i < n => rows[i].(genre := DetermineSex(rows[i].cells)));
    cols := AddColumn(cols, "Genre");
  }

  /** The last four steps: "Patient", "is_neg", and the "status_type"/"status_description" defaults. */
  method AddIdentityColumns(rows0: seq<Sample>, cols0: seq<string>) returns (rows: seq<Sample>, cols: seq<string>)
    ensures cols == AddColumn(AddColumn(AddColumn(AddColumn(cols0,
      "Patient"), "is_neg"), "status_type"), "status_description")
    ensures |rows| == |rows0|
    ensures forall i :: 0 <= i < |rows0| ==> rows[i] == rows0[i].(patient := PatientOf(Name(rows0[i])),
      isNeg := IsNegativeControl(Name(rows0[i])), status := Success, description := "")
  {
    var n := |rows0|;
    rows := seq(n, i requires 0 <= i < n => rows0[i].(patient := PatientOf(Name(rows0[i]))));
    cols := AddColumn(cols0, "Patient");
    rows := seq(n, i requires 0 <= i < n => rows[i].(isNeg := IsNegativeControl(Name(rows[i]))));
    cols := AddColumn(cols, "is_neg");
    rows := seq(n, i requires 0 <= i < n => rows[i].(status := Success));
    cols := AddColumn(cols, "status_type");
    rows := seq(n, i requires 0 <= i < n => rows[i].(description := ""));
    cols := AddColumn(cols, "status_description");
  }

  /** The derived columns are added one after another, in their order. */
  lemma DerivedColumnsInOrder(cols: seq<string>)
    ensures AddColumns(cols, DerivedColumns)
         == AddColumn(AddColumn(AddColumn(AddColumn(AddColumn(AddColumn(AddColumn(AddColumn(cols,
              "signature"), "signature_hash"), "signature_len"), "Genre"), "Patient"), "is_neg"),
              "status_type"), "status_description")
  {
    var d := DerivedColumns;
    assert d[1..][1..][1..][1..][1..][1..][1..][1..] == [];
  }

  lemma DeriveFields(r: Row, alleleCols: seq<string>, sha1: Hasher)
    ensures Derive(r, alleleCols, sha1) == Sample(r, ComputeSignature(r, alleleCols),
      SignatureHash(ComputeSignature(r, alleleCols), sha1), |ComputeSignature(r, alleleCols)|,
      DetermineSex(r), PatientOf(Get(r, "Sample Name")), IsNegativeControl(Get(r, "Sample Name")), Success, "")
  {
  }

  lemma PrepareRows(t: Table, sha1: Hasher, rows: seq<Sample>)
    requires "Sample Name" in t.columns
    requires |rows| == |t.rows|
    requires forall i :: 0 <= i < |rows| ==> rows[i] == Derive(t.rows[i], AlleleColumns(t.columns), sha1)
    ensures rows == Prepare(t, sha1).rows
  {
  }

  /** Preparing keeps every input row and starts every sample as success. */
  lemma PrepareKeepsRows(t: Table, sha1: Hasher)
    requires "Sample Name" in t.columns
    ensures var f := Prepare(t, sha1);
      forall i :: 0 <= i < |t.rows| ==>
        && f.rows[i].cells == t.rows[i]
        && f.rows[i].sigLen == |f.rows[i].signature| <= |AlleleColumns(t.columns)|
        && f.rows[i].status == Success && f.rows[i].description == ""
  {
  }

  /** None of the added columns is an allele column. */
  lemma {:induction false} AlleleColumnsIgnoreDerived(cols: seq<string>, added: seq<string>)
    requires forall c :: c in added ==> !StartsWith(c, Config.AllelePrefix)
    ensures AlleleColumns(AddColumns(cols, added)) == AlleleColumns(cols)
    decreases |added|
  {
    if added != [] {
      AlleleColumnsIgnoreDerived(AddColumn(cols, added[0]), added[1..]);
      if added[0] !in cols {
        AlleleColumnsAppend(cols, added[0]);
      }
    }
  }

  lemma {:induction false} AlleleColumnsAppend(cols: seq<string>, c: string)
    requires !IsSignatureColumn(c)
    ensures AlleleColumns(cols + [c]) == AlleleColumns(cols)
  {
    if cols != [] {
      assert (cols + [c])[1..] == cols[1..] + [c];
      AlleleColumnsAppend(cols[1..], c);
    } else {
      assert AlleleColumns([c]) == AlleleColumns([]);
    }
  }

  /**
   * Deriving again from the prepared columns, which add no allele column,
   * reads the same cells and gives back the same signature and hash.
   */
  lemma DeriveIsIdempotentOnSignatures(r: Row, cols: seq<string>, sha1: Hasher)
    ensures var s := Derive(r, AlleleColumns(cols), sha1);
      var again := Derive(s.cells, AlleleColumns(AddColumns(cols, DerivedColumns)), sha1);
      again.signature == s.signature && again.hash == s.hash
  {
    forall c | c in DerivedColumns
      ensures !StartsWith(c, Config.AllelePrefix)
    {
      assert c[0] != 'A';
    }
    AlleleColumnsIgnoreDerived(cols, DerivedColumns);
  }
}
