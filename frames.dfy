/**
 * The prepared table. Every row is a `Sample`: the raw cells of the input
 * row plus the columns that the signature derivation adds to it.
 */
module Frames {
  import opened Wrappers
  import opened Tables

  /** The "Genre" column. */
  datatype Sex = Female | Male | Undetermined

  function SexLabel(s: Sex): (r: string)
    ensures r in ["femme", "homme", "indéterminé"]
  {
    match s
    case Female => "femme"
    case Male => "homme"
    case Undetermined => "indéterminé"
  }

  lemma SexLabelInjective(a: Sex, b: Sex)
    requires SexLabel(a) == SexLabel(b)
    ensures a == b
  {
  }

  /** The "status_type" column. */
  datatype StatusType = Success | Warning | Info | Error

  function StatusName(s: StatusType): string {
    match s
    case Success => "success"
    case Warning => "warning"
    case Info => "info"
    case Error => "error"
  }

  datatype Sample = Sample(
    cells: Row,            // the input row, unchanged
    signature: seq<string>,
    hash: string,
    sigLen: nat,
    genre: Sex,
    patient: Cell,         // NaN when "Sample Name" is missing
    isNeg: bool,
    status: StatusType,
    description: string)

  /** The columns that `prepare_data` adds, in the order it adds them. */
  const DerivedColumns := ["signature", "signature_hash", "signature_len", "Genre", "Patient",
                           "is_neg", "status_type", "status_description"]

  /** A cell of the prepared table, of whatever type its column holds. */
  datatype Value = Str(cell: Cell) | Tuple(items: seq<string>) | Int(n: int) | Flag(b: bool)

  function ValueAt(s: Sample, c: string): Value {
    if c == "signature" then Tuple(s.signature)
    else if c == "signature_hash" then Str(Some(s.hash))
    else if c == "signature_len" then Int(s.sigLen)
    else if c == "Genre" then Str(Some(SexLabel(s.genre)))
    else if c == "Patient" then Str(s.patient)
    else if c == "is_neg" then Flag(s.isNeg)
    else if c == "status_type" then Str(Some(StatusName(s.status)))
    else if c == "status_description" then Str(Some(s.description))
    else Str(Get(s.cells, c))
  }

  function Name(s: Sample): Cell {
    Get(s.cells, "Sample Name")
  }

  /** A data frame: its columns in order and its rows. */
  datatype Frame = Frame(columns: seq<string>, rows: seq<Sample>)

  /** `df[c] = ...`: a new column goes last, an existing one keeps its place. */
  function AddColumn(cols: seq<string>, c: string): (r: seq<string>)
    ensures forall x :: x in r <==> x in cols || x == c
  {
    if c in cols then cols else cols + [c]
  }

  function AddColumns(cols: seq<string>, cs: seq<string>): (r: seq<string>)
    ensures forall x :: x in r <==> x in cols || x in cs
    decreases |cs|
  {
    if cs == [] then cols else AddColumns(AddColumn(cols, cs[0]), cs[1..])
  }

  /** All the named columns are present (pandas raises KeyError otherwise). */
  predicate HasColumns(f: Frame, names: seq<string>) {
    forall c :: c in names ==> c in f.columns
  }
}
