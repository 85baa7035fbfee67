/**
 * The data model shared by the format detector, the loader and the
 * reconciliation engine: raw bytes, cells, rows and tables, the order the
 * loader sorts key cells by, and the decimal rendering the report uses for
 * counts.
 */
module Tables {

  newtype byte = x: int | 0 <= x < 256

  datatype Option<T> = None | Some(value: T)

  /**
   * One cell of a loaded table. `Null` is the missing value (NaN or None);
   * merge, drop_duplicates and isin treat two missing values as equal, so
   * structural equality of cells is the equality the engine uses.
   */
  datatype Cell = Null | Text(s: string) | Number(n: int)

  /** A row holds one cell per column, in the table's column order. */
  type Row = seq<Cell>

  /** A loaded relation: the header's column names and the rows. */
  datatype Table = Table(cols: seq<string>, rows: seq<Row>)

  /** Every row has exactly one cell per declared column. */
  predicate WellFormed(t: Table)
  {
    forall r | r in t.rows :: |r| == |t.cols|
  }

  /** Every row of `rows` has a cell at position `k`. */
  predicate HasColumn(rows: seq<Row>, k: nat)
  {
    forall r | r in rows :: k < |r|
  }

  /** No two rows share a key: the primary key is unique in the file. */
  predicate UniqueKeys(s: seq<Row>, k: nat)
    requires HasColumn(s, k)
  {
    forall i, j | 0 <= i < j < |s| :: s[i][k] != s[j][k]
  }

  /** The set of cells the rows hold at position `k`. */
  function KeySet(rows: seq<Row>, k: nat): (keys: set<Cell>)
    requires HasColumn(rows, k)
    ensures forall r | r in rows :: r[k] in keys
    ensures forall c | c in keys :: exists r | r in rows :: r[k] == c
  {
    set r | r in rows :: r[k]
  }

  // ---------------------------------------------------------------------------
  // Ordering of strings and key cells
  // ---------------------------------------------------------------------------

  /** Python's ordering of str values: code point by code point, a proper prefix first. */
  predicate LexLe(x: string, y: string)
    decreases |x|
  {
    if x == [] then true
    else if y == [] then false
    else if x[0] != y[0] then x[0] < y[0]
    else LexLe(x[1..], y[1..])
  }

  lemma {:induction false} LexLeReflexive(x: string)
    ensures LexLe(x, x)
    decreases |x|
  {
    if x != [] {
      LexLeReflexive(x[1..]);
    }
  }

  lemma {:induction false} LexLeTotal(x: string, y: string)
    ensures LexLe(x, y) || LexLe(y, x)
    decreases |x|
  {
    if x != [] && y != [] && x[0] == y[0] {
      LexLeTotal(x[1..], y[1..]);
    }
  }

  lemma {:induction false} LexLeTransitive(x: string, y: string, z: string)
    requires LexLe(x, y) && LexLe(y, z)
    ensures LexLe(x, z)
    decreases |x|
  {
    if x != [] && y != [] && z != [] && x[0] == y[0] && y[0] == z[0] {
      LexLeTransitive(x[1..], y[1..], z[1..]);
    }
  }

  lemma {:induction false} LexLeAntisymmetric(x: string, y: string)
    requires LexLe(x, y) && LexLe(y, x)
    ensures x == y
    decreases |x|
  {
    if x != [] && y != [] {
      LexLeAntisymmetric(x[1..], y[1..]);
      assert x == [x[0]] + x[1..] && y == [y[0]] + y[1..];
    }
  }

  /**
   * The ascending order sort_values puts key cells in: numbers by value, text
   * by code points, missing values last. pandas refuses to compare a number
   * with a text; the model ranks numbers before text instead.
   */
  predicate KeyLe(a: Cell, b: Cell)
  {
    match (a, b)
    case (_, Null) => true
    case (Null, _) => false
    case (Number(x), Number(y)) => x <= y
    case (Number(_), Text(_)) => true
    case (Text(_), Number(_)) => false
    case (Text(x), Text(y)) => LexLe(x, y)
  }

  lemma KeyLeTotal(a: Cell, b: Cell)
    ensures KeyLe(a, b) || KeyLe(b, a)
  {
    if a.Text? && b.Text? {
      LexLeTotal(a.s, b.s);
    }
  }

  lemma KeyLeTransitive(a: Cell, b: Cell, c: Cell)
    requires KeyLe(a, b) && KeyLe(b, c)
    ensures KeyLe(a, c)
  {
    if a.Text? && b.Text? && c.Text? {
      LexLeTransitive(a.s, b.s, c.s);
    }
  }

  // ---------------------------------------------------------------------------
  // Decimal rendering of counts, as str() and f-strings print a non-negative int
  // ---------------------------------------------------------------------------

  function Digit(d: nat): (c: char)
    requires d < 10
    ensures '0' <= c <= '9' && (c as int) - ('0' as int) == d
  {
    ['0', '1', '2', '3', '4', '5', '6', '7', '8', '9'][d]
  }

  /** The decimal digits of `n`, most significant first, with no leading zero. */
  function Decimal(n: nat): (r: string)
    ensures |r| >= 1
    ensures forall i | 0 <= i < |r| :: '0' <= r[i] <= '9'
    ensures |r| > 1 ==> r[0] != '0'
    decreases n
  {
    if n < 10 then [Digit(n)] else Decimal(n / 10) + [Digit(n % 10)]
  }

  /** The value of a string of decimal digits. */
  function DecimalValue(s: string): nat
    requires forall i | 0 <= i < |s| :: '0' <= s[i] <= '9'
    decreases |s|
  {
    if s == [] then 0
    else DecimalValue(s[..|s| - 1]) * 10 + ((s[|s| - 1] as int) - ('0' as int))
  }

  /** Reading back the rendered digits gives the count again, so distinct counts render differently. */
  lemma {:induction false} DecimalRoundTrip(n: nat)
    ensures DecimalValue(Decimal(n)) == n
    decreases n
  {
    if n >= 10 {
      DecimalRoundTrip(n / 10);
      var r := Decimal(n);
      assert r[..|r| - 1] == Decimal(n / 10);
    }
  }
}
