/**
 * The verdict lines the scenario checks write into the report, as pure
 * functions of the loaded tables, their column and dtype lists and the
 * detected encodings. Scenario headers and the dumps some branches append
 * are not modelled; each function returns the verdict text itself.
 */
module Scenarios {
  import opened Tables
  import opened Sorting
  import opened Counts
  import Encoding

  predicate StartsWith(s: string, p: string)
  {
    |p| <= |s| && s[..|p|] == p
  }

  // ---------------------------------------------------------------------------
  // Scenario 1: record counts
  // ---------------------------------------------------------------------------

  const OracleRecords := "num records in oracle"
  const RecordsEqualPrefix := OracleRecords + " = num records in datacloud S3 = "

  /** The verdict for row counts `rows1` and `rows2`, reporting `reported` when they are equal. */
  function CountVerdict(rows1: nat, rows2: nat, reported: nat): string
  {
    if rows1 == rows2 then RecordsEqualPrefix + Decimal(reported) + "\n"
    else OracleRecords + ": " + Decimal(rows1) + "\nnum records in Datacloud: " + Decimal(rows2) + "\n"
  }

  /** Scenario 1 as written: the equal branch reports the source's column count. */
  function RecordCountVerdict(t1: Table, t2: Table): (v: string)
    ensures StartsWith(v, OracleRecords)
  {
    CountVerdict(|t1.rows|, |t2.rows|, |t1.cols|)
  }

  /** Scenario 1 as intended: the equal branch reports the common record count. */
  function RecordCountVerdictCorrected(t1: Table, t2: Table): (v: string)
    ensures StartsWith(v, OracleRecords)
  {
    CountVerdict(|t1.rows|, |t2.rows|, |t1.rows|)
  }

  /** The number after the equal-count prefix, read back as a count. */
  function ReportedCount(v: string): nat
    requires StartsWith(v, RecordsEqualPrefix) && |v| > |RecordsEqualPrefix|
    requires forall i | |RecordsEqualPrefix| <= i < |v| - 1 :: '0' <= v[i] <= '9'
  {
    DecimalValue(v[|RecordsEqualPrefix|..|v| - 1])
  }

  /**
   * The equal-count line is written exactly when the row counts agree, and
   * the number it shows reads back as `reported`.
   */
  lemma CountVerdictMeaning(rows1: nat, rows2: nat, reported: nat)
    ensures StartsWith(CountVerdict(rows1, rows2, reported), RecordsEqualPrefix) <==> rows1 == rows2
    ensures rows1 == rows2 ==>
      var v := CountVerdict(rows1, rows2, reported);
      && |v| > |RecordsEqualPrefix|
      && (forall i | |RecordsEqualPrefix| <= i < |v| - 1 :: '0' <= v[i] <= '9')
      && ReportedCount(v) == reported
  {
    var v := CountVerdict(rows1, rows2, reported);
    if rows1 == rows2 {
      assert v[|RecordsEqualPrefix|..|v| - 1] == Decimal(reported);
      DecimalRoundTrip(reported);
    } else {
      assert v[|OracleRecords|] == ':' && RecordsEqualPrefix[|OracleRecords|] == ' ';
    }
  }

  /** As written, two tables of equal size report their column count, not their record count. */
  lemma RecordCountReportsColumns(t1: Table, t2: Table)
    requires |t1.rows| == |t2.rows|
    ensures var v := RecordCountVerdict(t1, t2);
      && StartsWith(v, RecordsEqualPrefix) && |v| > |RecordsEqualPrefix|
      && (forall i | |RecordsEqualPrefix| <= i < |v| - 1 :: '0' <= v[i] <= '9')
      && ReportedCount(v) == |t1.cols|
  {
    CountVerdictMeaning(|t1.rows|, |t2.rows|, |t1.cols|);
  }

  /** Two copies of a two-record, one-column table are reported as having 1 record each. */
  lemma RecordCountMisreported()
    ensures var t := Table(["id"], [[Number(1)], [Number(2)]]);
      ReportedCount(RecordCountVerdict(t, t)) == 1 != |t.rows|
  {
    var t := Table(["id"], [[Number(1)], [Number(2)]]);
    RecordCountReportsColumns(t, t);
  }

  /** Corrected, the equal-count line shows the record count both tables have. */
  lemma RecordCountCorrectedReportsRecords(t1: Table, t2: Table)
    ensures StartsWith(RecordCountVerdictCorrected(t1, t2), RecordsEqualPrefix) <==> |t1.rows| == |t2.rows|
    ensures |t1.rows| == |t2.rows| ==>
      var v := RecordCountVerdictCorrected(t1, t2);
      && |v| > |RecordsEqualPrefix|
      && (forall i | |RecordsEqualPrefix| <= i < |v| - 1 :: '0' <= v[i] <= '9')
      && ReportedCount(v) == |t1.rows| == |t2.rows|
  {
    CountVerdictMeaning(|t1.rows|, |t2.rows|, |t1.rows|);
  }

  // ---------------------------------------------------------------------------
  // Scenario 2: column names and their order
  // ---------------------------------------------------------------------------

  const ColumnsReordered := "Column names are identical but not in the same order\n"
  const ColumnsDiffer := "Column names are not identical\n"
  const ColumnsSame := "Column names are identical & in the same order\n"

  /** One of the three column messages; the in-order one exactly when the name lists are equal. */
  function ColumnVerdict(col1: seq<string>, col2: seq<string>): (v: string)
    ensures v == ColumnsSame || v == ColumnsReordered || v == ColumnsDiffer
    ensures v == ColumnsSame <==> col1 == col2
  {
    if col1 != col2 && Sort(col1) == Sort(col2) then ColumnsReordered
    else if col1 != col2 then ColumnsDiffer
    else ColumnsSame
  }

  /**
   * Same list: same order. Different lists with the same names the same
   * number of times: reordered. Otherwise the names differ.
   */
  lemma ColumnVerdictMeaning(col1: seq<string>, col2: seq<string>)
    ensures ColumnVerdict(col1, col2) == ColumnsSame <==> col1 == col2
    ensures ColumnVerdict(col1, col2) == ColumnsReordered <==> col1 != col2 && multiset(col1) == multiset(col2)
    ensures ColumnVerdict(col1, col2) == ColumnsDiffer <==> multiset(col1) != multiset(col2)
  {
    SortEqualIff(col1, col2);
  }

  // ---------------------------------------------------------------------------
  // Scenario 3: dtypes and the datetime column
  // ---------------------------------------------------------------------------

  const Datetime := "datetime64[ns]"
  const TypesMatch := "Data types of all columns in both files matched successfully\n"
  const TypesDiffer := "Data types of Columns in both files don't match\n"
  const TypesCountDiffer := "Number of columns in both files don't match, Hence can't compare data types\n"

  /** next(index for index, dtype in enumerate(types) if dtype == 'datetime64[ns]', -1). */
  function DatetimeIndex(types: seq<string>): (i: int)
    ensures -1 <= i < |types|
    ensures i >= 0 ==> types[i] == Datetime
    ensures forall m | 0 <= m < |types| && (i == -1 || m < i) :: types[m] != Datetime
  {
    if types == [] then -1
    else if types[0] == Datetime then 0
    else
      var j := DatetimeIndex(types[1..]);
      if j == -1 then -1 else j + 1
  }

  /** The datetime index is -1 exactly when no column has the datetime dtype. */
  lemma DatetimeIndexAbsent(types: seq<string>)
    ensures DatetimeIndex(types) == -1 <==> Datetime !in types
  {
  }

  /** One of the three dtype messages; the count message only when the column counts differ. */
  function DtypeVerdict(type1: seq<string>, type2: seq<string>): (v: string)
    ensures v == TypesMatch || v == TypesDiffer || v == TypesCountDiffer
    ensures |type1| == |type2| ==> v != TypesCountDiffer
  {
    if Sort(type1) == Sort(type2) then TypesMatch
    else if |type1| == |type2| then TypesDiffer
    else TypesCountDiffer
  }

  /**
   * The dtypes match exactly when they are the same multiset; otherwise the
   * verdict depends only on whether the column counts agree.
   */
  lemma DtypeVerdictMeaning(type1: seq<string>, type2: seq<string>)
    ensures DtypeVerdict(type1, type2) == TypesMatch <==> multiset(type1) == multiset(type2)
    ensures DtypeVerdict(type1, type2) == TypesDiffer <==> multiset(type1) != multiset(type2) && |type1| == |type2|
    ensures DtypeVerdict(type1, type2) == TypesCountDiffer <==> |type1| != |type2|
  {
    SortEqualIff(type1, type2);
    if multiset(type1) == multiset(type2) {
      assert |type1| == |multiset(type1)| == |multiset(type2)| == |type2|;
    }
  }

  // ---------------------------------------------------------------------------
  // Scenario 5: the branch taken when a datetime column is missing
  // ---------------------------------------------------------------------------

  const NoDatetime := "Dataframes dont contain Datetime column\n"

  /**
   * The first branch of the datetime-format check. None stands for the
   * other branch, which this model does not cover.
   */
  function DatetimeFormatVerdict(idx1: int, idx2: int): (v: Option<string>)
    ensures v.Some? <==> idx1 == -1 || idx2 == -1
    ensures v.Some? ==> v.value == NoDatetime
  {
    if idx1 == -1 || idx2 == -1 then Some(NoDatetime) else None
  }

  /** The check stops at its first branch exactly when one of the dtype lists has no datetime column. */
  lemma NoDatetimeIff(type1: seq<string>, type2: seq<string>)
    ensures DatetimeFormatVerdict(DatetimeIndex(type1), DatetimeIndex(type2)) == Some(NoDatetime)
      <==> Datetime !in type1 || Datetime !in type2
  {
    DatetimeIndexAbsent(type1);
    DatetimeIndexAbsent(type2);
  }

  // ---------------------------------------------------------------------------
  // Scenario 6: null counts
  // ---------------------------------------------------------------------------

  const NullsMatch := "Null values in both files match successfully!\n"
  const NullsDiffer := "Null values in both files don't match\n"

  /** df[c].isnull().sum(): the rows whose cell `c` is missing. */
  function NullCount(rows: seq<Row>, c: nat): (n: nat)
    requires HasColumn(rows, c)
    ensures n <= |rows|
  {
    if rows == [] then 0 else (if rows[0][c] == Null then 1 else 0) + NullCount(rows[1..], c)
  }

  lemma {:induction false} NullCountAppend(a: seq<Row>, b: seq<Row>, c: nat)
    requires HasColumn(a, c) && HasColumn(b, c)
    ensures HasColumn(a + b, c)
    ensures NullCount(a + b, c) == NullCount(a, c) + NullCount(b, c)
    decreases |a|
  {
    if a != [] {
      NullCountAppend(a[1..], b, c);
      assert (a + b)[0] == a[0] && (a + b)[1..] == a[1..] + b;
    } else {
      assert a + b == b;
    }
  }

  /** Removing the row at `i` removes one copy of it. */
  lemma RemoveAt(s: seq<Row>, i: nat)
    requires i < |s|
    ensures multiset(s[..i] + s[i + 1..]) == multiset(s) - multiset{s[i]}
    ensures s == s[..i] + [s[i]] + s[i + 1..]
  {
    assert s == s[..i] + [s[i]] + s[i + 1..];
  }

  /** The null count of a table is that of the row at `i` plus that of the other rows. */
  lemma NullCountRemove(b: seq<Row>, i: nat, c: nat)
    requires HasColumn(b, c) && i < |b|
    ensures HasColumn(b[..i] + b[i + 1..], c)
    ensures NullCount(b, c) == (if b[i][c] == Null then 1 else 0) + NullCount(b[..i] + b[i + 1..], c)
  {
    NullCountAppend(b[..i], b[i + 1..], c);
    NullCountAppend(b[..i], [b[i]] + b[i + 1..], c);
    assert ([b[i]] + b[i + 1..])[1..] == b[i + 1..];
    assert b[..i] + ([b[i]] + b[i + 1..]) == b;
  }

  /** Null counts do not depend on the order of the rows. */
  lemma {:induction false} NullCountPermutation(a: seq<Row>, b: seq<Row>, c: nat)
    requires HasColumn(a, c) && HasColumn(b, c) && multiset(a) == multiset(b)
    ensures NullCount(a, c) == NullCount(b, c)
    decreases |a|
  {
    if a != [] {
      assert a[0] in multiset(b);
      var i :| 0 <= i < |b| && b[i] == a[0];
      assert a == [a[0]] + a[1..];
      RemoveAt(b, i);
      NullCountRemove(b, i, c);
      NullCountPermutation(a[1..], b[..i] + b[i + 1..], c);
    }
  }

  /** df.isnull().sum(): each column name with the null count of its column. */
  function NullCounts(t: Table): (s: seq<(string, nat)>)
    requires WellFormed(t)
    ensures |s| == |t.cols|
  {
    seq(|t.cols|, i requires 0 <= i < |t.cols| => (t.cols[i], NullCount(t.rows, i)))
  }

  /** Series.equals on the two null-count series. */
  function NullVerdict(t1: Table, t2: Table): (v: string)
    requires WellFormed(t1) && WellFormed(t2)
    ensures v == NullsMatch || v == NullsDiffer
  {
    if NullCounts(t1) == NullCounts(t2) then NullsMatch else NullsDiffer
  }

  /** The two tables have the same column names and each column the same number of missing values. */
  predicate SameNullCounts(t1: Table, t2: Table)
    requires WellFormed(t1) && WellFormed(t2)
  {
    t1.cols == t2.cols && forall c | 0 <= c < |t1.cols| :: NullCount(t1.rows, c) == NullCount(t2.rows, c)
  }

  /** The null counts match exactly when the column names and each column's null count agree. */
  lemma NullVerdictMeaning(t1: Table, t2: Table)
    requires WellFormed(t1) && WellFormed(t2)
    ensures NullVerdict(t1, t2) == NullsMatch <==> SameNullCounts(t1, t2)
  {
    if NullCounts(t1) == NullCounts(t2) {
      forall c | 0 <= c < |t1.cols|
        ensures t1.cols[c] == t2.cols[c] && NullCount(t1.rows, c) == NullCount(t2.rows, c)
      {
        assert NullCounts(t1)[c] == NullCounts(t2)[c];
      }
      assert t1.cols == t2.cols;
    }
  }

  /** Reordering the rows of a table (as the loader's sort does) never changes the null verdict. */
  lemma NullVerdictIgnoresRowOrder(t1: Table, t2: Table)
    requires WellFormed(t1) && WellFormed(t2)
    requires t1.cols == t2.cols && multiset(t1.rows) == multiset(t2.rows)
    ensures NullVerdict(t1, t2) == NullsMatch
  {
    forall c | 0 <= c < |t1.cols|
      ensures NullCount(t1.rows, c) == NullCount(t2.rows, c)
    {
      NullCountPermutation(t1.rows, t2.rows, c);
    }
    NullVerdictMeaning(t1, t2);
  }

  // ---------------------------------------------------------------------------
  // Scenario 9: encodings
  // ---------------------------------------------------------------------------

  const SameEncodingPrefix := "Encoding for both files is same, i.e.: "
  const EncodingsDiffer := "Both files have different encodings\n"

  /** str() of the detected encoding: the name, or None. */
  function ShowEncoding(e: Option<string>): string
  {
    match e
    case None => "None"
    case Some(name) => name
  }

  /** Either the different-encodings message or the same-encoding line naming the detection. */
  function EncodingVerdict(e1: Option<string>, e2: Option<string>): (v: string)
    ensures v == EncodingsDiffer || StartsWith(v, SameEncodingPrefix)
  {
    if e1 == e2 then SameEncodingPrefix + ShowEncoding(e2) + "\n" else EncodingsDiffer
  }

  /** The encodings are reported the same exactly when the two detections agree, failures included. */
  lemma EncodingVerdictMeaning(e1: Option<string>, e2: Option<string>)
    ensures StartsWith(EncodingVerdict(e1, e2), SameEncodingPrefix) <==> e1 == e2
    ensures EncodingVerdict(e1, e2) == EncodingsDiffer <==> e1 != e2
  {
    var v := EncodingVerdict(e1, e2);
    if e1 == e2 {
      assert v[..|SameEncodingPrefix|] == SameEncodingPrefix;
      assert v[0] == 'E' != EncodingsDiffer[0];
    } else {
      assert v[0] == 'B' != SameEncodingPrefix[0];
    }
  }

  /** Two files that cannot be opened are reported as having the same encoding, None. */
  lemma UnopenableFilesSameEncoding(encodings: seq<string>, numRows: nat,
                                    decode: (string, seq<byte>) -> Encoding.Decoded)
    ensures var e := Encoding.DetectEncoding(None, encodings, numRows, decode);
      EncodingVerdict(e, e) == SameEncodingPrefix + "None\n"
  {
  }

  // ---------------------------------------------------------------------------
  // Scenario 10: row order
  // ---------------------------------------------------------------------------

  const SameSortOrder := "The data in both files is sorted in the same order.\n"
  const NotSameSortOrder := "The data in both files is not sorted in the same order.\n"
  const SizesDiffer := "Both files differ in size, hence can't compare the order\n"

  /** str(df.shape): "(rows, columns)". */
  function Shape(t: Table): string
  {
    "(" + Decimal(|t.rows|) + ", " + Decimal(|t.cols|) + ")"
  }

  /** The order verdict once it is decided whether the sizes allow a comparison; equality is DataFrame.equals. */
  function OrderVerdictBy(comparable: bool, t1: Table, t2: Table): string
  {
    if comparable then (if t1 == t2 then SameSortOrder else NotSameSortOrder)
    else SizesDiffer + "Shape of oracle source: " + Shape(t1) + "\n" + "Shape of datacloud target: " + Shape(t2) + "\n"
  }

  /** Scenario 10 as written: the size test compares the source's column count with the target's row count. */
  function OrderVerdict(t1: Table, t2: Table): (v: string)
    ensures v == SameSortOrder || v == NotSameSortOrder || StartsWith(v, SizesDiffer)
    ensures v == SameSortOrder ==> t1 == t2
  {
    OrderVerdictBy(|t1.rows| == |t2.rows| && |t1.cols| == |t2.rows|, t1, t2)
  }

  /** Scenario 10 as intended: both dimensions of the two shapes are compared. */
  function OrderVerdictCorrected(t1: Table, t2: Table): string
  {
    OrderVerdictBy(|t1.rows| == |t2.rows| && |t1.cols| == |t2.cols|, t1, t2)
  }

  /** The three outcomes: same order only for comparable equal tables, the size message only when not comparable. */
  lemma OrderVerdictByMeaning(comparable: bool, t1: Table, t2: Table)
    ensures OrderVerdictBy(comparable, t1, t2) == SameSortOrder <==> comparable && t1 == t2
    ensures OrderVerdictBy(comparable, t1, t2) == NotSameSortOrder <==> comparable && t1 != t2
    ensures StartsWith(OrderVerdictBy(comparable, t1, t2), SizesDiffer) <==> !comparable
  {
    var v := OrderVerdictBy(comparable, t1, t2);
    if !comparable {
      assert v[..|SizesDiffer|] == SizesDiffer;
    }
  }

  /**
   * As written, equal tables are called sorted in the same order only when
   * they have as many columns as rows; any other table compared with itself
   * is reported as differing in size.
   */
  lemma OrderVerdictAsWritten(t1: Table, t2: Table)
    ensures OrderVerdict(t1, t2) == SameSortOrder <==> t1 == t2 && |t1.cols| == |t1.rows|
    ensures |t1.cols| != |t1.rows| ==> StartsWith(OrderVerdict(t1, t1), SizesDiffer)
  {
    OrderVerdictByMeaning(|t1.rows| == |t2.rows| && |t1.cols| == |t2.rows|, t1, t2);
    OrderVerdictByMeaning(|t1.rows| == |t1.rows| && |t1.cols| == |t1.rows|, t1, t1);
  }

  /** A one-record, two-column file compared with itself is reported as differing in size. */
  lemma OrderVerdictMisreported()
    ensures var t := Table(["id", "name"], [[Number(1), Text("a")]]);
      StartsWith(OrderVerdict(t, t), SizesDiffer)
  {
    var t := Table(["id", "name"], [[Number(1), Text("a")]]);
    OrderVerdictAsWritten(t, t);
  }

  /** Corrected, the data is called sorted in the same order exactly when the tables are equal. */
  lemma OrderVerdictCorrectedMeaning(t1: Table, t2: Table)
    ensures OrderVerdictCorrected(t1, t2) == SameSortOrder <==> t1 == t2
    ensures StartsWith(OrderVerdictCorrected(t1, t2), SizesDiffer) <==>
      |t1.rows| != |t2.rows| || |t1.cols| != |t2.cols|
  {
    OrderVerdictByMeaning(|t1.rows| == |t2.rows| && |t1.cols| == |t2.cols|, t1, t2);
  }

  // ---------------------------------------------------------------------------
  // Scenarios 15 and 16: duplicates
  // ---------------------------------------------------------------------------

  const ThereAre := "There are "
  const NoDuplicatesPrefix := ThereAre + "No Duplicates in "

  /** Scenario 15: a line starting "There are", the "No Duplicates" form when nothing is duplicated. */
  function SourceDuplicateVerdict(rows: seq<Row>): (v: string)
    ensures StartsWith(v, ThereAre)
    ensures Duplicated(rows) == 0 ==> StartsWith(v, NoDuplicatesPrefix)
  {
    var n := Duplicated(rows);
    if n > 0 then ThereAre + Decimal(n) + " duplicates in oracle source\n"
    else NoDuplicatesPrefix + "oracle source, i.e. " + Decimal(n) + "\n"
  }

  /** Scenario 16: the same for the target table. */
  function TargetDuplicateVerdict(rows: seq<Row>): (v: string)
    ensures StartsWith(v, ThereAre)
    ensures Duplicated(rows) == 0 ==> StartsWith(v, NoDuplicatesPrefix)
  {
    var n := Duplicated(rows);
    if n > 0 then ThereAre + Decimal(n) + " duplicates in Datacloud target\n"
    else NoDuplicatesPrefix + "Datacloud Target, i.e. " + Decimal(n) + "\n"
  }

  /** "No Duplicates" is written exactly when no row of the table occurs twice. */
  lemma DuplicateVerdictMeaning(rows: seq<Row>)
    ensures StartsWith(SourceDuplicateVerdict(rows), NoDuplicatesPrefix) <==> Distinct(rows)
    ensures StartsWith(TargetDuplicateVerdict(rows), NoDuplicatesPrefix) <==> Distinct(rows)
  {
    NoDuplicatesIff(rows);
    var n := Duplicated(rows);
    var s := SourceDuplicateVerdict(rows);
    var t := TargetDuplicateVerdict(rows);
    if n > 0 {
      assert s[|ThereAre|] == Decimal(n)[0] && t[|ThereAre|] == Decimal(n)[0];
      assert NoDuplicatesPrefix[|ThereAre|] == 'N';
    } else {
      assert s[..|NoDuplicatesPrefix|] == NoDuplicatesPrefix;
      assert t[..|NoDuplicatesPrefix|] == NoDuplicatesPrefix;
    }
  }
}
