/**
 * The two counts the report takes from a single table: the number of
 * distinct keys (Series.nunique, which does not count the missing value)
 * and the number of duplicate rows (DataFrame.duplicated().sum(), which
 * marks every row equal to an earlier one).
 */
module Counts {
  import opened Tables

  /** df[primary_key].nunique(): how many distinct non-missing keys occur. */
  function NUnique(rows: seq<Row>, k: nat): (n: nat)
    requires HasColumn(rows, k)
    ensures n <= |rows|
    ensures KeysDistinct(rows, k) ==> n == |rows|
  {
    KeySetSize(rows, k);
    assert |KeySet(rows, k) - {Null}| <= |KeySet(rows, k)|;
    assert KeysDistinct(rows, k) ==> KeySet(rows, k) - {Null} == KeySet(rows, k);
    |KeySet(rows, k) - {Null}|
  }

  /** The key is unique and never missing. */
  predicate KeysDistinct(rows: seq<Row>, k: nat)
    requires HasColumn(rows, k)
  {
    UniqueKeys(rows, k) && forall i | 0 <= i < |rows| :: rows[i][k] != Null
  }

  /** The keys of a table are those of all its rows but the last, and the last row's key. */
  lemma KeySetSnoc(rows: seq<Row>, k: nat)
    requires HasColumn(rows, k) && rows != []
    ensures HasColumn(rows[..|rows| - 1], k)
    ensures KeySet(rows, k) == KeySet(rows[..|rows| - 1], k) + {rows[|rows| - 1][k]}
  {
    assert rows == rows[..|rows| - 1] + [rows[|rows| - 1]];
  }

  /**
   * There are never more distinct key values than rows, and exactly as many
   * when the key is unique (a missing key counting as one value); with no
   * missing key, the missing value is not among them.
   */
  lemma {:induction false} KeySetSize(rows: seq<Row>, k: nat)
    requires HasColumn(rows, k)
    ensures |KeySet(rows, k)| <= |rows|
    ensures UniqueKeys(rows, k) ==> |KeySet(rows, k)| == |rows|
    ensures KeysDistinct(rows, k) ==> Null !in KeySet(rows, k)
    decreases |rows|
  {
    if rows != [] {
      var init := rows[..|rows| - 1];
      var last := rows[|rows| - 1];
      KeySetSnoc(rows, k);
      KeySetSize(init, k);
      if UniqueKeys(rows, k) {
        assert UniqueKeys(init, k);
        assert last[k] !in KeySet(init, k);
      }
      if KeysDistinct(rows, k) {
        assert KeysDistinct(init, k);
      }
    }
  }

  /** Missing keys are not counted: a table whose keys are all missing has none. */
  lemma NUniqueAllMissing(rows: seq<Row>, k: nat)
    requires HasColumn(rows, k)
    requires forall i | 0 <= i < |rows| :: rows[i][k] == Null
    ensures NUnique(rows, k) == 0
  {
    assert KeySet(rows, k) - {Null} == {};
  }

  /** df.duplicated().sum(): the rows equal to some earlier row. */
  function Duplicated(rows: seq<Row>): (n: nat)
    ensures n <= |rows|
    ensures rows != [] ==> n < |rows|
  {
    if rows == [] then 0
    else Duplicated(rows[..|rows| - 1]) + (if rows[|rows| - 1] in rows[..|rows| - 1] then 1 else 0)
  }

  /** No row occurs twice. */
  predicate Distinct(rows: seq<Row>)
  {
    forall i, j | 0 <= i < j < |rows| :: rows[i] != rows[j]
  }

  /** Every row is either the first of its kind or a duplicate: duplicates plus distinct rows make all rows. */
  lemma {:induction false} DuplicatedPlusDistinct(rows: seq<Row>)
    ensures Duplicated(rows) + |set r | r in rows| == |rows|
    decreases |rows|
  {
    if rows != [] {
      var init := rows[..|rows| - 1];
      var last := rows[|rows| - 1];
      DuplicatedPlusDistinct(init);
      assert rows == init + [last];
      var before := set r | r in init;
      assert (set r | r in rows) == before + {last};
      if last in init {
        assert before + {last} == before;
      } else {
        assert last !in before;
        assert |before + {last}| == |before| + 1;
      }
    }
  }

  /** duplicated().sum() is zero exactly when no row occurs twice. */
  lemma {:induction false} NoDuplicatesIff(rows: seq<Row>)
    ensures Duplicated(rows) == 0 <==> Distinct(rows)
    decreases |rows|
  {
    if rows != [] {
      var init := rows[..|rows| - 1];
      var last := rows[|rows| - 1];
      NoDuplicatesIff(init);
      if Distinct(rows) {
        assert Distinct(init);
      }
      if Duplicated(rows) == 0 {
        forall i, j | 0 <= i < j < |rows|
          ensures rows[i] != rows[j]
        {
          if j < |rows| - 1 {
            assert rows[i] == init[i] && rows[j] == init[j];
          } else {
            assert rows[i] == init[i];
          }
        }
      }
    }
  }
}
