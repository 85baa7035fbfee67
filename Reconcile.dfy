/**
 * The reconciliation algebra over the two loaded tables, with the target's
 * rows already in the source's column order and `k` the position of the
 * primary key:
 *   matching_records        inner merge on every column
 *   unmatching_records_in_* concat with the matches, drop_duplicates(keep=False)
 *   sample                  inner merge of the two unmatched sets on the key
 *   *_only_records          unmatched rows whose key is not in the sample
 *   matching_for_safenumber unmatched rows whose key is in the sample
 *   data_mismatch_records   inner merge of those two on the key
 *   present_in_both         source rows whose key occurs in the target
 */
module Reconcile {
  import opened Tables
  import opened Counts

  // ---------------------------------------------------------------------------
  // Merge on all columns
  // ---------------------------------------------------------------------------

  /** `n` copies of `r`. */
  function Repeat(r: Row, n: nat): (s: seq<Row>)
    ensures |s| == n
    ensures forall x :: multiset(s)[x] == if x == r then n else 0
  {
    if n == 0 then [] else [r] + Repeat(r, n - 1)
  }

  /**
   * pd.merge(df1, df2, on=all columns, how='inner'): every source row once
   * for each equal target row, in source order; a row occurring `a` times in
   * the source and `b` times in the target occurs `a * b` times.
   */
  function MatchAll(rows1: seq<Row>, rows2: seq<Row>): (m: seq<Row>)
    ensures forall x :: multiset(m)[x] == multiset(rows1)[x] * multiset(rows2)[x]
  {
    if rows1 == [] then []
    else
      var rest := MatchAll(rows1[1..], rows2);
      var m := Repeat(rows1[0], multiset(rows2)[rows1[0]]) + rest;
      forall x
        ensures multiset(m)[x] == multiset(rows1)[x] * multiset(rows2)[x]
      {
        MatchAllStep(rows1, rows2, rest, x);
      }
      m
  }

  /** One step of the count: the first source row adds its matches to those of the rest. */
  lemma MatchAllStep(rows1: seq<Row>, rows2: seq<Row>, rest: seq<Row>, x: Row)
    requires rows1 != []
    requires multiset(rest)[x] == multiset(rows1[1..])[x] * multiset(rows2)[x]
    ensures multiset(Repeat(rows1[0], multiset(rows2)[rows1[0]]) + rest)[x] == multiset(rows1)[x] * multiset(rows2)[x]
  {
    assert rows1 == [rows1[0]] + rows1[1..];
    var a := multiset(rows1[1..])[x];
    var b := multiset(rows2)[x];
    if x == rows1[0] {
      assert multiset(rows1)[x] == a + 1;
      assert (a + 1) * b == a * b + b;
    } else {
      assert multiset(rows1)[x] == a;
    }
  }

  /** With no repeated source row, every source row that the target holds once is matched once, in order. */
  lemma {:induction false} MatchAllOfDistinct(rows1: seq<Row>, rows2: seq<Row>)
    requires forall x | x in rows1 :: multiset(rows2)[x] == 1
    ensures MatchAll(rows1, rows2) == rows1
  {
    if rows1 != [] {
      MatchAllOfDistinct(rows1[1..], rows2);
      assert Repeat(rows1[0], 1) == [rows1[0]];
    }
  }

  // ---------------------------------------------------------------------------
  // drop_duplicates(keep=False)
  // ---------------------------------------------------------------------------

  /** The rows of `s`, in order, that occur exactly once in `whole`. */
  function KeepSingles(s: seq<Row>, whole: seq<Row>): (r: seq<Row>)
    ensures |r| <= |s|
  {
    if s == [] then []
    else (if multiset(whole)[s[0]] == 1 then [s[0]] else []) + KeepSingles(s[1..], whole)
  }

  /** drop_duplicates(keep=False) keeps exactly the rows of `s` occurring once in `whole`. */
  lemma {:induction false} KeepSinglesMembers(s: seq<Row>, whole: seq<Row>)
    ensures forall x :: x in KeepSingles(s, whole) <==> x in s && multiset(whole)[x] == 1
  {
    if s != [] {
      KeepSinglesMembers(s[1..], whole);
      assert s == [s[0]] + s[1..];
    }
  }

  /** drop_duplicates(keep=False): only the rows that occur once, in their order. */
  function DropDuplicates(s: seq<Row>): (r: seq<Row>)
    ensures forall x :: x in r <==> x in s && multiset(s)[x] == 1
    ensures |r| <= |s|
  {
    KeepSinglesMembers(s, s);
    KeepSingles(s, s)
  }

  /** The rows of `s`, in order, that occur exactly once in `side` and not at all in `other`. */
  function OnceAndAbsent(s: seq<Row>, side: seq<Row>, other: seq<Row>): (r: seq<Row>)
    ensures |r| <= |s|
  {
    if s == [] then []
    else (if multiset(side)[s[0]] == 1 && s[0] !in other then [s[0]] else []) + OnceAndAbsent(s[1..], side, other)
  }

  /** The filter keeps exactly the rows of `s` that occur once in `side` and not in `other`. */
  lemma {:induction false} OnceAndAbsentMembers(s: seq<Row>, side: seq<Row>, other: seq<Row>)
    ensures forall x :: x in OnceAndAbsent(s, side, other) <==> x in s && multiset(side)[x] == 1 && x !in other
  {
    if s != [] {
      OnceAndAbsentMembers(s[1..], side, other);
      assert s == [s[0]] + s[1..];
    }
  }

  lemma {:induction false} KeepSinglesAppend(a: seq<Row>, b: seq<Row>, whole: seq<Row>)
    ensures KeepSingles(a + b, whole) == KeepSingles(a, whole) + KeepSingles(b, whole)
  {
    if a != [] {
      KeepSinglesAppend(a[1..], b, whole);
      assert (a + b)[0] == a[0] && (a + b)[1..] == a[1..] + b;
    } else {
      assert a + b == b;
    }
  }

  lemma {:induction false} OnceAndAbsentAppend(a: seq<Row>, b: seq<Row>, side: seq<Row>, other: seq<Row>)
    ensures OnceAndAbsent(a + b, side, other) == OnceAndAbsent(a, side, other) + OnceAndAbsent(b, side, other)
  {
    if a != [] {
      OnceAndAbsentAppend(a[1..], b, side, other);
      assert (a + b)[0] == a[0] && (a + b)[1..] == a[1..] + b;
    } else {
      assert a + b == b;
    }
  }

  /** The filter keeps each row as often as `s` holds it, or not at all. */
  lemma {:induction false} OnceAndAbsentCount(s: seq<Row>, side: seq<Row>, other: seq<Row>)
    ensures forall x ::
              multiset(OnceAndAbsent(s, side, other))[x]
              == (if multiset(side)[x] == 1 && x !in other then multiset(s)[x] else 0)
  {
    if s != [] {
      OnceAndAbsentCount(s[1..], side, other);
      assert s == [s[0]] + s[1..];
    }
  }

  /** Two filters of the same rows agree when their tests agree on every row. */
  lemma {:induction false} SameSelection(s: seq<Row>, whole: seq<Row>, side: seq<Row>, other: seq<Row>)
    requires forall x | x in s :: (multiset(whole)[x] == 1) == (multiset(side)[x] == 1 && x !in other)
    ensures KeepSingles(s, whole) == OnceAndAbsent(s, side, other)
  {
    if s != [] {
      SameSelection(s[1..], whole, side, other);
    }
  }

  lemma ProductAtLeast(a: nat, b: nat)
    requires b >= 1
    ensures a * b >= a
  {
  }

  /**
   * The heart of the unmatched sets: appending rows that are all copies of
   * `side` rows found in `other`, and dropping every duplicate, leaves
   * exactly the rows occurring once in `side` and not in `other`.
   */
  lemma DropMatchedCopies(side: seq<Row>, m: seq<Row>, other: seq<Row>)
    requires forall x :: multiset(m)[x] == multiset(side)[x] * multiset(other)[x]
    ensures DropDuplicates(side + m) == OnceAndAbsent(side, side, other)
  {
    var w := side + m;
    KeepSinglesAppend(side, m, w);
    forall x | x in m
      ensures multiset(w)[x] != 1
    {
      assert multiset(m)[x] >= 1;
      assert multiset(side)[x] >= 1;
    }
    KeepSinglesMembers(m, w);
    FirstIsMember(KeepSingles(m, w));
    forall x | x in side
      ensures (multiset(w)[x] == 1) == (multiset(side)[x] == 1 && x !in other)
    {
      if x in other {
        ProductAtLeast(multiset(side)[x], multiset(other)[x]);
      }
    }
    SameSelection(side, w, side, other);
  }

  /**
   * unmatching_records_in_oracle_source: the source rows, in source order,
   * that occur once in the source and have no equal row in the target. A
   * source row that is repeated is dropped even when the target lacks it.
   */
  function UnmatchedSource(rows1: seq<Row>, rows2: seq<Row>): (u: seq<Row>)
    ensures u == OnceAndAbsent(rows1, rows1, rows2)
    ensures forall x :: x in u <==> x in rows1 && multiset(rows1)[x] == 1 && x !in MatchAll(rows1, rows2)
  {
    DropMatchedCopies(rows1, MatchAll(rows1, rows2), rows2);
    OnceAndAbsentMembers(rows1, rows1, rows2);
    DropDuplicates(rows1 + MatchAll(rows1, rows2))
  }

  /** unmatching_records_in_datacloud_target: the same, with the sides exchanged. */
  function UnmatchedTarget(rows1: seq<Row>, rows2: seq<Row>): (u: seq<Row>)
    ensures u == OnceAndAbsent(rows2, rows2, rows1)
    ensures forall x :: x in u <==> x in rows2 && multiset(rows2)[x] == 1 && x !in MatchAll(rows1, rows2)
  {
    var m := MatchAll(rows1, rows2);
    assert forall x :: multiset(m)[x] == multiset(rows2)[x] * multiset(rows1)[x];
    DropMatchedCopies(rows2, m, rows1);
    OnceAndAbsentMembers(rows2, rows2, rows1);
    DropDuplicates(rows2 + m)
  }

  // ---------------------------------------------------------------------------
  // Merge on the key and key filters
  // ---------------------------------------------------------------------------

  /** One row of a merge on the key: the source row and the target row it met. */
  datatype Pair = Pair(left: Row, right: Row)

  /** The pairs `r1` forms with the rows of `rows2` that carry its key, in target order. */
  function PairsWith(r1: Row, rows2: seq<Row>, k: nat): (ps: seq<Pair>)
    requires k < |r1| && HasColumn(rows2, k)
    ensures forall p | p in ps :: p.left == r1 && p.right in rows2 && p.right[k] == r1[k]
    ensures forall r2 | r2 in rows2 && r2[k] == r1[k] :: Pair(r1, r2) in ps
  {
    if rows2 == [] then []
    else (if rows2[0][k] == r1[k] then [Pair(r1, rows2[0])] else []) + PairsWith(r1, rows2[1..], k)
  }

  /** pd.merge(a, b, on=[key], how='inner'): every pair of rows with equal keys, in source order. */
  function KeyJoin(rows1: seq<Row>, rows2: seq<Row>, k: nat): (j: seq<Pair>)
    requires HasColumn(rows1, k) && HasColumn(rows2, k)
    ensures forall p | p in j :: p.left in rows1 && p.right in rows2 && p.left[k] == p.right[k]
    ensures forall r1, r2 | r1 in rows1 && r2 in rows2 && r1[k] == r2[k] :: Pair(r1, r2) in j
  {
    if rows1 == [] then []
    else PairsWith(rows1[0], rows2, k) + KeyJoin(rows1[1..], rows2, k)
  }

  /** A source row meets each target row carrying its key once per occurrence of that row in the target. */
  lemma {:induction false} PairsWithMultiplicity(r1: Row, rows2: seq<Row>, k: nat, x: Row, y: Row)
    requires k < |r1| && HasColumn(rows2, k)
    ensures multiset(PairsWith(r1, rows2, k))[Pair(x, y)] ==
      (if x == r1 && k < |y| && y[k] == r1[k] then multiset(rows2)[y] else 0)
  {
    if rows2 != [] {
      PairsWithMultiplicity(r1, rows2[1..], k, x, y);
      assert rows2 == [rows2[0]] + rows2[1..];
    }
  }

  /**
   * The merge on the key emits a pair once for each occurrence of its source
   * row times each occurrence of its target row, when their keys are equal.
   */
  lemma {:induction false} KeyJoinMultiplicity(rows1: seq<Row>, rows2: seq<Row>, k: nat, x: Row, y: Row)
    requires HasColumn(rows1, k) && HasColumn(rows2, k)
    ensures multiset(KeyJoin(rows1, rows2, k))[Pair(x, y)] ==
      (if k < |x| && k < |y| && x[k] == y[k] then multiset(rows1)[x] * multiset(rows2)[y] else 0)
  {
    if rows1 != [] {
      var r1, rest := rows1[0], rows1[1..];
      var q := Pair(x, y);
      PairsWithMultiplicity(r1, rows2, k, x, y);
      KeyJoinMultiplicity(rest, rows2, k, x, y);
      assert KeyJoin(rows1, rows2, k) == PairsWith(r1, rows2, k) + KeyJoin(rest, rows2, k);
      assert rows1 == [r1] + rest;
      if k < |x| && k < |y| && x[k] == y[k] {
        var a, b := multiset(rest)[x], multiset(rows2)[y];
        var c := if x == r1 then 1 else 0;
        assert multiset(rows1)[x] == c + a;
        assert multiset(KeyJoin(rows1, rows2, k))[q] == c * b + a * b;
        Distribute(c, a, b);
      }
    }
  }

  /** (c + a) * b, multiplied out. */
  lemma Distribute(c: nat, a: nat, b: nat)
    ensures (c + a) * b == c * b + a * b
  {
  }

  /** A merge of two tables in which no row occurs twice has no pair twice. */
  lemma JoinOfDistinctOnce(rows1: seq<Row>, rows2: seq<Row>, k: nat)
    requires HasColumn(rows1, k) && HasColumn(rows2, k)
    requires forall x :: multiset(rows1)[x] <= 1
    requires forall y :: multiset(rows2)[y] <= 1
    ensures forall q :: multiset(KeyJoin(rows1, rows2, k))[q] <= 1
  {
    forall q
      ensures multiset(KeyJoin(rows1, rows2, k))[q] <= 1
    {
      KeyJoinMultiplicity(rows1, rows2, k, q.left, q.right);
      assert q == Pair(q.left, q.right);
      OneTimesOne(multiset(rows1)[q.left], multiset(rows2)[q.right]);
    }
  }

  /** Counts of at most one multiply to at most one. */
  lemma OneTimesOne(a: nat, b: nat)
    requires a <= 1 && b <= 1
    ensures a * b <= 1
  {
  }

  /** sample[primary_key]: the key column of a merge on the key. */
  function JoinedKeys(j: seq<Pair>, k: nat): set<Cell>
    requires forall p | p in j :: k < |p.left|
  {
    set p | p in j :: p.left[k]
  }

  /** The keys of a merge on the key are the keys the two sides share. */
  lemma JoinedKeysAreShared(rows1: seq<Row>, rows2: seq<Row>, k: nat)
    requires HasColumn(rows1, k) && HasColumn(rows2, k)
    ensures JoinedKeys(KeyJoin(rows1, rows2, k), k) == KeySet(rows1, k) * KeySet(rows2, k)
  {
    var j := KeyJoin(rows1, rows2, k);
    forall c | c in KeySet(rows1, k) * KeySet(rows2, k)
      ensures c in JoinedKeys(j, k)
    {
      var r1 :| r1 in rows1 && r1[k] == c;
      var r2 :| r2 in rows2 && r2[k] == c;
      assert Pair(r1, r2) in j;
    }
  }

  /**
   * df[df[key].isin(keys)] when `inside`, df[~df[key].isin(keys)] otherwise:
   * the rows whose key is (or is not) among `keys`, in order.
   */
  function Select(s: seq<Row>, k: nat, keys: set<Cell>, inside: bool): (r: seq<Row>)
    requires HasColumn(s, k)
    ensures |r| <= |s|
    ensures HasColumn(r, k)
  {
    if s == [] then []
    else (if (s[0][k] in keys) == inside then [s[0]] else []) + Select(s[1..], k, keys, inside)
  }

  /** The filter keeps exactly the rows whose key is (or is not) among `keys`. */
  lemma {:induction false} SelectMembers(s: seq<Row>, k: nat, keys: set<Cell>, inside: bool)
    requires HasColumn(s, k)
    ensures forall x :: x in Select(s, k, keys, inside) <==> x in s && (x[k] in keys) == inside
  {
    if s != [] {
      SelectMembers(s[1..], k, keys, inside);
      assert s == [s[0]] + s[1..];
    }
  }

  /** Filtering keeps the order of the rows: the filter of two blocks is the filter of the first followed by that of the second. */
  lemma {:induction false} SelectAppend(a: seq<Row>, b: seq<Row>, k: nat, keys: set<Cell>, inside: bool)
    requires HasColumn(a, k) && HasColumn(b, k) && HasColumn(a + b, k)
    ensures Select(a + b, k, keys, inside) == Select(a, k, keys, inside) + Select(b, k, keys, inside)
  {
    if a != [] {
      assert (a + b)[1..] == a[1..] + b;
      SelectAppend(a[1..], b, k, keys, inside);
    } else {
      assert a + b == b;
    }
  }

  /** A filter never keeps a row more often than the table holds it. */
  lemma {:induction false} SelectCount(s: seq<Row>, k: nat, keys: set<Cell>, inside: bool)
    requires HasColumn(s, k)
    ensures forall x :: multiset(Select(s, k, keys, inside))[x] <= multiset(s)[x]
  {
    if s != [] {
      SelectCount(s[1..], k, keys, inside);
      assert s == [s[0]] + s[1..];
    }
  }

  /** No row occurs twice in either unmatched set. */
  lemma UnmatchedOnce(rows1: seq<Row>, rows2: seq<Row>)
    ensures forall x :: multiset(UnmatchedSource(rows1, rows2))[x] <= 1
    ensures forall y :: multiset(UnmatchedTarget(rows1, rows2))[y] <= 1
  {
    OnceAndAbsentCount(rows1, rows1, rows2);
    OnceAndAbsentCount(rows2, rows2, rows1);
  }

  /** A filter and its negation split the rows between them. */
  lemma {:induction false} SelectPartition(s: seq<Row>, k: nat, keys: set<Cell>)
    requires HasColumn(s, k)
    ensures |Select(s, k, keys, true)| + |Select(s, k, keys, false)| == |s|
    ensures multiset(Select(s, k, keys, true)) + multiset(Select(s, k, keys, false)) == multiset(s)
  {
    if s != [] {
      SelectPartition(s[1..], k, keys);
      assert s == [s[0]] + s[1..];
    }
  }

  /** A non-empty sequence has a member, so one without members is empty. */
  lemma FirstIsMember(s: seq<Row>)
    ensures s == [] || s[0] in s
  {
  }

  // ---------------------------------------------------------------------------
  // The derived relations
  // ---------------------------------------------------------------------------

  /** sample: the merge of the two unmatched sets on the key. */
  function Sample(rows1: seq<Row>, rows2: seq<Row>, k: nat): (j: seq<Pair>)
    requires HasColumn(rows1, k) && HasColumn(rows2, k)
    ensures forall q | q in j :: k < |q.left|
    ensures forall q | q in j ::
      q.left in UnmatchedSource(rows1, rows2) && q.right in UnmatchedTarget(rows1, rows2) && q.left[k] == q.right[k]
    ensures forall x, y | x in UnmatchedSource(rows1, rows2) && y in UnmatchedTarget(rows1, rows2) && x[k] == y[k] ::
      Pair(x, y) in j
    ensures forall q :: multiset(j)[q] <= 1
  {
    UnmatchedOnce(rows1, rows2);
    JoinOfDistinctOnce(UnmatchedSource(rows1, rows2), UnmatchedTarget(rows1, rows2), k);
    KeyJoin(UnmatchedSource(rows1, rows2), UnmatchedTarget(rows1, rows2), k)
  }

  /** sample[primary_key]: the keys the two unmatched sets share. */
  function SampleKeys(rows1: seq<Row>, rows2: seq<Row>, k: nat): (keys: set<Cell>)
    requires HasColumn(rows1, k) && HasColumn(rows2, k)
    ensures keys == KeySet(UnmatchedSource(rows1, rows2), k) * KeySet(UnmatchedTarget(rows1, rows2), k)
  {
    JoinedKeysAreShared(UnmatchedSource(rows1, rows2), UnmatchedTarget(rows1, rows2), k);
    JoinedKeys(Sample(rows1, rows2, k), k)
  }

  /** oracle_only_records: unmatched source rows whose key no unmatched target row has. */
  function SourceOnly(rows1: seq<Row>, rows2: seq<Row>, k: nat): (r: seq<Row>)
    requires HasColumn(rows1, k) && HasColumn(rows2, k)
    ensures HasColumn(r, k)
    ensures forall x :: x in r <==> x in UnmatchedSource(rows1, rows2) && x[k] !in KeySet(UnmatchedTarget(rows1, rows2), k)
  {
    SelectMembers(UnmatchedSource(rows1, rows2), k, SampleKeys(rows1, rows2, k), false);
    Select(UnmatchedSource(rows1, rows2), k, SampleKeys(rows1, rows2, k), false)
  }

  /** datacloud_only_records: unmatched target rows whose key no unmatched source row has. */
  function TargetOnly(rows1: seq<Row>, rows2: seq<Row>, k: nat): (r: seq<Row>)
    requires HasColumn(rows1, k) && HasColumn(rows2, k)
    ensures HasColumn(r, k)
    ensures forall y :: y in r <==> y in UnmatchedTarget(rows1, rows2) && y[k] !in KeySet(UnmatchedSource(rows1, rows2), k)
  {
    SelectMembers(UnmatchedTarget(rows1, rows2), k, SampleKeys(rows1, rows2, k), false);
    Select(UnmatchedTarget(rows1, rows2), k, SampleKeys(rows1, rows2, k), false)
  }

  /** matching_for_safenumber_oracle_source: unmatched source rows whose key an unmatched target row has. */
  function KeyedSource(rows1: seq<Row>, rows2: seq<Row>, k: nat): (r: seq<Row>)
    requires HasColumn(rows1, k) && HasColumn(rows2, k)
    ensures HasColumn(r, k)
    ensures forall x :: x in r <==> x in UnmatchedSource(rows1, rows2) && x[k] in KeySet(UnmatchedTarget(rows1, rows2), k)
  {
    SelectMembers(UnmatchedSource(rows1, rows2), k, SampleKeys(rows1, rows2, k), true);
    Select(UnmatchedSource(rows1, rows2), k, SampleKeys(rows1, rows2, k), true)
  }

  /** matching_for_safenumber_datacloud_target: the same on the target side. */
  function KeyedTarget(rows1: seq<Row>, rows2: seq<Row>, k: nat): (r: seq<Row>)
    requires HasColumn(rows1, k) && HasColumn(rows2, k)
    ensures HasColumn(r, k)
    ensures forall y :: y in r <==> y in UnmatchedTarget(rows1, rows2) && y[k] in KeySet(UnmatchedSource(rows1, rows2), k)
  {
    SelectMembers(UnmatchedTarget(rows1, rows2), k, SampleKeys(rows1, rows2, k), true);
    Select(UnmatchedTarget(rows1, rows2), k, SampleKeys(rows1, rows2, k), true)
  }

  /**
   * data_mismatch_records, before fillna: every pair of an unmatched source
   * row and an unmatched target row with the same key. The two rows of a
   * pair always differ, since a row the target holds is never unmatched in
   * the source.
   */
  function DataMismatch(rows1: seq<Row>, rows2: seq<Row>, k: nat): (j: seq<Pair>)
    requires HasColumn(rows1, k) && HasColumn(rows2, k)
    ensures forall q | q in j ::
      && q.left in UnmatchedSource(rows1, rows2) && q.right in UnmatchedTarget(rows1, rows2)
      && q.left[k] == q.right[k] && q.left != q.right
    ensures forall x, y | x in UnmatchedSource(rows1, rows2) && y in UnmatchedTarget(rows1, rows2) && x[k] == y[k] ::
      Pair(x, y) in j
    ensures forall q :: multiset(j)[q] <= 1
  {
    var ks, kt := KeyedSource(rows1, rows2, k), KeyedTarget(rows1, rows2, k);
    UnmatchedOnce(rows1, rows2);
    SelectCount(UnmatchedSource(rows1, rows2), k, SampleKeys(rows1, rows2, k), true);
    SelectCount(UnmatchedTarget(rows1, rows2), k, SampleKeys(rows1, rows2, k), true);
    assert forall x :: multiset(ks)[x] <= 1;
    assert forall y :: multiset(kt)[y] <= 1;
    JoinOfDistinctOnce(ks, kt, k);
    var j := KeyJoin(ks, kt, k);
    assert forall q | q in j :: q.right in rows2;
    j
  }

  /** present_in_both: the source rows whose key occurs in the target. */
  function PresentInBoth(rows1: seq<Row>, rows2: seq<Row>, k: nat): (r: seq<Row>)
    requires HasColumn(rows1, k) && HasColumn(rows2, k)
    ensures forall x :: x in r <==> x in rows1 && x[k] in KeySet(rows2, k)
  {
    SelectMembers(rows1, k, KeySet(rows2, k), true);
    Select(rows1, k, KeySet(rows2, k), true)
  }

  /** not_present_in_both: the source rows whose key does not occur in the target. */
  function NotPresentInBoth(rows1: seq<Row>, rows2: seq<Row>, k: nat): (r: seq<Row>)
    requires HasColumn(rows1, k) && HasColumn(rows2, k)
    ensures forall x :: x in r <==> x in rows1 && x[k] !in KeySet(rows2, k)
  {
    SelectMembers(rows1, k, KeySet(rows2, k), false);
    Select(rows1, k, KeySet(rows2, k), false)
  }

  /** num_unmatching_records: never more than the two files' rows together. */
  function UnmatchedCount(rows1: seq<Row>, rows2: seq<Row>): (n: nat)
    ensures n <= |rows1| + |rows2|
  {
    |UnmatchedSource(rows1, rows2)| + |UnmatchedTarget(rows1, rows2)|
  }

  /**
   * Source-only rows and key-matched source rows split the unmatched source
   * rows between them, and so do their target counterparts.
   */
  lemma UnmatchedSplit(rows1: seq<Row>, rows2: seq<Row>, k: nat)
    requires HasColumn(rows1, k) && HasColumn(rows2, k)
    ensures |SourceOnly(rows1, rows2, k)| + |KeyedSource(rows1, rows2, k)| == |UnmatchedSource(rows1, rows2)|
    ensures multiset(SourceOnly(rows1, rows2, k)) + multiset(KeyedSource(rows1, rows2, k))
            == multiset(UnmatchedSource(rows1, rows2))
    ensures |TargetOnly(rows1, rows2, k)| + |KeyedTarget(rows1, rows2, k)| == |UnmatchedTarget(rows1, rows2)|
    ensures multiset(TargetOnly(rows1, rows2, k)) + multiset(KeyedTarget(rows1, rows2, k))
            == multiset(UnmatchedTarget(rows1, rows2))
  {
    var keys := SampleKeys(rows1, rows2, k);
    var u1, u2 := UnmatchedSource(rows1, rows2), UnmatchedTarget(rows1, rows2);
    SelectPartition(u1, k, keys);
    SelectPartition(u2, k, keys);
    assert SourceOnly(rows1, rows2, k) == Select(u1, k, keys, false);
    assert KeyedSource(rows1, rows2, k) == Select(u1, k, keys, true);
    assert TargetOnly(rows1, rows2, k) == Select(u2, k, keys, false);
    assert KeyedTarget(rows1, rows2, k) == Select(u2, k, keys, true);
  }

  /** present_in_both and not_present_in_both split the source rows. */
  lemma PresenceSplit(rows1: seq<Row>, rows2: seq<Row>, k: nat)
    requires HasColumn(rows1, k) && HasColumn(rows2, k)
    ensures |PresentInBoth(rows1, rows2, k)| + |NotPresentInBoth(rows1, rows2, k)| == |rows1|
    ensures multiset(PresentInBoth(rows1, rows2, k)) + multiset(NotPresentInBoth(rows1, rows2, k)) == multiset(rows1)
  {
    SelectPartition(rows1, k, KeySet(rows2, k));
  }

  /** A filter every row passes keeps them all. */
  lemma {:induction false} SelectAll(s: seq<Row>, k: nat, keys: set<Cell>)
    requires HasColumn(s, k)
    requires forall x | x in s :: x[k] in keys
    ensures Select(s, k, keys, true) == s
  {
    if s != [] {
      SelectAll(s[1..], k, keys);
      assert s == [s[0]] + s[1..];
    }
  }

  /** Against no keys, the negated filter keeps every row. */
  lemma {:induction false} SelectOutsideNoKeys(s: seq<Row>, k: nat)
    requires HasColumn(s, k)
    ensures Select(s, k, {}, false) == s
  {
    if s != [] {
      SelectOutsideNoKeys(s[1..], k);
      assert s == [s[0]] + s[1..];
    }
  }

  /**
   * Comparing a table with itself leaves nothing unmatched, source-only,
   * target-only or mismatched, and every row present in both; when its rows
   * are distinct, the matches are the table itself.
   */
  lemma IdenticalTables(rows: seq<Row>, k: nat)
    requires HasColumn(rows, k)
    ensures UnmatchedSource(rows, rows) == [] && UnmatchedTarget(rows, rows) == []
    ensures SourceOnly(rows, rows, k) == [] && TargetOnly(rows, rows, k) == []
    ensures DataMismatch(rows, rows, k) == []
    ensures PresentInBoth(rows, rows, k) == rows && NotPresentInBoth(rows, rows, k) == []
    ensures (forall x | x in rows :: multiset(rows)[x] == 1) ==> MatchAll(rows, rows) == rows
  {
    FirstIsMember(UnmatchedSource(rows, rows));
    FirstIsMember(UnmatchedTarget(rows, rows));
    FirstIsMember(SourceOnly(rows, rows, k));
    FirstIsMember(TargetOnly(rows, rows, k));
    FirstIsMember(KeyedSource(rows, rows, k));
    SelectAll(rows, k, KeySet(rows, k));
    FirstIsMember(NotPresentInBoth(rows, rows, k));
    if forall x | x in rows :: multiset(rows)[x] == 1 {
      MatchAllOfDistinct(rows, rows);
    }
  }

  /** Appending a row the source lacks: no source row is unmatched, and the new row is the one unmatched target row. */
  lemma ExtraRowUnmatched(rows1: seq<Row>, extra: Row)
    requires extra !in rows1
    ensures UnmatchedSource(rows1, rows1 + [extra]) == []
    ensures UnmatchedTarget(rows1, rows1 + [extra]) == [extra]
  {
    var rows2 := rows1 + [extra];
    assert forall x | x in rows1 :: x in rows2;
    FirstIsMember(UnmatchedSource(rows1, rows2));
    OnceAndAbsentAppend(rows1, [extra], rows2, rows1);
    OnceAndAbsentMembers(rows1, rows2, rows1);
    FirstIsMember(OnceAndAbsent(rows1, rows2, rows1));
    assert multiset(rows2)[extra] == 1;
    assert OnceAndAbsent([extra], rows2, rows1) == [extra];
  }

  /** With the extra row the only unmatched one, nothing is source-only or key-matched in the source. */
  lemma ExtraRowNothingFromSource(rows1: seq<Row>, extra: Row, k: nat)
    requires HasColumn(rows1, k) && k < |extra|
    requires extra[k] !in KeySet(rows1, k)
    ensures HasColumn(rows1 + [extra], k)
    ensures SourceOnly(rows1, rows1 + [extra], k) == []
    ensures KeyedSource(rows1, rows1 + [extra], k) == []
  {
    var rows2 := rows1 + [extra];
    assert HasColumn(rows2, k);
    ExtraRowUnmatched(rows1, extra);
    var keys := SampleKeys(rows1, rows2, k);
    assert keys == {};
  }

  /** With no key shared by the unmatched sets, the extra row is the one target-only row. */
  lemma ExtraRowTargetOnly(rows1: seq<Row>, extra: Row, k: nat)
    requires HasColumn(rows1, k) && k < |extra|
    requires extra[k] !in KeySet(rows1, k)
    ensures HasColumn(rows1 + [extra], k)
    ensures TargetOnly(rows1, rows1 + [extra], k) == [extra]
  {
    var rows2 := rows1 + [extra];
    assert HasColumn(rows2, k);
    ExtraRowUnmatched(rows1, extra);
    var keys := SampleKeys(rows1, rows2, k);
    assert keys == {};
    SelectOutsideNoKeys(UnmatchedTarget(rows1, rows2), k);
  }

  /**
   * A target that is the source plus one row with a new key: that row is
   * the only unmatched one and it is target-only; nothing is source-only or
   * mismatched.
   */
  lemma ExtraTargetRow(rows1: seq<Row>, extra: Row, k: nat)
    requires HasColumn(rows1, k) && k < |extra|
    requires extra[k] !in KeySet(rows1, k)
    ensures HasColumn(rows1 + [extra], k)
    ensures UnmatchedSource(rows1, rows1 + [extra]) == []
    ensures UnmatchedTarget(rows1, rows1 + [extra]) == [extra]
    ensures SourceOnly(rows1, rows1 + [extra], k) == []
    ensures TargetOnly(rows1, rows1 + [extra], k) == [extra]
    ensures DataMismatch(rows1, rows1 + [extra], k) == []
  {
    ExtraRowUnmatched(rows1, extra);
    ExtraRowNothingFromSource(rows1, extra, k);
    ExtraRowTargetOnly(rows1, extra, k);
  }

  // ---------------------------------------------------------------------------
  // Accounting with a unique primary key
  // ---------------------------------------------------------------------------

  /** Keys are unique in a non-empty table exactly when they are in its tail and the head's key is not among the tail's. */
  lemma UniqueKeysCons(s: seq<Row>, k: nat)
    requires HasColumn(s, k) && s != []
    ensures HasColumn(s[1..], k)
    ensures UniqueKeys(s, k) <==> UniqueKeys(s[1..], k) && s[0][k] !in KeySet(s[1..], k)
  {
    var t := s[1..];
    assert forall j | 0 <= j < |t| :: t[j] == s[j + 1];
  }

  /** A filter on the key keeps keys unique. */
  lemma {:induction false} SelectUniqueKeys(s: seq<Row>, k: nat, keys: set<Cell>, inside: bool)
    requires HasColumn(s, k) && UniqueKeys(s, k)
    ensures UniqueKeys(Select(s, k, keys, inside), k)
  {
    if s != [] {
      var r := Select(s, k, keys, inside);
      UniqueKeysCons(s, k);
      SelectUniqueKeys(s[1..], k, keys, inside);
      if (s[0][k] in keys) == inside {
        assert r == [s[0]] + Select(s[1..], k, keys, inside);
        SelectMembers(s[1..], k, keys, inside);
        UniqueKeysCons(r, k);
        assert r[1..] == Select(s[1..], k, keys, inside);
      }
    }
  }

  /** Dropping the duplicated and matched rows keeps keys unique. */
  lemma {:induction false} OnceAndAbsentUniqueKeys(s: seq<Row>, side: seq<Row>, other: seq<Row>, k: nat)
    requires HasColumn(s, k) && UniqueKeys(s, k)
    ensures HasColumn(OnceAndAbsent(s, side, other), k)
    ensures UniqueKeys(OnceAndAbsent(s, side, other), k)
  {
    OnceAndAbsentMembers(s, side, other);
    if s != [] {
      var r := OnceAndAbsent(s, side, other);
      UniqueKeysCons(s, k);
      OnceAndAbsentUniqueKeys(s[1..], side, other, k);
      if multiset(side)[s[0]] == 1 && s[0] !in other {
        assert r == [s[0]] + OnceAndAbsent(s[1..], side, other);
        OnceAndAbsentMembers(s[1..], side, other);
        UniqueKeysCons(r, k);
        assert r[1..] == OnceAndAbsent(s[1..], side, other);
      }
    }
  }

  /** A row whose key the target lacks pairs with no target row. */
  lemma {:induction false} PairsWithNone(r1: Row, rows2: seq<Row>, k: nat)
    requires k < |r1| && HasColumn(rows2, k)
    requires r1[k] !in KeySet(rows2, k)
    ensures PairsWith(r1, rows2, k) == []
  {
    if rows2 != [] {
      assert rows2[0] in rows2;
      assert forall x | x in rows2[1..] :: x in rows2;
      PairsWithNone(r1, rows2[1..], k);
    }
  }

  /** A row whose key the target holds once pairs with exactly one target row. */
  lemma {:induction false} PairsWithOne(r1: Row, rows2: seq<Row>, k: nat)
    requires k < |r1| && HasColumn(rows2, k) && UniqueKeys(rows2, k)
    requires r1[k] in KeySet(rows2, k)
    ensures |PairsWith(r1, rows2, k)| == 1
  {
    UniqueKeysCons(rows2, k);
    var t := rows2[1..];
    if rows2[0][k] == r1[k] {
      PairsWithNone(r1, t, k);
    } else {
      assert r1[k] in KeySet(t, k);
      PairsWithOne(r1, t, k);
    }
  }

  /** When every source key occurs once in the target, the merge on the key has one pair per source row. */
  lemma {:induction false} KeyJoinCount(rows1: seq<Row>, rows2: seq<Row>, k: nat)
    requires HasColumn(rows1, k) && HasColumn(rows2, k) && UniqueKeys(rows2, k)
    requires forall x | x in rows1 :: x[k] in KeySet(rows2, k)
    ensures |KeyJoin(rows1, rows2, k)| == |rows1|
  {
    if rows1 != [] {
      PairsWithOne(rows1[0], rows2, k);
      KeyJoinCount(rows1[1..], rows2, k);
    }
  }

  /** The key-matched rows keep the unique keys of their files. */
  lemma KeyedUniqueKeys(rows1: seq<Row>, rows2: seq<Row>, k: nat)
    requires HasColumn(rows1, k) && HasColumn(rows2, k)
    requires UniqueKeys(rows1, k) && UniqueKeys(rows2, k)
    ensures UniqueKeys(KeyedSource(rows1, rows2, k), k) && UniqueKeys(KeyedTarget(rows1, rows2, k), k)
  {
    var u1, u2 := UnmatchedSource(rows1, rows2), UnmatchedTarget(rows1, rows2);
    OnceAndAbsentUniqueKeys(rows1, rows1, rows2, k);
    OnceAndAbsentUniqueKeys(rows2, rows2, rows1, k);
    var keys := SampleKeys(rows1, rows2, k);
    SelectUniqueKeys(u1, k, keys, true);
    SelectUniqueKeys(u2, k, keys, true);
  }

  /** The key-matched source rows and the key-matched target rows carry the same keys. */
  lemma KeyedSameKeys(rows1: seq<Row>, rows2: seq<Row>, k: nat)
    requires HasColumn(rows1, k) && HasColumn(rows2, k)
    ensures KeySet(KeyedSource(rows1, rows2, k), k) == KeySet(KeyedTarget(rows1, rows2, k), k)
  {
    var u1, u2 := UnmatchedSource(rows1, rows2), UnmatchedTarget(rows1, rows2);
    var ks, kt := KeyedSource(rows1, rows2, k), KeyedTarget(rows1, rows2, k);
    forall c | c in KeySet(kt, k)
      ensures c in KeySet(ks, k)
    {
      var x :| x in u1 && x[k] == c;
      assert x in ks;
    }
    forall c | c in KeySet(ks, k)
      ensures c in KeySet(kt, k)
    {
      var y :| y in u2 && y[k] == c;
      assert y in kt;
    }
  }

  /**
   * With the primary key unique in each file, every unmatched row is either
   * source-only, target-only, or one side of exactly one mismatch pair: the
   * report accounts for every unmatched record.
   */
  lemma MismatchAccounting(rows1: seq<Row>, rows2: seq<Row>, k: nat)
    requires HasColumn(rows1, k) && HasColumn(rows2, k)
    requires UniqueKeys(rows1, k) && UniqueKeys(rows2, k)
    ensures |SourceOnly(rows1, rows2, k)| + |TargetOnly(rows1, rows2, k)| + 2 * |DataMismatch(rows1, rows2, k)|
            == UnmatchedCount(rows1, rows2)
  {
    var ks, kt := KeyedSource(rows1, rows2, k), KeyedTarget(rows1, rows2, k);
    KeyedUniqueKeys(rows1, rows2, k);
    KeyedSameKeys(rows1, rows2, k);
    KeyJoinCount(ks, kt, k);
    KeySetSize(ks, k);
    KeySetSize(kt, k);
    UnmatchedSplit(rows1, rows2, k);
  }

  /** Rows that all occur in `other` are all dropped. */
  lemma OnceAndAbsentNone(s: seq<Row>, side: seq<Row>, other: seq<Row>)
    requires forall y | y in s :: y in other
    ensures OnceAndAbsent(s, side, other) == []
  {
    OnceAndAbsentMembers(s, side, other);
    FirstIsMember(OnceAndAbsent(s, side, other));
  }

  /**
   * Two tables that differ only in the row at `i`, each holding its row at
   * `i` nowhere else: that row is the one unmatched row of the first.
   */
  lemma SingleDifference(s1: seq<Row>, s2: seq<Row>, i: nat)
    requires |s1| == |s2| && i < |s1| && s1[i] != s2[i]
    requires forall j | 0 <= j < |s1| && j != i :: s1[j] == s2[j] && s1[j] != s1[i] && s2[j] != s2[i]
    ensures OnceAndAbsent(s1, s1, s2) == [s1[i]]
  {
    var x := s1[i];
    var p, q := s1[..i], s1[i + 1..];
    assert s1 == p + ([x] + q);
    OnceAndAbsentAppend(p, [x] + q, s1, s2);
    OnceAndAbsentAppend([x], q, s1, s2);
    forall j | 0 <= j < |p|
      ensures p[j] in s2 && p[j] != x
    {
      assert s2[j] == p[j];
    }
    forall j | 0 <= j < |q|
      ensures q[j] in s2 && q[j] != x
    {
      assert s2[i + 1 + j] == q[j];
    }
    OnceAndAbsentNone(p, s1, s2);
    OnceAndAbsentNone(q, s1, s2);
    assert multiset(s1)[x] == multiset(p)[x] + 1 + multiset(q)[x];
    assert x !in s2 by {
      forall j | 0 <= j < |s2|
        ensures s2[j] != x
      {
        if j != i {
          assert s2[j] == s1[j];
        }
      }
    }
    assert OnceAndAbsent([x], s1, s2) == [x];
  }

  /** The filters and the merge on the key over two one-row tables whose rows share their key. */
  lemma SingletonFilters(x: Row, y: Row, k: nat)
    requires k < |x| && k < |y| && x[k] == y[k]
    ensures KeySet([x], k) == {x[k]} && KeySet([y], k) == {x[k]}
    ensures Select([x], k, {x[k]}, false) == [] && Select([y], k, {x[k]}, false) == []
    ensures Select([x], k, {x[k]}, true) == [x] && Select([y], k, {x[k]}, true) == [y]
    ensures KeyJoin([x], [y], k) == [Pair(x, y)]
  {
    assert [x][1..] == [] && [y][1..] == [];
    assert PairsWith(x, [y], k) == [Pair(x, y)] + PairsWith(x, [], k);
    assert KeyJoin([x], [y], k) == PairsWith(x, [y], k) + KeyJoin([], [y], k);
  }

  /**
   * When the one unmatched source row and the one unmatched target row share
   * their key, nothing is source-only or target-only and the two rows form
   * the one mismatch pair.
   */
  lemma SingleUnmatchedPair(rows1: seq<Row>, rows2: seq<Row>, x: Row, y: Row, k: nat)
    requires HasColumn(rows1, k) && HasColumn(rows2, k) && k < |x| && k < |y| && x[k] == y[k]
    requires UnmatchedSource(rows1, rows2) == [x] && UnmatchedTarget(rows1, rows2) == [y]
    ensures SourceOnly(rows1, rows2, k) == [] && TargetOnly(rows1, rows2, k) == []
    ensures DataMismatch(rows1, rows2, k) == [Pair(x, y)]
  {
    SingletonFilters(x, y, k);
    var keys := SampleKeys(rows1, rows2, k);
    assert keys == {x[k]};
    assert SourceOnly(rows1, rows2, k) == Select([x], k, keys, false);
    assert TargetOnly(rows1, rows2, k) == Select([y], k, keys, false);
    assert KeyedSource(rows1, rows2, k) == Select([x], k, keys, true);
    assert KeyedTarget(rows1, rows2, k) == Select([y], k, keys, true);
  }

  /** Changing one non-key cell of a row with a unique key leaves that row, old and new, the one unmatched row on each side. */
  lemma OneCellUnmatched(rows1: seq<Row>, rows2: seq<Row>, i: nat, c: nat, v: Cell, k: nat)
    requires HasColumn(rows1, k) && UniqueKeys(rows1, k)
    requires i < |rows1| && c < |rows1[i]| && c != k && rows1[i][c] != v
    requires rows2 == rows1[i := rows1[i][c := v]]
    ensures HasColumn(rows2, k) && rows2[i][k] == rows1[i][k]
    ensures UnmatchedSource(rows1, rows2) == [rows1[i]]
    ensures UnmatchedTarget(rows1, rows2) == [rows2[i]]
  {
    var x, y := rows1[i], rows2[i];
    assert y[k] == x[k] && y[c] != x[c];
    assert forall j | 0 <= j < |rows2| && j != i :: rows2[j] == rows1[j];
    assert HasColumn(rows2, k);
    forall j | 0 <= j < |rows1| && j != i
      ensures rows1[j] != x && rows2[j] != y
    {
      if j < i {
        assert rows1[j][k] != rows1[i][k];
      } else {
        assert rows1[i][k] != rows1[j][k];
      }
    }
    SingleDifference(rows1, rows2, i);
    SingleDifference(rows2, rows1, i);
  }

  /**
   * A target that is the source with one non-key cell changed, the key being
   * unique: the changed record is the one unmatched row on each side, nothing
   * is source-only or target-only, and the one mismatch pair is the old row
   * against the new.
   */
  lemma OneCellChange(rows1: seq<Row>, rows2: seq<Row>, i: nat, c: nat, v: Cell, k: nat)
    requires HasColumn(rows1, k) && UniqueKeys(rows1, k)
    requires i < |rows1| && c < |rows1[i]| && c != k && rows1[i][c] != v
    requires rows2 == rows1[i := rows1[i][c := v]]
    ensures HasColumn(rows2, k)
    ensures UnmatchedSource(rows1, rows2) == [rows1[i]]
    ensures UnmatchedTarget(rows1, rows2) == [rows2[i]]
    ensures SourceOnly(rows1, rows2, k) == [] && TargetOnly(rows1, rows2, k) == []
    ensures DataMismatch(rows1, rows2, k) == [Pair(rows1[i], rows2[i])]
  {
    OneCellUnmatched(rows1, rows2, i, c, v, k);
    SingleUnmatchedPair(rows1, rows2, rows1[i], rows2[i], k);
  }
}
