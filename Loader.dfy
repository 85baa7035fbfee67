/**
 * The post-processing of read_and_merge_csv: the parsed chunks are
 * concatenated in order and the result is sorted in place by the primary
 * key. Parsing itself is not part of this model; the chunks are its output.
 * sort_values defaults to quicksort, which is not stable, so nothing here
 * promises anything about the order of rows with equal keys.
 */
module Loader {
  import opened Tables

  /** Adjacent rows are in key order. */
  predicate AdjacentSorted(s: seq<Row>, k: nat)
    requires HasColumn(s, k)
  {
    forall i | 0 < i < |s| :: KeyLe(s[i - 1][k], s[i][k])
  }

  /** Any two rows are in key order. */
  predicate SortedByKey(s: seq<Row>, k: nat)
    requires HasColumn(s, k)
  {
    forall i, j | 0 <= i < j < |s| :: KeyLe(s[i][k], s[j][k])
  }

  /** Key order is transitive, so adjacent order is order throughout. */
  lemma {:induction false} AdjacentSortedIsSorted(s: seq<Row>, k: nat)
    requires HasColumn(s, k) && AdjacentSorted(s, k)
    ensures SortedByKey(s, k)
    decreases |s|
  {
    if |s| > 1 {
      var init := s[..|s| - 1];
      AdjacentSortedIsSorted(init, k);
      forall i, j | 0 <= i < j < |s|
        ensures KeyLe(s[i][k], s[j][k])
      {
        if j < |s| - 1 {
          assert s[i] == init[i] && s[j] == init[j];
        } else if i < j - 1 {
          assert s[i] == init[i] && s[j - 1] == init[j - 1];
          KeyLeTransitive(s[i][k], s[j - 1][k], s[j][k]);
        }
      }
    }
  }

  /** pd.concat(chunks, ignore_index=True): the rows of every chunk, chunk after chunk. */
  function Concat(chunks: seq<seq<Row>>): seq<Row>
  {
    if chunks == [] then [] else Concat(chunks[..|chunks| - 1]) + chunks[|chunks| - 1]
  }

  /** Concatenation keeps every row of every chunk. */
  lemma {:induction false} ConcatHasColumn(chunks: seq<seq<Row>>, k: nat)
    requires forall c | c in chunks :: HasColumn(c, k)
    ensures HasColumn(Concat(chunks), k)
    decreases |chunks|
  {
    if chunks != [] {
      var init := chunks[..|chunks| - 1];
      assert forall c | c in init :: c in chunks;
      ConcatHasColumn(init, k);
      assert HasColumn(chunks[|chunks| - 1], k);
    }
  }

  /** Exchanges the rows at `j - 1` and `j`. */
  method Swap(a: array<Row>, j: nat, k: nat)
    requires 0 < j < a.Length && HasColumn(a[..], k)
    modifies a
    ensures a[..] == old(a[..])[j - 1 := old(a[j])][j := old(a[j - 1])]
    ensures multiset(a[..]) == multiset(old(a[..]))
    ensures HasColumn(a[..], k)
  {
    assert a[j - 1] in a[..] && a[j] in a[..];
    a[j - 1], a[j] := a[j], a[j - 1];
  }

  /**
   * The state of one insertion pass over the first `i + 1` rows, with the
   * moving row now at `j`: every adjacent pair among them is in key order
   * except the two around `j`, and the moving row's neighbours are in order.
   */
  predicate Sifting(s: seq<Row>, i: nat, j: nat, k: nat)
    requires HasColumn(s, k) && j <= i < |s|
  {
    && (forall m | 0 < m <= i && m != j && m != j + 1 :: KeyLe(s[m - 1][k], s[m][k]))
    && (j < i ==> KeyLe(s[j][k], s[j + 1][k]))
    && (0 < j < i ==> KeyLe(s[j - 1][k], s[j + 1][k]))
  }

  /** Swapping the moving row with an earlier row whose key follows its own keeps the pass in order. */
  lemma SiftStep(s: seq<Row>, t: seq<Row>, i: nat, j: nat, k: nat)
    requires HasColumn(s, k) && HasColumn(t, k) && 0 < j <= i < |s|
    requires t == s[j - 1 := s[j]][j := s[j - 1]]
    requires Sifting(s, i, j, k) && !KeyLe(s[j - 1][k], s[j][k])
    ensures Sifting(t, i, j - 1, k)
  {
    KeyLeTotal(s[j - 1][k], s[j][k]);
  }

  /** A pass stops at the front or under a row that does not follow it: the first `i + 1` rows are then sorted. */
  lemma SiftDone(s: seq<Row>, i: nat, j: nat, k: nat)
    requires HasColumn(s, k) && j <= i < |s|
    requires Sifting(s, i, j, k) && (j == 0 || KeyLe(s[j - 1][k], s[j][k]))
    ensures AdjacentSorted(s[..i + 1], k)
  {
  }

  /**
   * One pass of the insertion sort: the row at `i` moves down past the rows
   * whose key follows its own, so the first `i + 1` rows become sorted.
   */
  method InsertAt(a: array<Row>, i: nat, k: nat)
    requires i < a.Length && HasColumn(a[..], k) && AdjacentSorted(a[..i], k)
    modifies a
    ensures multiset(a[..]) == multiset(old(a[..]))
    ensures HasColumn(a[..], k) && AdjacentSorted(a[..i + 1], k)
    ensures a[i + 1..] == old(a[i + 1..])
  {
    var j := i;
    while j > 0 && !KeyLe(a[j - 1][k], a[j][k])
      invariant 0 <= j <= i
      invariant multiset(a[..]) == multiset(old(a[..]))
      invariant HasColumn(a[..], k)
      invariant Sifting(a[..], i, j, k)
      invariant a[i + 1..] == old(a[i + 1..])
    {
      ghost var before := a[..];
      Swap(a, j, k);
      SiftStep(before, a[..], i, j, k);
      j := j - 1;
    }
    SiftDone(a[..], i, j, k);
  }

  /**
   * sort_values(by=key, inplace=True): afterwards the rows are in key order
   * (missing keys last) and are the same rows as before.
   */
  method SortByKey(a: array<Row>, k: nat)
    requires HasColumn(a[..], k)
    modifies a
    ensures multiset(a[..]) == multiset(old(a[..]))
    ensures HasColumn(a[..], k) && SortedByKey(a[..], k)
  {
    var i := 0;
    while i < a.Length
      invariant 0 <= i <= a.Length
      invariant multiset(a[..]) == multiset(old(a[..]))
      invariant HasColumn(a[..], k)
      invariant AdjacentSorted(a[..i], k)
    {
      InsertAt(a, i, k);
      i := i + 1;
    }
    assert a[..] == a[..a.Length];
    AdjacentSortedIsSorted(a[..], k);
  }

  /**
   * read_and_merge_csv after parsing: the same rows as the chunks hold
   * together, ordered by key, with the rows whose key is missing at the end.
   */
  method ReadAndMerge(chunks: seq<seq<Row>>, k: nat) returns (rows: seq<Row>)
    requires forall c | c in chunks :: HasColumn(c, k)
    ensures multiset(rows) == multiset(Concat(chunks))
    ensures |rows| == |Concat(chunks)|
    ensures HasColumn(rows, k) && SortedByKey(rows, k)
    ensures forall i, j | 0 <= i < j < |rows| :: rows[i][k] == Null ==> rows[j][k] == Null
  {
    var all := Concat(chunks);
    ConcatHasColumn(chunks, k);
    var a := new Row[|all|](i requires 0 <= i < |all| => all[i]);
    assert a[..] == all;
    SortByKey(a, k);
    rows := a[..];
    assert |rows| == |multiset(rows)| == |multiset(all)| == |all|;
  }
}
