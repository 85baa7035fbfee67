/**
 * The annotated difference report: after the mismatching pairs have had
 * their missing values replaced by the empty string, every pair becomes one
 * row with the source's columns. The key cell is copied, a column whose two
 * values differ holds "<source> -> <target>", and a column where they agree
 * holds the source value. How a cell is rendered as text (str()) is the
 * parameter `show`.
 */
module Diff {
  import opened Tables
  import opened Reconcile

  /** fillna('') on one cell. */
  function Fill(c: Cell): (f: Cell)
    ensures f != Null
    ensures c != Null ==> f == c
    ensures c == Null ==> f == Text("")
  {
    if c == Null then Text("") else c
  }

  /** fillna('') on one row: the same width, no missing value left. */
  function FillNa(r: Row): (f: Row)
    ensures |f| == |r|
    ensures forall i | 0 <= i < |r| :: f[i] == Fill(r[i])
    ensures Null !in f
  {
    seq(|r|, i requires 0 <= i < |r| => Fill(r[i]))
  }

  /** The text written into a column whose two values differ. */
  function Change(x: Cell, y: Cell, show: Cell -> string): Cell
  {
    Text(show(x) + " -> " + show(y))
  }

  /** Both rows of every pair have `width` cells. */
  predicate Aligned(records: seq<Pair>, width: nat)
  {
    forall p | p in records :: |p.left| == width && |p.right| == width
  }

  /** The cell of the report row for column `c` of the pair `p`, keyed at `k`. */
  function DiffCell(p: Pair, c: nat, k: nat, show: Cell -> string): Cell
    requires c < |p.left| && c < |p.right|
  {
    var x := Fill(p.left[c]);
    var y := Fill(p.right[c]);
    if c == k then x
    else if x != y then Change(x, y, show)
    else x
  }

  /** The report row of one pair. */
  function DiffRow(p: Pair, k: nat, width: nat, show: Cell -> string): (r: Row)
    requires |p.left| == width && |p.right| == width
    ensures |r| == width
    ensures forall c | 0 <= c < width :: r[c] == DiffCell(p, c, k, show)
  {
    seq(width, c requires 0 <= c < width => DiffCell(p, c, k, show))
  }

  /** The non-key columns on which the pair still differs once missing values are filled. */
  function Changed(p: Pair, k: nat, width: nat): set<nat>
    requires |p.left| == width && |p.right| == width
  {
    set c: nat | c < width && c != k && Fill(p.left[c]) != Fill(p.right[c])
  }

  /**
   * The loop of the diff builder: for every record, for every column of the
   * source, write the key, the change or the agreeing value. One report row
   * per record, in record order, each the report row of its pair.
   */
  method BuildUnmatchedData(records: seq<Pair>, k: nat, width: nat, show: Cell -> string)
    returns (out: seq<Row>)
    requires k < width && Aligned(records, width)
    ensures |out| == |records|
    ensures forall i | 0 <= i < |records| :: out[i] == DiffRow(records[i], k, width, show)
  {
    out := [];
    var i := 0;
    while i < |records|
      invariant 0 <= i <= |records| && |out| == i
      invariant forall j | 0 <= j < i :: out[j] == DiffRow(records[j], k, width, show)
    {
      var data := records[i];
      assert data in records;
      var x := FillNa(data.left);
      var y := FillNa(data.right);
      var row: Row := [];
      var c := 0;
      while c < width
        invariant 0 <= c <= width && |row| == c
        invariant forall m | 0 <= m < c :: row[m] == DiffCell(data, m, k, show)
      {
        if c == k {
          row := row + [x[c]];
        } else if x[c] != y[c] {
          row := row + [Change(x[c], y[c], show)];
        } else {
          row := row + [x[c]];
        }
        c := c + 1;
      }
      assert row == DiffRow(data, k, width, show);
      out := out + [row];
      i := i + 1;
    }
  }

  /**
   * When str() of a string is the string itself, the report row departs from
   * the filled source row exactly on the changed columns, and everywhere else
   * it equals the filled target row as well. The key cell is the source key.
   */
  lemma {:induction false} DiffRowMarksChanges(p: Pair, k: nat, width: nat, show: Cell -> string)
    requires |p.left| == width && |p.right| == width && k < width
    requires forall s :: show(Text(s)) == s
    ensures DiffRow(p, k, width, show)[k] == Fill(p.left[k])
    ensures forall c | 0 <= c < width ::
      DiffRow(p, k, width, show)[c] != FillNa(p.left)[c] <==> c in Changed(p, k, width)
    ensures forall c | 0 <= c < width && c != k && c !in Changed(p, k, width) ::
      DiffRow(p, k, width, show)[c] == FillNa(p.right)[c]
  {
    var r := DiffRow(p, k, width, show);
    forall c | 0 <= c < width
      ensures r[c] != FillNa(p.left)[c] <==> c in Changed(p, k, width)
    {
      var x := Fill(p.left[c]);
      var y := Fill(p.right[c]);
      if c != k && x != y {
        ChangeDiffers(x, y, show);
      }
    }
  }

  /** An annotation never equals the value it annotates. */
  lemma ChangeDiffers(x: Cell, y: Cell, show: Cell -> string)
    requires x != Null
    requires forall s :: show(Text(s)) == s
    ensures Change(x, y, show) != x
  {
    if x.Text? {
      assert |Change(x, y, show).s| > |show(x)| == |x.s|;
    }
  }

  /** A pair that agrees everywhere once filled gives the filled source row, with no annotation. */
  lemma {:induction false} AgreeingPairUnannotated(p: Pair, k: nat, width: nat, show: Cell -> string)
    requires |p.left| == width && |p.right| == width
    requires FillNa(p.left) == FillNa(p.right)
    ensures Changed(p, k, width) == {}
    ensures DiffRow(p, k, width, show) == FillNa(p.left)
  {
    forall c | 0 <= c < width
      ensures Fill(p.left[c]) == Fill(p.right[c])
    {
      assert FillNa(p.left)[c] == FillNa(p.right)[c];
    }
  }

  /**
   * A mismatching pair can still produce a row with no annotation: a
   * missing source value and an empty target string differ before fillna
   * and agree after it.
   */
  lemma MissingAgainstEmptyUnannotated(show: Cell -> string)
    ensures var p := Pair([Number(7), Null], [Number(7), Text("")]);
      && p.left != p.right
      && DiffRow(p, 0, 2, show) == [Number(7), Text("")]
  {
    var p := Pair([Number(7), Null], [Number(7), Text("")]);
    assert p.left[1] != p.right[1];
    AgreeingPairUnannotated(p, 0, 2, show);
  }

  /** A pair whose rows differ in one non-key cell, and differ there after filling too, is annotated at that cell only. */
  lemma OneCellPair(p: Pair, c: nat, k: nat, width: nat, show: Cell -> string)
    requires |p.left| == width && |p.right| == width && k < width && c < width && c != k
    requires p.right == p.left[c := p.right[c]] && Fill(p.left[c]) != Fill(p.right[c])
    requires forall s :: show(Text(s)) == s
    ensures Changed(p, k, width) == {c}
    ensures DiffRow(p, k, width, show)[c] == Change(Fill(p.left[c]), Fill(p.right[c]), show)
    ensures forall m | 0 <= m < width && m != c :: DiffRow(p, k, width, show)[m] == FillNa(p.left)[m]
  {
    assert forall m | 0 <= m < width && m != c :: p.right[m] == p.left[m];
    assert Changed(p, k, width) == {c};
    DiffRowMarksChanges(p, k, width, show);
  }

  /**
   * A target that is the source with one non-key cell changed, the key being
   * unique and the change not one between a missing value and the empty
   * string: the report has the one row of the changed record, annotated at
   * that column and nowhere else.
   */
  lemma OneCellChangeReport(rows1: seq<Row>, rows2: seq<Row>, i: nat, c: nat, v: Cell, k: nat,
                            show: Cell -> string)
    requires HasColumn(rows1, k) && UniqueKeys(rows1, k)
    requires i < |rows1| && c < |rows1[i]| && c != k && Fill(rows1[i][c]) != Fill(v)
    requires rows2 == rows1[i := rows1[i][c := v]]
    requires forall s :: show(Text(s)) == s
    ensures HasColumn(rows2, k)
    ensures DataMismatch(rows1, rows2, k) == [Pair(rows1[i], rows2[i])]
    ensures Changed(Pair(rows1[i], rows2[i]), k, |rows1[i]|) == {c}
    ensures DiffRow(Pair(rows1[i], rows2[i]), k, |rows1[i]|, show)[c] == Change(Fill(rows1[i][c]), Fill(v), show)
    ensures forall m | 0 <= m < |rows1[i]| && m != c ::
      DiffRow(Pair(rows1[i], rows2[i]), k, |rows1[i]|, show)[m] == FillNa(rows1[i])[m]
  {
    OneCellChange(rows1, rows2, i, c, v, k);
    assert rows1[i] in rows1 && rows2[i] == rows1[i][c := v];
    OneCellPair(Pair(rows1[i], rows2[i]), c, k, |rows1[i]|, show);
  }
}
