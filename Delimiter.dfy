/**
 * Delimiter sniffing: read at most `checkLines` lines of the decoded file,
 * add up how often a candidate occurs in them, and pick the first candidate
 * with the largest total.
 *
 * As written, the update inside the readline comprehension names
 * `delimiter`, which there is not the dictionary comprehension's variable
 * (a comprehension has its own scope) but the module-level `delimiter`, "|".
 * Only the entry of "|" ever grows, so the result is "|" when a "|" occurs in
 * the lines read and "," otherwise (`GetFileDelimiter`). The evidently
 * intended sniffer, which totals every candidate, is `GetFileDelimiterCorrected`.
 */
module Delimiter {

  /** The candidates, in the order the dictionary of totals holds them. */
  const Candidates: seq<string> :=
    [",", "\t", ";", "|*|", "|", ":", " ", "~", "`", "!", "@", "#", "$", "%", "^", "&", "*", "(", ")", "-",
     "_", "=", "+", "[", "]", "{", "}", "\\", "/", "<", ">", "?"]

  /** The first eight candidates differ from every later one. */
  lemma CandidatesDistinctFirst()
    ensures |Candidates| == 32
    ensures forall i, j | 0 <= i < 8 && i < j < 32 :: Candidates[i] != Candidates[j]
  {
    forall i, j | 0 <= i < 8 && i < j < 32
      ensures Candidates[i] != Candidates[j]
    {
      assert |Candidates[i]| != |Candidates[j]| || Candidates[i][0] != Candidates[j][0];
    }
  }

  /** The remaining candidates differ from every later one. */
  lemma CandidatesDistinctRest()
    ensures |Candidates| == 32
    ensures forall i, j | 8 <= i < j < 32 :: Candidates[i] != Candidates[j]
  {
  }

  /** No candidate occurs twice and none is empty. */
  lemma CandidatesDistinct()
    ensures |Candidates| == 32
    ensures ValidCandidates(Candidates)
  {
    CandidatesDistinctFirst();
    CandidatesDistinctRest();
  }

  /**
   * str.count: the number of non-overlapping occurrences of `d` in `s`,
   * found scanning from the left; the empty string occurs at every position
   * and at the end.
   */
  function CountIn(s: string, d: string): (n: nat)
    ensures d != [] ==> n <= |s|
    ensures d == [] ==> n == |s| + 1
    decreases |s|
  {
    if d == [] then |s| + 1
    else if |s| < |d| then 0
    else if s[..|d|] == d then 1 + CountIn(s[|d|..], d)
    else CountIn(s[1..], d)
  }

  /** The occurrences str.count finds do not overlap, so together they are no longer than `s`. */
  lemma {:induction false} CountInBound(s: string, d: string)
    ensures CountIn(s, d) * |d| <= |s|
    decreases |s|
  {
    if d != [] && |s| >= |d| {
      if s[..|d|] == d {
        CountInBound(s[|d|..], d);
        var r := CountIn(s[|d|..], d);
        assert (1 + r) * |d| == |d| + r * |d|;
      } else {
        CountInBound(s[1..], d);
      }
    }
  }

  /**
   * How much of the remaining text one readline call consumes: up to and
   * including the first newline, or all of it.
   */
  function LineLength(s: string): (n: nat)
    ensures n <= |s|
    ensures s != [] ==> n > 0
    ensures forall i | 0 <= i < n - 1 :: s[i] != '\n'
    ensures 0 < n < |s| ==> s[n - 1] == '\n'
    ensures n == |s| || s[n - 1] == '\n'
  {
    if s == [] then 0
    else if s[0] == '\n' then 1
    else 1 + LineLength(s[1..])
  }

  /**
   * The lines `n` readline calls return, leaving out the empty string a call
   * returns at end of file.
   */
  function Lines(text: string, n: nat): (ls: seq<string>)
    ensures |ls| <= n
    ensures forall l | l in ls :: l != []
    decreases n
  {
    if n == 0 || text == [] then []
    else [text[..LineLength(text)]] + Lines(text[LineLength(text)..], n - 1)
  }

  /** One readline call: the line it returns, unless it is the empty string at end of file, is the next line read. */
  lemma ReadOneLine(read: seq<string>, rest: string, k: nat)
    requires k > 0
    ensures var line := rest[..LineLength(rest)];
      read + Lines(rest, k) == (if line != [] then read + [line] else read) + Lines(rest[LineLength(rest)..], k - 1)
  {
  }

  /** The total the dictionary holds for `d` after adding up its counts over `lines`. */
  function Score(lines: seq<string>, d: string): nat
  {
    if lines == [] then 0
    else Score(lines[..|lines| - 1], d) + CountIn(lines[|lines| - 1], d)
  }

  /** No candidate occurs twice and none is empty. */
  predicate ValidCandidates(cands: seq<string>)
  {
    && (forall m | 0 <= m < |cands| :: cands[m] != [])
    && (forall m, n | 0 <= m < n < |cands| :: cands[m] != cands[n])
  }

  /**
   * `i` is where max(results, key=results.get) stops: no candidate has a
   * larger total, and every candidate before it a smaller one.
   */
  predicate FirstMaximal(cands: seq<string>, lines: seq<string>, i: nat)
  {
    && i < |cands|
    && (forall j | 0 <= j < |cands| :: Score(lines, cands[j]) <= Score(lines, cands[i]))
    && (forall j | 0 <= j < i :: Score(lines, cands[j]) < Score(lines, cands[i]))
  }

  /** Every complete `|*|` holds two `|`, and the two never overlap another `|*|`. */
  lemma {:induction false} PipeCountsTwicePipeStar(s: string)
    ensures CountIn(s, "|") >= 2 * CountIn(s, "|*|")
    decreases |s|
  {
    if |s| >= 3 && s[..3] == "|*|" {
      PipeCountsTwicePipeStar(s[3..]);
      assert CountIn(s, "|*|") == 1 + CountIn(s[3..], "|*|");
      assert s[2..][..1] == "|" && s[2..][1..] == s[3..];
      assert CountIn(s[2..], "|") == 1 + CountIn(s[3..], "|");
      assert s[1..][..1] == "*" != "|" && s[1..][1..] == s[2..];
      assert CountIn(s[1..], "|") == CountIn(s[2..], "|");
      assert s[..1] == "|";
      assert CountIn(s, "|") == 1 + CountIn(s[1..], "|");
    } else if |s| >= 1 {
      PipeCountsTwicePipeStar(s[1..]);
      if |s| >= 3 {
        assert CountIn(s, "|*|") == CountIn(s[1..], "|*|");
      }
    }
  }

  lemma {:induction false} PipeScoresTwicePipeStar(lines: seq<string>)
    ensures Score(lines, "|") >= 2 * Score(lines, "|*|")
    decreases |lines|
  {
    if lines != [] {
      PipeScoresTwicePipeStar(lines[..|lines| - 1]);
      PipeCountsTwicePipeStar(lines[|lines| - 1]);
    }
  }

  /**
   * `|*|` is never the first maximal candidate: when it occurs at all, `|`,
   * which comes after it, has at least twice its total; when it does not,
   * `,` comes before it with a total that is not smaller.
   */
  lemma NeverPipeStar(lines: seq<string>, i: nat)
    requires FirstMaximal(Candidates, lines, i)
    ensures Candidates[i] != "|*|"
  {
    CandidatesDistinct();
    PipeScoresTwicePipeStar(lines);
    assert Candidates[3] == "|*|" && Candidates[4] == "|" && Candidates[0] == ",";
    assert Score(lines, Candidates[4]) <= Score(lines, Candidates[i]);
    if i > 0 {
      assert Score(lines, Candidates[0]) < Score(lines, Candidates[i]);
    }
  }

  /** When no candidate occurs in the sample, the first one, `,`, is chosen. */
  lemma NothingFoundGivesComma(lines: seq<string>, i: nat)
    requires FirstMaximal(Candidates, lines, i)
    requires forall m | 0 <= m < |Candidates| :: Score(lines, Candidates[m]) == 0
    ensures Candidates[i] == ","
  {
    assert Score(lines, Candidates[0]) == 0;
  }

  /** The module-level `delimiter` that the update inside the readline comprehension reads. */
  const Pipe := "|"

  /**
   * `i` is where max(results, key=results.get) stops over the dictionary's
   * keys in order: no entry is larger, and every entry before it is smaller.
   */
  predicate FirstMaximalIn(cands: seq<string>, results: map<string, nat>, i: nat)
    requires forall m | 0 <= m < |cands| :: cands[m] in results
  {
    && i < |cands|
    && (forall j | 0 <= j < |cands| :: results[cands[j]] <= results[cands[i]])
    && (forall j | 0 <= j < i :: results[cands[j]] < results[cands[i]])
  }

  /** max(results, key=results.get) over the candidates in order. */
  method FirstLargest(cands: seq<string>, results: map<string, nat>) returns (best: nat)
    requires |cands| > 0 && forall m | 0 <= m < |cands| :: cands[m] in results
    ensures FirstMaximalIn(cands, results, best)
  {
    best := 0;
    var i := 1;
    while i < |cands|
      invariant 1 <= i <= |cands|
      invariant 0 <= best < i
      invariant forall j | 0 <= j < i :: results[cands[j]] <= results[cands[best]]
      invariant forall j | 0 <= j < best :: results[cands[j]] < results[cands[best]]
    {
      if results[cands[i]] > results[cands[best]] {
        best := i;
      }
      i := i + 1;
    }
  }

  // ---------------------------------------------------------------------------
  // As written: only the entry of "|" is updated
  // ---------------------------------------------------------------------------

  /** One readline of the comprehension as written: the line's count of "|" goes to the entry of "|", and no other entry moves. */
  method AddPipeCount(results: map<string, nat>, ghost read: seq<string>, line: string)
    returns (updated: map<string, nat>)
    requires Pipe in results && results[Pipe] == Score(read, Pipe)
    ensures updated.Keys == results.Keys
    ensures updated[Pipe] == Score(read + [line], Pipe)
    ensures forall c | c in results && c != Pipe :: updated[c] == results[c]
  {
    updated := results[Pipe := results[Pipe] + CountIn(line, Pipe)];
    assert (read + [line])[..|read|] == read;
  }

  /** The dictionary of totals as written, after the first `checkLines` readline calls: only "|" has a non-zero entry. */
  method Totals(cands: seq<string>, text: string, checkLines: nat) returns (results: map<string, nat>)
    requires Pipe in cands
    ensures forall m | 0 <= m < |cands| :: cands[m] in results
    ensures Pipe in results && results[Pipe] == Score(Lines(text, checkLines), Pipe)
    ensures forall c | c in results && c != Pipe :: results[c] == 0
  {
    results := map c | c in cands :: 0;
    var rest := text;
    ghost var read: seq<string> := [];
    var n := 0;
    while n < checkLines
      invariant 0 <= n <= checkLines
      invariant read + Lines(rest, checkLines - n) == Lines(text, checkLines)
      invariant forall m | 0 <= m < |cands| :: cands[m] in results
      invariant Pipe in results && results[Pipe] == Score(read, Pipe)
      invariant forall c | c in results && c != Pipe :: results[c] == 0
    {
      ReadOneLine(read, rest, checkLines - n);
      var len := LineLength(rest);
      var line := rest[..len];
      rest := rest[len..];
      if line != [] {
        results := AddPipeCount(results, read, line);
        read := read + [line];
      }
      n := n + 1;
    }
    assert read == Lines(text, checkLines);
  }

  /**
   * With "|" the only entry that can be non-zero, the first maximal entry is
   * "|" when that entry is positive, and the first candidate otherwise.
   */
  lemma PipeOrFirst(cands: seq<string>, results: map<string, nat>, p: nat, best: nat)
    requires p < |cands| && cands[p] == Pipe
    requires forall m | 0 <= m < |cands| :: cands[m] in results
    requires forall c | c in results && c != Pipe :: results[c] == 0
    requires FirstMaximalIn(cands, results, best)
    ensures cands[best] == if results[Pipe] > 0 then Pipe else cands[0]
  {
    if results[Pipe] > 0 {
      assert results[cands[p]] <= results[cands[best]];
    }
  }

  /**
   * get_file_delimiter as written, over the decoded text of the file (line
   * endings already translated to `\n`): "|" when a "|" occurs in the lines
   * read, "," otherwise.
   */
  method GetFileDelimiter(text: string, checkLines: nat) returns (d: string)
    ensures d == if Score(Lines(text, checkLines), Pipe) > 0 then Pipe else ","
  {
    assert Candidates[4] == Pipe && Candidates[0] == ",";
    var results := Totals(Candidates, text, checkLines);
    var best := FirstLargest(Candidates, results);
    PipeOrFirst(Candidates, results, 4, best);
    d := Candidates[best];
  }

  /** The one line of a small ";"-separated file holds one ";", and no "|" or ",". */
  lemma SemicolonLineCounts()
    ensures Lines("a;b\n", 3) == ["a;b\n"]
    ensures CountIn("a;b\n", Pipe) == 0 && CountIn("a;b\n", ",") == 0 && CountIn("a;b\n", ";") == 1
  {
    var line := "a;b\n";
    assert LineLength(line) == 4;
    assert line[..4] == line && line[4..] == [];
    assert line[..1] == "a" && line[1..][..1] == ";";
  }

  /**
   * A file separated by ";" is sniffed as ",": "|" never occurs, so the
   * sniffer as written returns ","; yet ";" has the largest total, so ","
   * is not the first maximal candidate the sniffer was meant to return.
   */
  lemma SemicolonFileGivesComma()
    ensures Score(Lines("a;b\n", 3), Pipe) == 0
    ensures Score(Lines("a;b\n", 3), ";") == 1 && Score(Lines("a;b\n", 3), ",") == 0
    ensures forall i: nat | FirstMaximal(Candidates, Lines("a;b\n", 3), i) :: Candidates[i] != ","
  {
    SemicolonLineCounts();
    var lines := Lines("a;b\n", 3);
    assert lines[..0] == [];
    assert Candidates[2] == ";";
    forall i: nat | FirstMaximal(Candidates, lines, i)
      ensures Candidates[i] != ","
    {
      assert Score(lines, Candidates[2]) <= Score(lines, Candidates[i]);
    }
  }

  // ---------------------------------------------------------------------------
  // As intended: every candidate's entry is updated
  // ---------------------------------------------------------------------------

  /** The totals after adding one more line's counts to each candidate's entry. */
  method AddLine(cands: seq<string>, results: map<string, nat>, ghost read: seq<string>, line: string)
    returns (updated: map<string, nat>)
    requires ValidCandidates(cands)
    requires forall m | 0 <= m < |cands| :: cands[m] in results && results[cands[m]] == Score(read, cands[m])
    ensures forall m | 0 <= m < |cands| :: cands[m] in updated && updated[cands[m]] == Score(read + [line], cands[m])
  {
    updated := results;
    var j := 0;
    while j < |cands|
      invariant 0 <= j <= |cands|
      invariant forall m | 0 <= m < |cands| :: cands[m] in updated
      invariant forall m | 0 <= m < j :: updated[cands[m]] == Score(read, cands[m]) + CountIn(line, cands[m])
      invariant forall m | j <= m < |cands| :: updated[cands[m]] == Score(read, cands[m])
    {
      var c := cands[j];
      updated := updated[c := updated[c] + CountIn(line, c)];
      j := j + 1;
    }
    assert (read + [line])[..|read|] == read;
  }

  /** The dictionary of totals as intended, after the first `checkLines` readline calls: each candidate's total. */
  method TotalsCorrected(cands: seq<string>, text: string, checkLines: nat) returns (results: map<string, nat>)
    requires ValidCandidates(cands)
    ensures forall m | 0 <= m < |cands| :: cands[m] in results && results[cands[m]] == Score(Lines(text, checkLines), cands[m])
  {
    results := map c | c in cands :: 0;
    var rest := text;
    ghost var read: seq<string> := [];
    var n := 0;
    while n < checkLines
      invariant 0 <= n <= checkLines
      invariant read + Lines(rest, checkLines - n) == Lines(text, checkLines)
      invariant forall m | 0 <= m < |cands| :: cands[m] in results && results[cands[m]] == Score(read, cands[m])
    {
      ReadOneLine(read, rest, checkLines - n);
      var len := LineLength(rest);
      var line := rest[..len];
      rest := rest[len..];
      if line != [] {
        results := AddLine(cands, results, read, line);
        read := read + [line];
      }
      n := n + 1;
    }
    assert read == Lines(text, checkLines);
  }

  /**
   * get_file_delimiter as intended: the first candidate with the largest
   * total. It is never `|*|`, and it is `,` when nothing occurs.
   */
  method GetFileDelimiterCorrected(text: string, checkLines: nat) returns (d: string)
    ensures exists i | 0 <= i < |Candidates| :: Candidates[i] == d && FirstMaximal(Candidates, Lines(text, checkLines), i)
    ensures d != "|*|"
    ensures (forall m | 0 <= m < |Candidates| :: Score(Lines(text, checkLines), Candidates[m]) == 0) ==> d == ","
  {
    CandidatesDistinct();
    ghost var lines := Lines(text, checkLines);
    var results := TotalsCorrected(Candidates, text, checkLines);
    var best := FirstLargest(Candidates, results);
    assert FirstMaximal(Candidates, lines, best);
    d := Candidates[best];
    NeverPipeStar(lines, best);
    if forall m | 0 <= m < |Candidates| :: Score(lines, Candidates[m]) == 0 {
      NothingFoundGivesComma(lines, best);
    }
    assert Candidates[best] == d && FirstMaximal(Candidates, lines, best);
  }
}
