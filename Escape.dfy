/**
 * convert_delimiter_to_raw: re.escape of the sniffed delimiter. Since
 * Python 3.7, re.escape puts a backslash before exactly the characters in
 * `Special` and copies every other character; the f-string around it adds
 * nothing.
 */
module Escape {

  /** The characters re.escape backslash-escapes. */
  const Special: set<char> :=
    {'(', ')', '[', ']', '{', '}', '?', '*', '+', '-', '|', '^', '$', '\\', '.', '&', '~', '#',
     ' ', '\t', '\n', '\r', '\U{B}', '\U{C}'}

  /** The number of characters of `s` that re.escape escapes. */
  function SpecialCount(s: string): nat
  {
    if s == [] then 0 else (if s[0] in Special then 1 else 0) + SpecialCount(s[1..])
  }

  function ConvertDelimiterToRaw(d: string): (r: string)
    ensures |r| == |d| + SpecialCount(d)
  {
    if d == [] then []
    else (if d[0] in Special then ['\\', d[0]] else [d[0]]) + ConvertDelimiterToRaw(d[1..])
  }

  /**
   * Reading an escaped pattern back as literal text: a backslash stands for
   * the character after it.
   */
  function Unescape(p: string): (r: string)
    ensures |r| <= |p|
    decreases |p|
  {
    if p == [] then []
    else if p[0] == '\\' && |p| >= 2 then [p[1]] + Unescape(p[2..])
    else [p[0]] + Unescape(p[1..])
  }

  /**
   * The escaped delimiter stands for the delimiter itself, character for
   * character: only backslashes were inserted, so distinct delimiters give
   * distinct patterns.
   */
  lemma {:induction false} UnescapeConvert(d: string)
    ensures Unescape(ConvertDelimiterToRaw(d)) == d
  {
    if d != [] {
      UnescapeConvert(d[1..]);
      var rest := ConvertDelimiterToRaw(d[1..]);
      if d[0] in Special {
        assert ConvertDelimiterToRaw(d) == ['\\', d[0]] + rest;
        assert (['\\', d[0]] + rest)[2..] == rest;
      } else {
        assert ConvertDelimiterToRaw(d) == [d[0]] + rest;
        assert ([d[0]] + rest)[1..] == rest;
      }
      assert d == [d[0]] + d[1..];
    }
  }

  /** A delimiter with no special character passes through unchanged. */
  lemma {:induction false} PlainDelimiterUnchanged(d: string)
    requires forall i | 0 <= i < |d| :: d[i] !in Special
    ensures ConvertDelimiterToRaw(d) == d
  {
    if d != [] {
      PlainDelimiterUnchanged(d[1..]);
      assert d == [d[0]] + d[1..];
    }
  }

  /**
   * What the escaping does to the sniffed candidates: `|*|` becomes
   * `\|\*\|` (all three characters escaped, not `\|*\|`), and `,`, `;` and
   * `:` are left as they are.
   */
  lemma EscapedCandidates()
    ensures ConvertDelimiterToRaw("|*|") == "\\|\\*\\|"
    ensures ConvertDelimiterToRaw("|*|") != "\\|*\\|"
    ensures forall c | c in [",", ";", ":"] :: ConvertDelimiterToRaw(c) == c
  {
  }
}
