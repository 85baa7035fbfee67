/**
 * detect_extension: os.path.splitext on a POSIX path, then str.lower. The
 * extension starts at the last dot of the last path component, provided
 * some character other than a dot comes before that dot in the component;
 * leading dots (hidden files such as `.bashrc`) do not start an extension.
 */
module Extension {

  /** str.rfind for one character: the last position holding `c`, or -1. */
  function RFind(s: string, c: char): (i: int)
    ensures -1 <= i < |s|
    ensures i >= 0 ==> s[i] == c
    ensures forall j | i < j < |s| :: s[j] != c
  {
    if s == [] then -1
    else if s[|s| - 1] == c then |s| - 1
    else RFind(s[..|s| - 1], c)
  }

  /** The characters of `p` from `from` up to `to` are all dots. */
  predicate AllDots(p: string, from: nat, to: nat)
    requires from <= to <= |p|
  {
    forall i | from <= i < to :: p[i] == '.'
  }

  /** os.path.splitext: (root, ext) with root + ext == path. */
  function SplitExt(p: string): (r: (string, string))
    ensures r.0 + r.1 == p
    ensures r.1 == [] || (r.1[0] == '.' && forall i | 1 <= i < |r.1| :: r.1[i] != '.' && r.1[i] != '/')
  {
    var sep := RFind(p, '/');
    var dot := RFind(p, '.');
    if dot > sep && !AllDots(p, sep + 1, dot) then
      assert p == p[..dot] + p[dot..];
      (p[..dot], p[dot..])
    else (p, [])
  }

  /** str.lower on ASCII letters; other characters are unchanged. */
  function LowerChar(c: char): (l: char)
    ensures 'A' <= c <= 'Z' ==> 'a' <= l <= 'z'
    ensures !('A' <= c <= 'Z') ==> l == c
  {
    if 'A' <= c <= 'Z' then (c as int - 'A' as int + 'a' as int) as char else c
  }

  function Lower(s: string): (r: string)
    ensures |r| == |s|
    ensures forall i | 0 <= i < |s| :: r[i] == LowerChar(s[i])
  {
    if s == [] then [] else [LowerChar(s[0])] + Lower(s[1..])
  }

  /** detect_extension: the extension splitext finds, lower-cased; empty or starting with a dot. */
  function DetectExtension(p: string): (ext: string)
    ensures |ext| <= |p|
    ensures ext == Lower(p[|p| - |ext|..])
    ensures ext == [] || (ext[0] == '.' && forall i | 1 <= i < |ext| :: ext[i] != '.' && ext[i] != '/')
  {
    var (root, e) := SplitExt(p);
    assert p[|p| - |e|..] == e;
    Lower(e)
  }

  /**
   * An extension is found exactly when the last component holds a dot with
   * a non-dot character somewhere before it.
   */
  lemma {:induction false} ExtensionFoundIff(p: string)
    ensures DetectExtension(p) != [] <==>
      exists i, j | RFind(p, '/') < i < j < |p| :: p[i] != '.' && p[j] == '.'
  {
    var sep := RFind(p, '/');
    var dot := RFind(p, '.');
    if DetectExtension(p) != [] {
      var i :| sep + 1 <= i < dot && p[i] != '.';
      assert RFind(p, '/') < i < dot < |p| && p[i] != '.' && p[dot] == '.';
    }
    if exists i, j | sep < i < j < |p| :: p[i] != '.' && p[j] == '.' {
      var i, j :| sep < i < j < |p| && p[i] != '.' && p[j] == '.';
      assert j <= dot;
      assert !AllDots(p, sep + 1, dot) by {
        assert p[i] != '.' && sep + 1 <= i < dot;
      }
      assert |SplitExt(p).1| > 0;
    }
  }

  /** An upper-case extension is found and lower-cased. */
  lemma ExtensionOfDataFile()
    ensures DetectExtension("in/Data.CSV") == ".csv"
  {
    var p := "in/Data.CSV";
    assert p[2] == '/' && p[3] == 'D' && p[7] == '.';
    assert RFind(p, '/') == 2;
    assert RFind(p, '.') == 7;
    assert !AllDots(p, 3, 7);
    assert SplitExt(p).1 == ".CSV";
    assert LowerChar('C') == 'c' && LowerChar('S') == 's' && LowerChar('V') == 'v';
    assert Lower(".CSV") == ".csv";
  }

  /** A hidden file with no further dot has no extension. */
  lemma ExtensionOfHiddenFile()
    ensures DetectExtension("/u/.bashrc") == ""
  {
    var h := "/u/.bashrc";
    assert h[2] == '/' && h[3] == '.';
    assert RFind(h, '/') == 2;
    assert RFind(h, '.') == 3;
  }

  /** A dot in a directory name does not start an extension. */
  lemma ExtensionOfDottedDirectory()
    ensures DetectExtension("a.d/readme") == ""
  {
    var r := "a.d/readme";
    assert r[3] == '/' && r[1] == '.';
    assert RFind(r, '/') == 3;
    assert RFind(r, '.') == 1;
  }
}
