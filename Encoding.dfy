/**
 * Encoding detection: take the first `numRows` raw lines of the file and
 * return the first candidate encoding under which they decode to a non-empty
 * text. Decoding is a parameter (`decode`): which byte strings a codec
 * accepts, and even which codec names exist, is up to the platform.
 */
module Encoding {
  import opened Tables

  /** The outcome of bytes.decode(encoding): the text, or the exception it raises. */
  datatype Decoded = Decoded(text: string) | Raised

  /** How the scan of the candidate list ends. */
  datatype Scan = Found(encoding: string) | Exhausted | Aborted

  /** The encodings list the script passes to both detections, in its order of preference. */
  const EncodingsList: seq<string> :=
    ["ANSI", "ISO-8859-1", "Windows-1251", "Windows-1252", "GB2312", "Shift JIS", "EUC-KR",
     "ISO-8859-9", "Windows-1254", "EUC-JP", "Big5"]

  const Newline: byte := 10

  /** How many bytes one readline call in binary mode consumes. */
  function ByteLineLength(s: seq<byte>): (n: nat)
    ensures n <= |s|
    ensures s != [] ==> n > 0
    ensures forall i | 0 <= i < n - 1 :: s[i] != Newline
    ensures n == |s| || s[n - 1] == Newline
  {
    if s == [] then 0
    else if s[0] == Newline then 1
    else 1 + ByteLineLength(s[1..])
  }

  /**
   * b''.join(f.readline() for _ in range(numRows)): the bytes of the first
   * `numRows` lines, which is a prefix of the file holding at most `numRows`
   * newlines.
   */
  function RawData(data: seq<byte>, numRows: nat): (raw: seq<byte>)
    ensures |raw| <= |data| && raw == data[..|raw|]
    ensures numRows == 0 ==> raw == []
    ensures numRows > 0 && data != [] ==> raw != []
    decreases numRows
  {
    if numRows == 0 || data == [] then []
    else
      var n := ByteLineLength(data);
      assert data == data[..n] + data[n..];
      data[..n] + RawData(data[n..], numRows - 1)
  }

  /**
   * next(enc for enc in encodings if all(raw.decode(enc) for _ in range(numRows))):
   * every iteration of `all` decodes the same bytes, so it is the truth
   * value of one decode, evaluated only when `numRows` is positive; a raise
   * leaves the generator and ends the whole scan.
   */
  function ScanCandidates(raw: seq<byte>, encodings: seq<string>, numRows: nat,
                          decode: (string, seq<byte>) -> Decoded): (r: Scan)
    ensures r.Found? ==> r.encoding in encodings
    ensures r.Found? && numRows > 0 ==> decode(r.encoding, raw).Decoded? && decode(r.encoding, raw).text != []
    ensures numRows == 0 ==> r == if encodings == [] then Exhausted else Found(encodings[0])
    decreases |encodings|
  {
    if encodings == [] then Exhausted
    else if numRows == 0 then Found(encodings[0])
    else match decode(encodings[0], raw)
      case Raised => Aborted
      case Decoded(text) =>
        if text != [] then Found(encodings[0])
        else ScanCandidates(raw, encodings[1..], numRows, decode)
  }

  /**
   * detect_encoding2. `file` is None when the file cannot be opened; that
   * exception, like a raise from a decode, is caught and gives None, as does
   * running out of candidates.
   */
  function DetectEncoding(file: Option<seq<byte>>, encodings: seq<string>, numRows: nat,
                          decode: (string, seq<byte>) -> Decoded): (r: Option<string>)
    ensures r.Some? ==> r.value in encodings
    ensures r.Some? ==> file.Some?
  {
    match file
    case None => None
    case Some(data) =>
      match ScanCandidates(RawData(data, numRows), encodings, numRows, decode)
      case Found(e) => Some(e)
      case _ => None
  }

  /** The candidates before position `i` all decode `raw` to the empty text. */
  predicate AllEmptyBefore(raw: seq<byte>, encodings: seq<string>, i: nat,
                           decode: (string, seq<byte>) -> Decoded)
    requires i <= |encodings|
  {
    forall j | 0 <= j < i :: decode(encodings[j], raw) == Decoded([])
  }

  /**
   * With at least one row to check, the scan stops at the first candidate
   * whose decode does not give the empty text: it is found when that decode
   * gives text, and the scan is aborted when it raises; with no such
   * candidate the list is exhausted.
   */
  lemma {:induction false} ScanStopsAtFirstNonEmpty(raw: seq<byte>, encodings: seq<string>, numRows: nat,
                                                   decode: (string, seq<byte>) -> Decoded, i: nat)
    requires numRows > 0 && i <= |encodings|
    requires AllEmptyBefore(raw, encodings, i, decode)
    ensures i == |encodings| ==> ScanCandidates(raw, encodings, numRows, decode) == Exhausted
    ensures i < |encodings| && decode(encodings[i], raw) == Raised ==>
              ScanCandidates(raw, encodings, numRows, decode) == Aborted
    ensures i < |encodings| && decode(encodings[i], raw).Decoded? && decode(encodings[i], raw).text != [] ==>
              ScanCandidates(raw, encodings, numRows, decode) == Found(encodings[i])
    decreases i
  {
    if i > 0 {
      assert decode(encodings[0], raw) == Decoded([]);
      ScanStopsAtFirstNonEmpty(raw, encodings[1..], numRows, decode, i - 1);
    }
  }

  /**
   * A detected encoding is the first candidate that decodes the sample to a
   * non-empty text, and every candidate before it decoded to the empty text
   * (none raised).
   */
  lemma {:induction false} DetectedIsFirstNonEmpty(raw: seq<byte>, encodings: seq<string>, numRows: nat,
                                                  decode: (string, seq<byte>) -> Decoded)
    requires numRows > 0
    requires ScanCandidates(raw, encodings, numRows, decode).Found?
    ensures exists i | 0 <= i < |encodings| ::
              && encodings[i] == ScanCandidates(raw, encodings, numRows, decode).encoding
              && AllEmptyBefore(raw, encodings, i, decode)
              && decode(encodings[i], raw).Decoded? && decode(encodings[i], raw).text != []
    decreases |encodings|
  {
    var d := decode(encodings[0], raw);
    if !(d.Decoded? && d.text != []) {
      DetectedIsFirstNonEmpty(raw, encodings[1..], numRows, decode);
      var i :| 0 <= i < |encodings[1..]|
               && encodings[1..][i] == ScanCandidates(raw, encodings[1..], numRows, decode).encoding
               && AllEmptyBefore(raw, encodings[1..], i, decode)
               && decode(encodings[1..][i], raw).Decoded? && decode(encodings[1..][i], raw).text != [];
      assert AllEmptyBefore(raw, encodings, i + 1, decode) by {
        forall j | 0 <= j < i + 1
          ensures decode(encodings[j], raw) == Decoded([])
        {
          if j > 0 {
            assert encodings[j] == encodings[1..][j - 1];
          }
        }
      }
    } else {
      assert AllEmptyBefore(raw, encodings, 0, decode);
    }
  }

  /**
   * A candidate whose decode raises ends detection with None, however the
   * later candidates would have decoded: they are never tried.
   */
  lemma RaiseEndsDetection(data: seq<byte>, encodings: seq<string>, numRows: nat,
                           decode: (string, seq<byte>) -> Decoded, i: nat)
    requires numRows > 0 && i < |encodings|
    requires AllEmptyBefore(RawData(data, numRows), encodings, i, decode)
    requires decode(encodings[i], RawData(data, numRows)) == Raised
    ensures DetectEncoding(Some(data), encodings, numRows, decode) == None
  {
    ScanStopsAtFirstNonEmpty(RawData(data, numRows), encodings, numRows, decode, i);
  }

  /**
   * An empty file gives None whenever decoding no bytes yields no text (as
   * every real codec does): the empty text is falsy, so no candidate passes.
   */
  lemma EmptyFileGivesNone(encodings: seq<string>, numRows: nat, decode: (string, seq<byte>) -> Decoded)
    requires numRows > 0
    requires forall e | e in encodings :: decode(e, []) == Decoded([]) || decode(e, []) == Raised
    ensures DetectEncoding(Some([]), encodings, numRows, decode) == None
  {
    var raw := RawData([], numRows);
    assert raw == [];
    if ScanCandidates(raw, encodings, numRows, decode).Found? {
      DetectedIsFirstNonEmpty(raw, encodings, numRows, decode);
    }
  }

  /**
   * With no rows to check, `all` over an empty range is true, so the first
   * candidate is returned without decoding anything.
   */
  lemma NoRowsGivesFirstCandidate(data: seq<byte>, encodings: seq<string>,
                                  decode: (string, seq<byte>) -> Decoded)
    requires encodings != []
    ensures DetectEncoding(Some(data), encodings, 0, decode) == Some(encodings[0])
  {
  }

  /**
   * The script's list starts with "ANSI". Where the platform has no codec of
   * that name, its decode raises for every input, so the detection of any
   * non-empty file with the default five rows ends with None.
   */
  lemma NoAnsiCodecGivesNone(data: seq<byte>, decode: (string, seq<byte>) -> Decoded)
    requires data != []
    requires forall raw :: decode("ANSI", raw) == Raised
    ensures DetectEncoding(Some(data), EncodingsList, 5, decode) == None
  {
    assert EncodingsList[0] == "ANSI";
    RaiseEndsDetection(data, EncodingsList, 5, decode, 0);
  }
}
