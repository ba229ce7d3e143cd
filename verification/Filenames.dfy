/**
  The canonical file name of a download: the last path segment of what was suggested, without
  control and reserved characters, and cut to 255 bytes of UTF-8 between characters. Paths
  are read as on Unix.
 */
module Filenames {
  import opened Base
  import opened Characters
  import Utf8

  const MAX_FILENAME_BYTES := 255
  const ELLIPSIS: char := 0x2026 as char
  const FALLBACK := "download"

  // ---------------------------------------------------------------- paths

  function WithSlashes(s: string): string {
    if s == "" then "" else [if s[0] == '\\' then '/' else s[0]] + WithSlashes(s[1..])
  }

  /** Where the last slash stands, if there is one. */
  function LastSlash(s: string): (r: Option<nat>)
    ensures r.Some? ==> r.value < |s| && s[r.value] == '/' && forall k :: r.value < k < |s| ==> s[k] != '/'
    ensures r.None? ==> forall k :: 0 <= k < |s| ==> s[k] != '/'
  {
    if s == "" then None
    else if s[|s| - 1] == '/' then Some(|s| - 1)
    else LastSlash(s[..|s| - 1])
  }

  /** `Path::file_name`: the last segment; empty and `.` segments do not count, and `..` is no name. */
  function FileName(path: string): (r: Option<string>)
    ensures r.Some? ==> r.value !in {"", ".", ".."} && forall k :: 0 <= k < |r.value| ==> r.value[k] != '/'
    decreases |path|
  {
    var slash := LastSlash(path);
    var segment := if slash.None? then path else path[slash.value + 1..];
    if segment in {"", "."} then
      if slash.None? then None else FileName(path[..slash.value])
    else if segment == ".." then None
    else Some(segment)
  }

  function LastDot(s: string): (r: Option<nat>)
    ensures r.Some? ==> r.value < |s| && s[r.value] == '.' && forall k :: r.value < k < |s| ==> s[k] != '.'
    ensures r.None? ==> forall k :: 0 <= k < |s| ==> s[k] != '.'
  {
    if s == "" then None
    else if s[|s| - 1] == '.' then Some(|s| - 1)
    else LastDot(s[..|s| - 1])
  }

  /** `Path::extension` of a single segment: what follows its last dot, unless that is its first character. */
  function Extension(name: string): Option<string> {
    var dot := LastDot(name);
    if dot.None? || dot.value == 0 then None else Some(name[dot.value + 1..])
  }

  /** `Path::file_stem`. */
  function Stem(name: string): string {
    var dot := LastDot(name);
    if dot.None? || dot.value == 0 then name else name[..dot.value]
  }

  // ---------------------------------------------------------------- reserved device names

  function FirstChunk(s: string): string {
    if s == "" || s[0] == '.' then "" else [s[0]] + FirstChunk(s[1..])
  }

  function Uppercase(s: string): (r: string)
    ensures |r| == |s|
    ensures forall k :: 0 <= k < |s| ==> r[k] == if 'a' <= s[k] <= 'z' then (s[k] as int - 32) as char else s[k]
  {
    if s == "" then "" else
      [if 'a' <= s[0] <= 'z' then (s[0] as int - 32) as char else s[0]] + Uppercase(s[1..])
  }

  predicate Device(stem: string) {
    stem in {"CON", "PRN", "AUX", "NUL", "CLOCK$", "CONIN$", "CONOUT$"}
    || (|stem| == 4 && stem[..3] in {"COM", "LPT"} && '1' <= stem[3] <= '9')
  }

  /** `is_windows_reserved_filename`. */
  predicate IsReserved(name: string) {
    Device(Uppercase(TrimDotsAndSpaces(FirstChunk(name))))
  }

  // ---------------------------------------------------------------- the canonical name

  predicate Forbidden(c: char) {
    IsControl(c) || c in {'<', '>', ':', '\"', '/', '\\', '|', '?', '*'}
  }

  predicate Allowed(s: string) {
    forall k :: 0 <= k < |s| ==> !Forbidden(s[k])
  }

  function Replaced(s: string): (r: string)
    ensures |r| == |s| && Allowed(r)
    ensures forall k :: 0 <= k < |s| ==> r[k] == if Forbidden(s[k]) then '-' else s[k]
  {
    if s == "" then "" else [if Forbidden(s[0]) then '-' else s[0]] + Replaced(s[1..])
  }

  function Leaf(filename: string): string {
    var name := FileName(WithSlashes(filename));
    if name.Some? then name.value else FALLBACK
  }

  function Sanitized(filename: string): string {
    TrimDotsAndSpaces(Trim(Replaced(Leaf(filename))))
  }

  function Renamed(name: string): string {
    Stem(name) + "-" + if Extension(name).Some? then "." + Extension(name).value else ""
  }

  function Named(sanitized: string, reserved: bool): string {
    if sanitized in {"", ".", ".."} then FALLBACK else if reserved then Renamed(sanitized) else sanitized
  }

  /** The name before it is cut. */
  function FullName(filename: string): string {
    Named(Sanitized(filename), IsReserved(Sanitized(filename)))
  }

  function ByteLength(s: string): nat {
    |Utf8.Encode(s)|
  }

  function Minus(a: nat, b: nat): nat {
    if a <= b then 0 else a - b
  }

  /** The longest run of whole characters that fits. */
  function Truncated(s: string, budget: nat): (r: string)
    ensures r <= s
  {
    if s == "" || |Utf8.EncodeScalar(s[0])| > budget then ""
    else [s[0]] + Truncated(s[1..], budget - |Utf8.EncodeScalar(s[0])|)
  }

  function DottedExtension(name: string): string {
    if Extension(name).Some? then "." + Extension(name).value else ""
  }

  function BaseBudget(extension: string): nat {
    Minus(Minus(MAX_FILENAME_BYTES, ByteLength(extension)), ByteLength([ELLIPSIS]))
  }

  function Shortened(name: string): string {
    if ByteLength(name) <= MAX_FILENAME_BYTES then name else
      var extension := DottedExtension(name);
      var base := name[..|name| - |extension|];
      if BaseBudget(extension) == 0 then Truncated(name, MAX_FILENAME_BYTES)
      else Truncated(base, BaseBudget(extension)) + [ELLIPSIS] + extension
  }

  /** `canonical_download_filename`. */
  function CanonicalName(filename: string): string {
    Shortened(FullName(filename))
  }

  // ---------------------------------------------------------------- byte lengths

  lemma {:induction false} EncodeConcat(a: string, b: string)
    ensures Utf8.Encode(a + b) == Utf8.Encode(a) + Utf8.Encode(b)
  {
    if a == "" {
      assert a + b == b;
    } else {
      assert (a + b)[1..] == a[1..] + b;
      EncodeConcat(a[1..], b);
    }
  }

  /** The cut is between characters, and no longer prefix of the text fits. */
  lemma {:induction false} TruncatedIsLongest(s: string, budget: nat)
    ensures ByteLength(Truncated(s, budget)) <= budget
    ensures Utf8.Encode(Truncated(s, budget)) <= Utf8.Encode(s)
    ensures forall k :: |Truncated(s, budget)| < k <= |s| ==> ByteLength(s[..k]) > budget
    ensures ByteLength(s) > budget ==> ByteLength(Truncated(s, budget)) + 4 > budget
  {
    if s == "" {
    } else if |Utf8.EncodeScalar(s[0])| > budget {
      forall k | 0 < k <= |s| ensures ByteLength(s[..k]) > budget {
        assert s[..k][0] == s[0];
      }
    } else {
      var rest := budget - |Utf8.EncodeScalar(s[0])|;
      TruncatedIsLongest(s[1..], rest);
      forall k | |Truncated(s, budget)| < k <= |s| ensures ByteLength(s[..k]) > budget {
        assert s[..k][1..] == s[1..][..k - 1];
      }
    }
  }

  lemma OneMore(s: string, k: nat)
    requires k < |s|
    ensures ByteLength(s[..k + 1]) == ByteLength(s[..k]) + |Utf8.EncodeScalar(s[k])|
  {
    assert s[..k + 1] == s[..k] + [s[k]];
    EncodeConcat(s[..k], [s[k]]);
    assert Utf8.Encode([s[k]]) == Utf8.EncodeScalar(s[k]) + [];
  }

  lemma Monotone(s: string, i: nat, j: nat)
    requires i <= j <= |s|
    ensures ByteLength(s[..i]) <= ByteLength(s[..j])
  {
    assert s[..j] == s[..i] + s[i..j];
    EncodeConcat(s[..i], s[i..j]);
  }

  /** A prefix that fits, and that one more character would not, is the truncation. */
  lemma OnlyTruncation(s: string, k: nat, budget: nat)
    requires k <= |s| && ByteLength(s[..k]) <= budget
    requires k < |s| ==> ByteLength(s[..k + 1]) > budget
    ensures Truncated(s, budget) == s[..k]
  {
    TruncatedIsLongest(s, budget);
    var t := |Truncated(s, budget)|;
    assert Truncated(s, budget) == s[..t];
    if k < t {
      Monotone(s, k + 1, t);
    }
  }

  /** `truncate_utf8_to_bytes`. */
  method TruncateUtf8ToBytes(value: string, maxBytes: nat) returns (r: string)
    ensures r == Truncated(value, maxBytes)
    ensures r <= value && ByteLength(r) <= maxBytes
    ensures |r| < |value| ==> ByteLength(value[..|r| + 1]) > maxBytes
  {
    var end, count := 0, 0;
    while count < |value|
      invariant 0 <= count <= |value| && end == ByteLength(value[..count]) <= maxBytes
    {
      var next := end + |Utf8.EncodeScalar(value[count])|;
      OneMore(value, count);
      if next > maxBytes {
        break;
      }
      end, count := next, count + 1;
    }
    OnlyTruncation(value, count, maxBytes);
    return value[..count];
  }
}
