/** Character classes of the Unicode standard that the program's string functions use. */
module Characters {

  /** The White_Space property, which `str::trim` removes at both ends. */
  predicate IsWhitespace(c: char) {
    var n := c as int;
    9 <= n <= 13 || n == 0x20 || n == 0x85 || n == 0xA0 || n == 0x1680 || 0x2000 <= n <= 0x200A
    || n == 0x2028 || n == 0x2029 || n == 0x202F || n == 0x205F || n == 0x3000
  }

  /** The general category Cc. */
  predicate IsControl(c: char) {
    var n := c as int;
    n < 0x20 || 0x7F <= n < 0xA0
  }

  /** `s.trim().is_empty()`. */
  predicate Blank(s: string) {
    forall k :: 0 <= k < |s| ==> IsWhitespace(s[k])
  }

  /** Without the blanks in front. */
  function TrimStart(s: string): (t: string)
    ensures |t| <= |s| && t == s[|s| - |t|..]
    ensures forall k :: 0 <= k < |s| - |t| ==> IsWhitespace(s[k])
    ensures t != "" ==> !IsWhitespace(t[0])
  {
    if s != "" && IsWhitespace(s[0]) then
      assert forall k :: 1 <= k < |s| ==> s[k] == s[1..][k - 1];
      TrimStart(s[1..])
    else s
  }

  /** Without the blanks behind. */
  function TrimEnd(s: string): (t: string)
    ensures t <= s
    ensures forall k :: |t| <= k < |s| ==> IsWhitespace(s[k])
    ensures t != "" ==> !IsWhitespace(t[|t| - 1])
  {
    if s != "" && IsWhitespace(s[|s| - 1]) then TrimEnd(s[..|s| - 1]) else s
  }

  /** `str::trim`. */
  function Trim(s: string): (t: string)
    ensures |t| <= |s|
    ensures t == s <==> s == "" || (!IsWhitespace(s[0]) && !IsWhitespace(s[|s| - 1]))
    ensures t == "" <==> Blank(s)
    ensures t != "" ==> !IsWhitespace(t[0]) && !IsWhitespace(t[|t| - 1])
    ensures forall c :: c in t ==> c in s
  {
    if s == "" then ""
    else if IsWhitespace(s[0]) then
      assert forall k :: 1 <= k < |s| ==> s[k] == s[1..][k - 1];
      Trim(s[1..])
    else if IsWhitespace(s[|s| - 1]) then
      Trim(s[..|s| - 1])
    else s
  }

  /** Trimming is dropping the blanks in front and then those behind. */
  lemma {:induction false} TrimBothEnds(s: string)
    ensures Trim(s) == TrimEnd(TrimStart(s))
  {
    if s == "" {
    } else if IsWhitespace(s[0]) {
      TrimBothEnds(s[1..]);
    } else if IsWhitespace(s[|s| - 1]) {
      TrimBothEnds(s[..|s| - 1]);
      assert TrimStart(s) == s && TrimStart(s[..|s| - 1]) == s[..|s| - 1];
    }
  }

  /** `trim_end_matches(['.', ' '])`. */
  function TrimDotsAndSpaces(s: string): (t: string)
    ensures t <= s
    ensures t != "" ==> t[|t| - 1] !in {'.', ' '}
    ensures t == s <==> s == "" || s[|s| - 1] !in {'.', ' '}
  {
    if s != "" && s[|s| - 1] in {'.', ' '} then TrimDotsAndSpaces(s[..|s| - 1]) else s
  }
}
