/** The two response headers a resumed download reads, sections 14.4 and 8.6 of RFC 9110. */
module ContentRange {
  import opened Base
  import opened Decimal

  datatype Range = Range(start: nat, end: nat, total: Option<nat>)

  /** The digits `s` begins with. */
  function LeadingDigits(s: string): (digits: string)
    ensures AllDigits(digits) && digits <= s
    ensures |digits| < |s| ==> !IsDigit(s[|digits|])
  {
    if s == "" || !IsDigit(s[0]) then "" else [s[0]] + LeadingDigits(s[1..])
  }

  /** A non-empty run of digits followed by `mark`: the digits and what comes after the mark. */
  function Cut(s: string, mark: char): Option<(string, string)> {
    var digits := LeadingDigits(s);
    if digits == "" || |digits| == |s| || s[|digits|] != mark then None
    else Some((digits, s[|digits| + 1..]))
  }

  function SafeNumber(digits: string): Option<nat>
    requires AllDigits(digits)
  {
    if NatOfDigits(digits) <= MAX_SAFE_INTEGER then Some(NatOfDigits(digits)) else None
  }

  const UNIT := "bytes "

  function ParseContentRange(value: string): Option<Range> {
    if !(UNIT <= value) then None else
    var first := Cut(value[|UNIT|..], '-');
    if first.None? then None else
    var second := Cut(first.value.1, '/');
    if second.None? then None else
    var total := second.value.1;
    if total != "*" && (total == "" || !AllDigits(total)) then None else
    Checked(SafeNumber(first.value.0), SafeNumber(CutDigits(first.value.1, '/')), if total == "*" then None else Some(SafeNumber(total)))
  }

  function CutDigits(s: string, mark: char): (digits: string)
    requires Cut(s, mark).Some?
    ensures digits == Cut(s, mark).value.0 && AllDigits(digits)
  {
    LeadingDigits(s)
  }

  /** The numeric conditions on a range; `total` is absent for an asterisk. */
  function Checked(start: Option<nat>, end: Option<nat>, total: Option<Option<nat>>): Option<Range> {
    if start.None? || end.None? || end.value < start.value then None
    else if total.None? then Some(Range(start.value, end.value, None))
    else if total.value.None? || end.value >= total.value.value then None
    else Some(Range(start.value, end.value, total.value))
  }

  predicate ValidRange(r: Range) {
    && r.start <= r.end <= MAX_SAFE_INTEGER
    && (r.total.Some? ==> r.end < r.total.value <= MAX_SAFE_INTEGER)
  }

  /** `value` is the pattern with these digit strings in its groups. */
  predicate Spells(value: string, start: string, end: string, total: string) {
    && start != "" && AllDigits(start) && end != "" && AllDigits(end)
    && (total == "*" || (total != "" && AllDigits(total)))
    && value == UNIT + start + "-" + end + "/" + total
  }

  predicate Denotes(start: string, end: string, total: string, r: Range)
    requires AllDigits(start) && AllDigits(end)
  {
    && NatOfDigits(start) == r.start && NatOfDigits(end) == r.end
    && (if total == "*" then r.total.None? else AllDigits(total) && r.total == Some(NatOfDigits(total)))
  }

  lemma {:induction false} LeadingDigitsExact(digits: string, rest: string)
    requires AllDigits(digits) && (rest == "" || !IsDigit(rest[0]))
    ensures LeadingDigits(digits + rest) == digits
  {
    if digits == "" {
      assert digits + rest == rest;
    } else {
      LeadingDigitsExact(digits[1..], rest);
      assert (digits + rest)[1..] == digits[1..] + rest;
    }
  }

  lemma CutExact(digits: string, mark: char, rest: string)
    requires digits != "" && AllDigits(digits) && !IsDigit(mark)
    ensures Cut(digits + [mark] + rest, mark) == Some((digits, rest))
  {
    LeadingDigitsExact(digits, [mark] + rest);
    assert digits + [mark] + rest == digits + ([mark] + rest);
  }

  /** Every text of the form parses to the numbers it shows, if they satisfy the conditions. */
  lemma SpelledParses(value: string, start: string, end: string, total: string)
    requires Spells(value, start, end, total)
    ensures ParseContentRange(value) == Checked(SafeNumber(start), SafeNumber(end), if total == "*" then None else Some(SafeNumber(total)))
  {
    assert value == UNIT + (start + "-" + (end + "/" + total));
    assert value[|UNIT|..] == start + "-" + (end + "/" + total);
    CutExact(start, '-', end + "/" + total);
    CutExact(end, '/', total);
  }

  lemma CutSound(s: string, mark: char)
    requires Cut(s, mark).Some?
    ensures var (digits, rest) := Cut(s, mark).value; digits != "" && AllDigits(digits) && s == digits + [mark] + rest
  {
  }

  predicate Form(value: string, start: string, end: string, total: string, r: Range) {
    Spells(value, start, end, total) && Denotes(start, end, total, r)
  }

  lemma ParsedHasForm(value: string, r: Range)
    requires ParseContentRange(value) == Some(r)
    ensures ValidRange(r) && exists start, end, total :: Form(value, start, end, total, r)
  {
    var tail := value[|UNIT|..];
    var (start, more) := Cut(tail, '-').value;
    var (end, total) := Cut(more, '/').value;
    assert Spells(value, start, end, total) by {
      CutSound(tail, '-');
      CutSound(more, '/');
      Joined(value, tail, start, more, end, total);
    }
    assert Denotes(start, end, total, r);
    assert Form(value, start, end, total, r);
  }

  lemma Joined(value: string, tail: string, start: string, more: string, end: string, total: string)
    requires UNIT <= value && tail == value[|UNIT|..]
    requires tail == start + ['-'] + more && more == end + ['/'] + total
    ensures value == UNIT + start + "-" + end + "/" + total
  {
    assert value == UNIT + tail;
    assert start + "-" + (end + "/" + total) == start + "-" + end + "/" + total;
  }

  /** The parser accepts exactly the texts of the header's form whose numbers are safe and ordered, and returns them. */
  lemma ParseExactly(value: string, r: Range)
    ensures ParseContentRange(value) == Some(r) <==>
      ValidRange(r) && exists start, end, total :: Form(value, start, end, total, r)
  {
    if ParseContentRange(value) == Some(r) {
      ParsedHasForm(value, r);
    }
    if start, end, total :| ValidRange(r) && Form(value, start, end, total, r) {
      SpelledParses(value, start, end, total);
    }
  }

  function Print(r: Range): string {
    UNIT + ToDecimal(r.start) + "-" + ToDecimal(r.end) + "/" + if r.total.None? then "*" else ToDecimal(r.total.value)
  }

  /** A server's own header reads back as the range it meant. */
  lemma PrintedParses(r: Range)
    requires ValidRange(r)
    ensures ParseContentRange(Print(r)) == Some(r)
  {
    var total := if r.total.None? then "*" else ToDecimal(r.total.value);
    PrintedDigits(r.start);
    PrintedDigits(r.end);
    if r.total.Some? { PrintedDigits(r.total.value); }
    assert Spells(Print(r), ToDecimal(r.start), ToDecimal(r.end), total);
    SpelledParses(Print(r), ToDecimal(r.start), ToDecimal(r.end), total);
  }

  /** `Content-Length`: digits only, and a safe integer. */
  function ResponseLength(value: Option<string>): (length: Option<nat>) {
    if value.None? || value.value == "" || !AllDigits(value.value) then None else SafeNumber(value.value)
  }

  /** A length that was printed reads back, and one beyond the safe integers counts as none. */
  lemma PrintedLength(n: nat)
    ensures ResponseLength(Some(ToDecimal(n))) == if n <= MAX_SAFE_INTEGER then Some(n) else None
  {
    PrintedDigits(n);
  }

  /** A value counts exactly if it is digits alone that spell a safe integer. */
  lemma LengthExactly(value: string, n: nat)
    ensures ResponseLength(Some(value)) == Some(n) <==> value != "" && AllDigits(value) && NatOfDigits(value) == n <= MAX_SAFE_INTEGER
  {
  }
}
