/**
  The bencode printer and parser of the torrent smoke test, the encoding of the "bencoding"
  section of BEP 3. Map keys are text in memory and UTF-8 byte strings in the file.
 */
module Bencode {
  import opened Base
  import opened Decimal
  import Utf8

  const INT: Byte := 0x69
  const LIST: Byte := 0x6C
  const DICT: Byte := 0x64
  const END: Byte := 0x65
  const COLON: Byte := 0x3A

  /** A JavaScript number: an integer, or anything else (NaN, infinite, fractional). */
  datatype Number = Whole(n: int) | NotWhole(text: seq<Byte>)

  datatype Value =
    | Bytes(bytes: seq<Byte>)
    | Text(text: string)
    | Num(number: Number)
    | List(items: seq<Value>)
    | Dict(members: seq<Member>)

  datatype Member = Member(key: string, value: Value)

  /** The conversions of the host: `Number` of an ASCII text, and UTF-8 decoding of ill-formed bytes. */
  datatype Host = Host(number: seq<Byte> -> Number, lossy: seq<Byte> -> string)

  // ---------------------------------------------------------------- maps and their order

  ghost predicate DistinctKeys(s: seq<Member>) {
    forall i, j :: 0 <= i < j < |s| ==> s[i].key != s[j].key
  }

  /** `Map.set`: a known key keeps its place. */
  function Set(s: seq<Member>, key: string, value: Value): seq<Member> {
    if s == [] then [Member(key, value)]
    else if s[0].key == key then [Member(key, value)] + s[1..]
    else [s[0]] + Set(s[1..], key, value)
  }

  /** `Map.get`. */
  function Get(s: seq<Member>, key: string): Option<Value> {
    if s == [] then None else if s[0].key == key then Some(s[0].value) else Get(s[1..], key)
  }

  /** Keys compare by their encoded bytes. */
  predicate Before(a: string, b: string) {
    Utf8.BytesLe(Utf8.Encode(a), Utf8.Encode(b))
  }

  function Insert<T>(x: T, s: seq<T>, key: T -> string): seq<T> {
    if s == [] then [x] else if Before(key(x), key(s[0])) then [x] + s else [s[0]] + Insert(x, s[1..], key)
  }

  function Sort<T>(s: seq<T>, key: T -> string): seq<T> {
    if s == [] then [] else Insert(s[0], Sort(s[1..], key), key)
  }

  /** A key with the encoding of its value. */
  type Printed = (string, seq<Byte>)

  function MemberKey(m: Member): string {
    m.key
  }

  function PrintedKey(p: Printed): string {
    p.0
  }

  // ---------------------------------------------------------------- the printer

  function PrintInt(n: int): string {
    if n < 0 then "-" + ToDecimal(-n) else ToDecimal(n)
  }

  function StringBytes(b: seq<Byte>): seq<Byte> {
    Utf8.Encode(ToDecimal(|b|)) + [COLON] + b
  }

  /** Numbers are safe integers, strings have a safe length, and keys are distinct, as in every `Map`. */
  ghost predicate Encodable(v: Value) {
    match v
    case Bytes(b) => |b| <= MAX_SAFE_INTEGER
    case Text(s) => |Utf8.Encode(s)| <= MAX_SAFE_INTEGER
    case Num(number) => number.Whole? && -(MAX_SAFE_INTEGER as int) <= number.n <= MAX_SAFE_INTEGER
    case List(items) => forall k :: 0 <= k < |items| ==> Encodable(items[k])
    case Dict(members) =>
      && DistinctKeys(members)
      && forall k :: 0 <= k < |members| ==> |Utf8.Encode(members[k].key)| <= MAX_SAFE_INTEGER && Encodable(members[k].value)
  }

  function Flat(parts: seq<seq<Byte>>): seq<Byte> {
    if parts == [] then [] else Flat(Front(parts)) + Last(parts)
  }

  function MemberBytes(p: Printed): seq<Byte> {
    StringBytes(Utf8.Encode(p.0)) + p.1
  }

  function MemberParts(printed: seq<Printed>): (r: seq<seq<Byte>>)
    ensures |r| == |printed|
  {
    if printed == [] then [] else [MemberBytes(printed[0])] + MemberParts(printed[1..])
  }

  /** No number in the value is one that `bencode` throws for. */
  predicate Supported(v: Value) {
    match v
    case Bytes(_) => true
    case Text(_) => true
    case Num(number) => number.Whole?
    case List(items) => forall k :: 0 <= k < |items| ==> Supported(items[k])
    case Dict(members) => forall k :: 0 <= k < |members| ==> Supported(members[k].value)
  }

  /** `bencode`. */
  function Encoded(v: Value): Result<seq<Byte>, string> {
    if Supported(v) then Ok(Print(v)) else Err("unsupported bencode value")
  }

  /** The bytes of a supported value. */
  function Print(v: Value): seq<Byte> {
    match v
    case Bytes(b) => StringBytes(b)
    case Text(s) => StringBytes(Utf8.Encode(s))
    case Num(number) => if number.Whole? then [INT] + Utf8.Encode(PrintInt(number.n)) + [END] else []
    case List(items) => [LIST] + Flat(PrintAll(items)) + [END]
    case Dict(members) => [DICT] + Flat(MemberParts(Sort(PrintMembers(members), PrintedKey))) + [END]
  }

  function PrintAll(items: seq<Value>): (r: seq<seq<Byte>>)
    ensures |r| == |items|
    ensures forall k :: 0 <= k < |items| ==> r[k] == Print(items[k])
  {
    if items == [] then [] else [Print(items[0])] + PrintAll(items[1..])
  }

  function PrintMembers(members: seq<Member>): (r: seq<Printed>)
    ensures |r| == |members|
    ensures forall k :: 0 <= k < |members| ==> r[k] == (members[k].key, Print(members[k].value))
  {
    if members == [] then [] else [(members[0].key, Print(members[0].value))] + PrintMembers(members[1..])
  }

  /** What a value reads back as: text as its bytes, and maps in the order of the file. */
  function Canon(v: Value): Value {
    match v
    case Bytes(_) => v
    case Text(s) => Bytes(Utf8.Encode(s))
    case Num(_) => v
    case List(items) => List(CanonAll(items))
    case Dict(members) => Dict(Sort(CanonMembers(members), MemberKey))
  }

  function CanonAll(items: seq<Value>): (r: seq<Value>)
    ensures |r| == |items|
    ensures forall k :: 0 <= k < |items| ==> r[k] == Canon(items[k])
  {
    if items == [] then [] else [Canon(items[0])] + CanonAll(items[1..])
  }

  function CanonMembers(members: seq<Member>): (r: seq<Member>)
    ensures |r| == |members|
    ensures forall k :: 0 <= k < |members| ==> r[k] == Member(members[k].key, Canon(members[k].value))
  {
    if members == [] then [] else [Member(members[0].key, Canon(members[0].value))] + CanonMembers(members[1..])
  }

  // ---------------------------------------------------------------- what the parser reads

  /** `indexOf` from a position. */
  function IndexOf(bytes: seq<Byte>, b: Byte, from: nat): (r: Option<nat>)
    requires from <= |bytes|
    ensures r.Some? ==> from <= r.value < |bytes| && bytes[r.value] == b
    ensures forall i :: from <= i < (if r.Some? then r.value else |bytes|) ==> bytes[i] != b
    decreases |bytes| - from
  {
    if from == |bytes| then None
    else if bytes[from] == b then Some(from)
    else IndexOf(bytes, b, from + 1)
  }

  function KeyText(h: Host, bytes: seq<Byte>): string {
    var decoded := Utf8.Decode(bytes);
    if decoded.Some? then decoded.value else h.lossy(bytes)
  }

  /** One value from a position on, and the position after it. */
  function ParseAt(h: Host, bytes: seq<Byte>, pos: nat): (r: Result<(Value, nat), string>)
    requires pos <= |bytes|
    ensures r.Ok? ==> pos < r.value.1 <= |bytes|
    decreases |bytes| - pos, 0
  {
    if pos == |bytes| then Err("unexpected marker")
    else if bytes[pos] == INT then
      var end := IndexOf(bytes, END, pos + 1);
      if end.None? then Err("malformed integer") else Ok((Num(h.number(bytes[pos + 1..end.value])), end.value + 1))
    else if bytes[pos] == LIST then
      var r := ItemsAt(h, bytes, pos + 1, []);
      if r.Err? then Err(r.error) else Ok((List(r.value.0), r.value.1))
    else if bytes[pos] == DICT then
      var r := MembersAt(h, bytes, pos + 1, []);
      if r.Err? then Err(r.error) else Ok((Dict(r.value.0), r.value.1))
    else if 0x30 <= bytes[pos] <= 0x39 then
      var separator := IndexOf(bytes, COLON, pos);
      if separator.None? then Err("malformed byte string") else
        var start := separator.value + 1;
        var length := h.number(bytes[pos..separator.value]);
        if length.NotWhole? || length.n < 0 || start + length.n > |bytes| then Err("truncated byte string")
        else Ok((Bytes(bytes[start..start + length.n]), start + length.n))
    else Err("unexpected marker")
  }

  function ItemsAt(h: Host, bytes: seq<Byte>, pos: nat, values: seq<Value>): (r: Result<(seq<Value>, nat), string>)
    requires pos <= |bytes|
    ensures r.Ok? ==> pos < r.value.1 <= |bytes|
    decreases |bytes| - pos, 1
  {
    if pos < |bytes| && bytes[pos] == END then Ok((values, pos + 1)) else
      var item := ParseAt(h, bytes, pos);
      if item.Err? then Err(item.error) else ItemsAt(h, bytes, item.value.1, values + [item.value.0])
  }

  function MembersAt(h: Host, bytes: seq<Byte>, pos: nat, values: seq<Member>): (r: Result<(seq<Member>, nat), string>)
    requires pos <= |bytes|
    ensures r.Ok? ==> pos < r.value.1 <= |bytes|
    decreases |bytes| - pos, 1
  {
    if pos < |bytes| && bytes[pos] == END then Ok((values, pos + 1)) else
      var key := ParseAt(h, bytes, pos);
      if key.Err? then Err(key.error)
      else if !key.value.0.Bytes? then Err("malformed dictionary key")
      else
        var value := ParseAt(h, bytes, key.value.1);
        if value.Err? then Err(value.error)
        else MembersAt(h, bytes, value.value.1, Set(values, KeyText(h, key.value.0.bytes), value.value.0))
  }

  function Decoded(h: Host, bytes: seq<Byte>): Result<Value, string> {
    var r := ParseAt(h, bytes, 0);
    if r.Err? then Err(r.error)
    else if r.value.1 != |bytes| then Err("trailing data")
    else Ok(r.value.0)
  }

  // ---------------------------------------------------------------- the parser

  class Decoder {
    const bytes: seq<Byte>
    const host: Host
    var position: nat

    constructor (bytes: seq<Byte>, host: Host)
      ensures this.bytes == bytes && this.host == host && position == 0
    {
      this.bytes, this.host, position := bytes, host, 0;
    }

    /** The inner `parse`: it advances the shared position and collects lists and maps in loops. */
    method Parse() returns (r: Result<Value, string>)
      requires position <= |bytes|
      modifies this
      ensures position <= |bytes|
      ensures var spec := ParseAt(host, bytes, old(position));
        if spec.Ok? then r == Ok(spec.value.0) && position == spec.value.1 else r == Err(spec.error)
      decreases |bytes| - position
    {
      if position == |bytes| { return Err("unexpected marker"); }
      var marker := bytes[position];
      if marker == INT {
        position := position + 1;
        var end := IndexOf(bytes, END, position);
        if end.None? { return Err("malformed integer"); }
        var value := host.number(bytes[position..end.value]);
        position := end.value + 1;
        return Ok(Num(value));
      } else if marker == LIST {
        position := position + 1;
        var values := [];
        while !(position < |bytes| && bytes[position] == END)
          invariant old(position) < position <= |bytes|
          invariant ItemsAt(host, bytes, old(position) + 1, []) == ItemsAt(host, bytes, position, values)
          decreases |bytes| - position
        {
          var item := Parse();
          if item.Err? { return item; }
          values := values + [item.value];
        }
        position := position + 1;
        return Ok(List(values));
      } else if marker == DICT {
        position := position + 1;
        var values := [];
        while !(position < |bytes| && bytes[position] == END)
          invariant old(position) < position <= |bytes|
          invariant MembersAt(host, bytes, old(position) + 1, []) == MembersAt(host, bytes, position, values)
          decreases |bytes| - position
        {
          var key := Parse();
          if key.Err? { return key; }
          if !key.value.Bytes? { return Err("malformed dictionary key"); }
          var value := Parse();
          if value.Err? { return value; }
          values := Set(values, KeyText(host, key.value.bytes), value.value);
        }
        position := position + 1;
        return Ok(Dict(values));
      } else if 0x30 <= marker <= 0x39 {
        var separator := IndexOf(bytes, COLON, position);
        if separator.None? { return Err("malformed byte string"); }
        var length := host.number(bytes[position..separator.value]);
        position := separator.value + 1;
        if length.NotWhole? || length.n < 0 || position + length.n > |bytes| { return Err("truncated byte string"); }
        var value := bytes[position..position + length.n];
        position := position + length.n;
        return Ok(Bytes(value));
      }
      return Err("unexpected marker");
    }

    method Decode() returns (r: Result<Value, string>)
      requires position == 0
      modifies this
      ensures r == Decoded(host, bytes)
    {
      r := Parse();
      if r.Ok? && position != |bytes| { return Err("trailing data"); }
    }
  }
}
