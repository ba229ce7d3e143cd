/** UTF-8, sections 3 and 4 of RFC 3629, on Unicode scalar values. */
module Utf8 {
  import opened Base
  import KeyOrder

  function EncodeScalar(c: char): (bytes: seq<Byte>)
    ensures 1 <= |bytes| <= 4
  {
    var n := c as int;
    var high, higher := n / 0x40, n / 0x40 / 0x40;
    if n < 0x80 then [n]
    else if n < 0x800 then [0xC0 + high, 0x80 + n % 0x40]
    else if n < 0x1_0000 then [0xE0 + higher, 0x80 + high % 0x40, 0x80 + n % 0x40]
    else [0xF0 + higher / 0x40, 0x80 + higher % 0x40, 0x80 + high % 0x40, 0x80 + n % 0x40]
  }

  function Encode(s: string): seq<Byte> {
    if s == "" then [] else EncodeScalar(s[0]) + Encode(s[1..])
  }

  predicate Continuation(b: Byte) {
    0x80 <= b < 0xC0
  }

  predicate Tail(bytes: seq<Byte>, count: nat) {
    |bytes| > count && forall k :: 1 <= k <= count ==> Continuation(bytes[k])
  }

  predicate IsScalar(n: int) {
    0 <= n < 0xD800 || 0xE000 <= n < 0x11_0000
  }

  /** The value at the front of `bytes` and its length; not for overlong forms, surrogates, or values too large. */
  function DecodeScalar(bytes: seq<Byte>): (r: Option<(char, nat)>)
    ensures r.Some? ==> 1 <= r.value.1 <= |bytes|
  {
    if bytes == [] then None
    else if bytes[0] < 0x80 then Some((bytes[0] as char, 1))
    else if 0xC0 <= bytes[0] < 0xE0 && Tail(bytes, 1) then
      var n := Join(bytes[0] as int - 0xC0, bytes[1]);
      if n >= 0x80 then Some((n as char, 2)) else None
    else if 0xE0 <= bytes[0] < 0xF0 && Tail(bytes, 2) then
      var n := Join(Join(bytes[0] as int - 0xE0, bytes[1]), bytes[2]);
      if n >= 0x800 && IsScalar(n) then Some((n as char, 3)) else None
    else if 0xF0 <= bytes[0] < 0xF8 && Tail(bytes, 3) then
      var n := Join(Join(Join(bytes[0] as int - 0xF0, bytes[1]), bytes[2]), bytes[3]);
      if n >= 0x1_0000 && IsScalar(n) then Some((n as char, 4)) else None
    else None
  }

  /** Six more bits. */
  function Join(high: int, b: Byte): (n: int)
    requires Continuation(b)
    ensures n / 0x40 == high && n % 0x40 == b as int - 0x80
  {
    high * 0x40 + (b as int - 0x80)
  }

  lemma JoinUnique(n: int, b: Byte)
    requires Continuation(b) && b as int - 0x80 == n % 0x40
    ensures Join(n / 0x40, b) == n
  {
  }

  function Decode(bytes: seq<Byte>): Option<string> {
    if bytes == [] then Some("") else
      var first := DecodeScalar(bytes);
      if first.None? then None else
        var rest := Decode(bytes[first.value.1..]);
        if rest.None? then None else Some([first.value.0] + rest.value)
  }

  lemma ScalarDecodes(c: char, rest: seq<Byte>)
    ensures DecodeScalar(EncodeScalar(c) + rest) == Some((c, |EncodeScalar(c)|))
  {
    var n := c as int;
    assert IsScalar(n);
    var front := EncodeScalar(c);
    var bytes := front + rest;
    assert forall k :: 0 <= k < |front| ==> bytes[k] == front[k];
    if |front| >= 2 {
      JoinUnique(n, front[|front| - 1]);
    }
    if |front| >= 3 {
      JoinUnique(n / 0x40, front[|front| - 2]);
    }
    if |front| >= 4 {
      JoinUnique(n / 0x40 / 0x40, front[1]);
    }
  }

  lemma DecodeCons(c: char, rest: seq<Byte>)
    requires Decode(rest).Some?
    ensures Decode(EncodeScalar(c) + rest) == Some([c] + Decode(rest).value)
  {
    ScalarDecodes(c, rest);
    assert (EncodeScalar(c) + rest)[|EncodeScalar(c)|..] == rest;
  }

  /** What was encoded decodes to the same text. */
  lemma {:induction false} EncodedDecodes(s: string)
    ensures Decode(Encode(s)) == Some(s)
  {
    if s != "" {
      EncodedDecodes(s[1..]);
      DecodeCons(s[0], Encode(s[1..]));
      assert s == [s[0]] + s[1..];
    }
  }

  lemma DecodeSplits(bytes: seq<Byte>)
    requires bytes != [] && Decode(bytes).Some?
    ensures var first := DecodeScalar(bytes);
      && first.Some? && Decode(bytes[first.value.1..]).Some?
      && Decode(bytes).value == [first.value.0] + Decode(bytes[first.value.1..]).value
  {
  }

  lemma EncodeCons(c: char, s: string)
    ensures Encode([c] + s) == EncodeScalar(c) + Encode(s)
  {
    assert ([c] + s)[1..] == s;
  }

  /** Only well-formed encodings decode: nothing else is accepted. */
  lemma {:induction false} DecodedEncodes(bytes: seq<Byte>)
    requires Decode(bytes).Some?
    ensures Encode(Decode(bytes).value) == bytes
  {
    if bytes != [] {
      DecodeSplits(bytes);
      DecodedScalarEncodes(bytes);
      var (c, length) := DecodeScalar(bytes).value;
      DecodedEncodes(bytes[length..]);
      EncodeCons(c, Decode(bytes[length..]).value);
      assert bytes == bytes[..length] + bytes[length..];
    }
  }

  lemma DecodedScalarEncodes(bytes: seq<Byte>)
    requires DecodeScalar(bytes).Some?
    ensures var (c, length) := DecodeScalar(bytes).value; bytes[..length] == EncodeScalar(c)
  {
  }

  // ---------------------------------------------------------------- order

  /** `Buffer.compare(a, b) <= 0`. */
  predicate BytesLe(a: seq<Byte>, b: seq<Byte>) {
    a == [] || (b != [] && (a[0] < b[0] || (a[0] == b[0] && BytesLe(a[1..], b[1..]))))
  }

  lemma {:induction false} LessAt(a: seq<Byte>, b: seq<Byte>, i: nat)
    requires i < |a| && i < |b| && a[..i] == b[..i] && a[i] < b[i]
    ensures BytesLe(a, b) && !BytesLe(b, a)
  {
    if i > 0 {
      assert a[0] == a[..i][0] && b[0] == b[..i][0];
      assert a[1..][..i - 1] == a[..i][1..] && b[1..][..i - 1] == b[..i][1..];
      LessAt(a[1..], b[1..], i - 1);
    }
  }

  lemma {:induction false} SameFront(x: seq<Byte>, a: seq<Byte>, b: seq<Byte>)
    ensures BytesLe(x + a, x + b) <==> BytesLe(a, b)
  {
    if x == [] {
      assert x + a == a && x + b == b;
    } else {
      assert (x + a)[1..] == x[1..] + a && (x + b)[1..] == x[1..] + b;
      SameFront(x[1..], a, b);
    }
  }

  lemma ShorterLess(c: char, d: char)
    requires c < d && |EncodeScalar(c)| != |EncodeScalar(d)|
    ensures EncodeScalar(c)[0] < EncodeScalar(d)[0]
  {
  }

  /** The first byte in which two encoded characters differ orders them. */
  lemma ScalarLessAt(c: char, d: char, i: nat)
    requires c < d && |EncodeScalar(c)| == |EncodeScalar(d)| && i < |EncodeScalar(c)|
    requires forall k :: 0 <= k < i ==> EncodeScalar(c)[k] == EncodeScalar(d)[k]
    requires EncodeScalar(c)[i] != EncodeScalar(d)[i]
    ensures EncodeScalar(c)[i] < EncodeScalar(d)[i]
  {
    var front, back := EncodeScalar(c), EncodeScalar(d);
    assert i > 0 ==> front[0] == back[0];
    assert i > 1 ==> front[1] == back[1];
    assert i > 2 ==> front[2] == back[2];
    var m, n := c as int, d as int;
    SixBits(m, n);
    SixBits(m / 0x40, n / 0x40);
    SixBits(m / 0x40 / 0x40, n / 0x40 / 0x40);
  }

  lemma SixBits(m: nat, n: nat)
    requires m <= n
    ensures m / 0x40 <= n / 0x40
    ensures m / 0x40 == n / 0x40 ==> m % 0x40 <= n % 0x40 && (m % 0x40 == n % 0x40 ==> m == n)
  {
  }

  lemma ScalarLess(c: char, d: char, x: seq<Byte>, y: seq<Byte>)
    requires c < d
    ensures BytesLe(EncodeScalar(c) + x, EncodeScalar(d) + y) && !BytesLe(EncodeScalar(d) + y, EncodeScalar(c) + x)
  {
    var front, back := EncodeScalar(c), EncodeScalar(d);
    if |front| != |back| {
      ShorterLess(c, d);
      LessAt(front + x, back + y, 0);
    } else {
      assert front != back by {
        ScalarDecodes(c, []);
        ScalarDecodes(d, []);
      }
      var i := FirstDifference(front, back);
      ScalarLessAt(c, d, i);
      assert (front + x)[..i] == front[..i] == back[..i] == (back + y)[..i];
      LessAt(front + x, back + y, i);
    }
  }

  function FirstDifference(a: seq<Byte>, b: seq<Byte>): (i: nat)
    requires |a| == |b| && a != b
    ensures i < |a| && a[..i] == b[..i] && a[i] != b[i]
    ensures forall k :: 0 <= k < i ==> a[k] == b[k]
  {
    if a[0] != b[0] then 0 else
      assert a == [a[0]] + a[1..] && b == [b[0]] + b[1..];
      var i := FirstDifference(a[1..], b[1..]) + 1;
      assert a[..i] == [a[0]] + a[1..][..i - 1] && b[..i] == [b[0]] + b[1..][..i - 1];
      i
  }

  /** Encoded texts compare byte by byte as the texts compare character by character. */
  lemma {:induction false} OrderAgrees(a: string, b: string)
    ensures BytesLe(Encode(a), Encode(b)) <==> KeyOrder.IdLe(a, b)
  {
    if a != "" && b != "" {
      if a[0] == b[0] {
        SameFront(EncodeScalar(a[0]), Encode(a[1..]), Encode(b[1..]));
        OrderAgrees(a[1..], b[1..]);
      } else if a[0] < b[0] {
        ScalarLess(a[0], b[0], Encode(a[1..]), Encode(b[1..]));
      } else {
        ScalarLess(b[0], a[0], Encode(b[1..]), Encode(a[1..]));
      }
    }
  }
}
