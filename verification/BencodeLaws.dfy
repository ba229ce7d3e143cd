/** The round trip between the bencode printer and parser, and what the parser rejects. */
module BencodeLaws {
  import opened Base
  import opened Decimal
  import Utf8
  import KeyOrder
  import opened Bencode

  /** `Number` reads what the printer wrote for a safe integer. */
  ghost predicate ReadsIntegers(h: Host) {
    forall n: int :: -(MAX_SAFE_INTEGER as int) <= n <= MAX_SAFE_INTEGER ==> h.number(Utf8.Encode(PrintInt(n))) == Whole(n)
  }

  ghost predicate At(bytes: seq<Byte>, pos: nat, part: seq<Byte>) {
    pos + |part| <= |bytes| && bytes[pos..pos + |part|] == part
  }

  /** Wherever these bytes stand, the parser reads this value and stops behind them. */
  ghost predicate Reads(h: Host, part: seq<Byte>, value: Value) {
    forall bytes, pos: nat {:trigger At(bytes, pos, part)} :: At(bytes, pos, part) ==> ParseAt(h, bytes, pos) == Ok((value, pos + |part|))
  }

  lemma AtSplit(bytes: seq<Byte>, pos: nat, a: seq<Byte>, b: seq<Byte>)
    requires At(bytes, pos, a + b)
    ensures At(bytes, pos, a) && At(bytes, pos + |a|, b)
  {
    assert (a + b)[..|a|] == a && (a + b)[|a|..] == b;
  }

  lemma {:induction false} AsciiBytes(s: string)
    requires forall k :: 0 <= k < |s| ==> s[k] < 128 as char
    ensures |Utf8.Encode(s)| == |s|
    ensures forall k :: 0 <= k < |s| ==> Utf8.Encode(s)[k] == s[k] as int
  {
    if s != "" {
      AsciiBytes(s[1..]);
    }
  }

  lemma PrintedInt(n: int)
    ensures PrintInt(n) != ""
    ensures forall b :: b in Utf8.Encode(PrintInt(n)) ==> b == 0x2D || 0x30 <= b <= 0x39
    ensures n >= 0 ==> Utf8.Encode(PrintInt(n)) != [] && (forall b :: b in Utf8.Encode(PrintInt(n)) ==> 0x30 <= b <= 0x39)
  {
    var m := if n < 0 then -n else n;
    PrintedDigits(m);
    assert PrintInt(n) == (if n < 0 then "-" else "") + ToDecimal(m);
    AsciiBytes(PrintInt(n));
  }

  lemma DigitsOnly(n: int)
    ensures forall k :: 0 <= k < |Utf8.Encode(PrintInt(n))| ==> Utf8.Encode(PrintInt(n))[k] != END && Utf8.Encode(PrintInt(n))[k] != COLON
    ensures n >= 0 ==> Utf8.Encode(PrintInt(n)) != [] && 0x30 <= Utf8.Encode(PrintInt(n))[0] <= 0x39
  {
    PrintedInt(n);
    var digits := Utf8.Encode(PrintInt(n));
    assert forall k :: 0 <= k < |digits| ==> digits[k] in digits;
  }

  /** The first occurrence of a mark right behind a part that does not contain it. */
  lemma MarkBehind(bytes: seq<Byte>, pos: nat, part: seq<Byte>, mark: Byte)
    requires At(bytes, pos, part + [mark])
    requires forall k :: 0 <= k < |part| ==> part[k] != mark
    ensures IndexOf(bytes, mark, pos) == Some(pos + |part|) && bytes[pos..pos + |part|] == part
  {
    AtSplit(bytes, pos, part, [mark]);
    var k := pos + |part|;
    assert bytes[k] == bytes[k..k + 1][0];
    assert forall i :: pos <= i < k ==> bytes[i] == bytes[pos..k][i - pos] == part[i - pos];
  }

  lemma StringReadsAt(h: Host, b: seq<Byte>, bytes: seq<Byte>, pos: nat)
    requires ReadsIntegers(h) && |b| <= MAX_SAFE_INTEGER && At(bytes, pos, StringBytes(b))
    ensures ParseAt(h, bytes, pos) == Ok((Bytes(b), pos + |StringBytes(b)|))
  {
    var digits := Utf8.Encode(PrintInt(|b|));
    DigitsOnly(|b|);
    AtSplit(bytes, pos, digits + [COLON], b);
    MarkBehind(bytes, pos, digits, COLON);
    assert bytes[pos] == bytes[pos..pos + |digits|][0];
    assert h.number(digits) == Whole(|b|);
  }

  lemma StringReads(h: Host, b: seq<Byte>)
    requires ReadsIntegers(h) && |b| <= MAX_SAFE_INTEGER
    ensures Reads(h, StringBytes(b), Bytes(b))
    ensures Starts(StringBytes(b))
  {
    DigitsOnly(|b|);
    assert StringBytes(b)[0] == Utf8.Encode(PrintInt(|b|))[0];
    forall bytes, pos: nat | At(bytes, pos, StringBytes(b))
      ensures ParseAt(h, bytes, pos) == Ok((Bytes(b), pos + |StringBytes(b)|))
    {
      StringReadsAt(h, b, bytes, pos);
    }
  }

  lemma IntReadsAt(h: Host, n: int, bytes: seq<Byte>, pos: nat)
    requires ReadsIntegers(h) && -(MAX_SAFE_INTEGER as int) <= n <= MAX_SAFE_INTEGER
    requires At(bytes, pos, Print(Num(Whole(n))))
    ensures ParseAt(h, bytes, pos) == Ok((Num(Whole(n)), pos + |Print(Num(Whole(n)))|))
  {
    var digits := Utf8.Encode(PrintInt(n));
    DigitsOnly(n);
    assert Print(Num(Whole(n))) == [INT] + (digits + [END]);
    AtSplit(bytes, pos, [INT], digits + [END]);
    assert bytes[pos] == bytes[pos..pos + 1][0];
    MarkBehind(bytes, pos + 1, digits, END);
    assert h.number(digits) == Whole(n);
  }

  lemma IntReads(h: Host, n: int)
    requires ReadsIntegers(h) && -(MAX_SAFE_INTEGER as int) <= n <= MAX_SAFE_INTEGER
    ensures Reads(h, Print(Num(Whole(n))), Num(Whole(n)))
  {
    forall bytes, pos: nat | At(bytes, pos, Print(Num(Whole(n))))
      ensures ParseAt(h, bytes, pos) == Ok((Num(Whole(n)), pos + |Print(Num(Whole(n)))|))
    {
      IntReadsAt(h, n, bytes, pos);
    }
  }

  predicate Starts(part: seq<Byte>) {
    part != [] && part[0] != END
  }

  lemma PrintStarts(v: Value)
    requires Encodable(v)
    ensures Starts(Print(v))
  {
    if v.Bytes? || v.Text? {
      var b := if v.Bytes? then v.bytes else Utf8.Encode(v.text);
      DigitsOnly(|b|);
      assert StringBytes(b)[0] == Utf8.Encode(PrintInt(|b|))[0];
    }
  }

  lemma {:induction false} ItemsRead(h: Host, parts: seq<seq<Byte>>, values: seq<Value>, bytes: seq<Byte>, pos: nat, acc: seq<Value>)
    requires ItemForms(h, parts, values) && At(bytes, pos, Flat(parts))
    ensures ItemsAt(h, bytes, pos, acc) == ItemsAt(h, bytes, pos + |Flat(parts)|, acc + values)
    decreases |parts|
  {
    if parts == [] {
      assert acc + values == acc;
    } else {
      var front := Flat(Front(parts));
      AtSplit(bytes, pos, front, Last(parts));
      ItemsRead(h, Front(parts), Front(values), bytes, pos, acc);
      ItemReads(h, Last(parts), Last(values), bytes, pos + |front|, acc + Front(values));
      Regrouped(acc, values);
    }
  }

  lemma Regrouped<T>(acc: seq<T>, values: seq<T>)
    requires values != []
    ensures acc + Front(values) + [Last(values)] == acc + values
  {
  }

  lemma ItemsEnd(h: Host, bytes: seq<Byte>, pos: nat, acc: seq<Value>)
    requires At(bytes, pos, [END])
    ensures ItemsAt(h, bytes, pos, acc) == Ok((acc, pos + 1))
  {
    assert bytes[pos] == bytes[pos..pos + 1][0];
  }

  ghost predicate ItemForms(h: Host, parts: seq<seq<Byte>>, values: seq<Value>) {
    && |parts| == |values|
    && forall k :: 0 <= k < |parts| ==> Reads(h, parts[k], values[k]) && Starts(parts[k])
  }

  lemma ItemReads(h: Host, part: seq<Byte>, value: Value, bytes: seq<Byte>, pos: nat, acc: seq<Value>)
    requires Reads(h, part, value) && Starts(part) && At(bytes, pos, part)
    ensures ItemsAt(h, bytes, pos, acc) == ItemsAt(h, bytes, pos + |part|, acc + [value])
  {
    assert bytes[pos] == bytes[pos..pos + |part|][0];
  }

  /** `Map.set` of a key that is not there yet appends. */
  lemma {:induction false} SetAppends(s: seq<Member>, key: string, value: Value)
    requires forall k :: 0 <= k < |s| ==> s[k].key != key
    ensures Set(s, key, value) == s + [Member(key, value)]
  {
    if s != [] {
      SetAppends(s[1..], key, value);
      assert s == [s[0]] + s[1..];
    }
  }

  ghost predicate NoKey(s: seq<Member>, key: string) {
    forall k :: 0 <= k < |s| ==> s[k].key != key
  }

  /** Wherever these bytes stand inside a map without this key, the parser adds the member and goes on behind them. */
  ghost predicate ReadsMember(h: Host, part: seq<Byte>, m: Member) {
    forall bytes, pos: nat, acc {:trigger At(bytes, pos, part), NoKey(acc, m.key)} ::
      At(bytes, pos, part) && NoKey(acc, m.key) ==>
        MembersAt(h, bytes, pos, acc) == MembersAt(h, bytes, pos + |part|, acc + [m])
  }

  lemma MemberReadsAt(h: Host, keyPart: seq<Byte>, name: seq<Byte>, valuePart: seq<Byte>, m: Member,
                      bytes: seq<Byte>, pos: nat, acc: seq<Member>)
    requires Reads(h, keyPart, Bytes(name)) && Starts(keyPart) && KeyText(h, name) == m.key && Reads(h, valuePart, m.value)
    requires At(bytes, pos, keyPart + valuePart) && NoKey(acc, m.key)
    ensures MembersAt(h, bytes, pos, acc) == MembersAt(h, bytes, pos + |keyPart + valuePart|, acc + [m])
  {
    AtSplit(bytes, pos, keyPart, valuePart);
    assert bytes[pos] == bytes[pos..pos + |keyPart|][0];
    SetAppends(acc, m.key, m.value);
  }

  lemma MemberReads(h: Host, keyPart: seq<Byte>, name: seq<Byte>, valuePart: seq<Byte>, m: Member)
    requires Reads(h, keyPart, Bytes(name)) && Starts(keyPart) && KeyText(h, name) == m.key && Reads(h, valuePart, m.value)
    ensures ReadsMember(h, keyPart + valuePart, m)
  {
    forall bytes, pos: nat, acc | At(bytes, pos, keyPart + valuePart) && NoKey(acc, m.key)
      ensures MembersAt(h, bytes, pos, acc) == MembersAt(h, bytes, pos + |keyPart + valuePart|, acc + [m])
    {
      MemberReadsAt(h, keyPart, name, valuePart, m, bytes, pos, acc);
    }
  }

  ghost predicate MemberForms(h: Host, parts: seq<seq<Byte>>, members: seq<Member>) {
    && |parts| == |members|
    && forall k :: 0 <= k < |parts| ==> ReadsMember(h, parts[k], members[k])
  }

  lemma MemberAdds(h: Host, part: seq<Byte>, m: Member, bytes: seq<Byte>, pos: nat, acc: seq<Member>)
    requires ReadsMember(h, part, m) && At(bytes, pos, part) && NoKey(acc, m.key)
    ensures MembersAt(h, bytes, pos, acc) == MembersAt(h, bytes, pos + |part|, acc + [m])
  {
  }

  /** No key of the one is a key of the other. */
  ghost predicate Apart(acc: seq<Member>, members: seq<Member>) {
    forall k :: 0 <= k < |members| ==> NoKey(acc, members[k].key)
  }

  lemma ApartFront(acc: seq<Member>, members: seq<Member>)
    requires members != [] && DistinctKeys(members) && Apart(acc, members)
    ensures Apart(acc, Front(members)) && DistinctKeys(Front(members)) && NoKey(acc + Front(members), Last(members).key)
  {
    assert NoKey(acc, members[|members| - 1].key);
  }

  lemma {:induction false} MembersRead(h: Host, parts: seq<seq<Byte>>, members: seq<Member>, bytes: seq<Byte>, pos: nat, acc: seq<Member>)
    requires MemberForms(h, parts, members) && DistinctKeys(members) && Apart(acc, members) && At(bytes, pos, Flat(parts))
    ensures MembersAt(h, bytes, pos, acc) == MembersAt(h, bytes, pos + |Flat(parts)|, acc + members)
    decreases |parts|
  {
    if parts == [] {
      assert acc + members == acc;
    } else {
      var front := Flat(Front(parts));
      AtSplit(bytes, pos, front, Last(parts));
      ApartFront(acc, members);
      MembersRead(h, Front(parts), Front(members), bytes, pos, acc);
      MemberAdds(h, Last(parts), Last(members), bytes, pos + |front|, acc + Front(members));
      Regrouped(acc, members);
    }
  }

  lemma MembersEnd(h: Host, bytes: seq<Byte>, pos: nat, acc: seq<Member>)
    requires At(bytes, pos, [END])
    ensures MembersAt(h, bytes, pos, acc) == Ok((acc, pos + 1))
  {
    assert bytes[pos] == bytes[pos..pos + 1][0];
  }

  // ---------------------------------------------------------------- sorting

  lemma BeforeTotal(a: string, b: string)
    ensures Before(a, b) || Before(b, a)
  {
    Utf8.OrderAgrees(a, b);
    Utf8.OrderAgrees(b, a);
    KeyOrder.IdLeTotal(a, b);
  }

  lemma BeforeAntisymmetric(a: string, b: string)
    requires Before(a, b) && Before(b, a)
    ensures a == b
  {
    Utf8.OrderAgrees(a, b);
    Utf8.OrderAgrees(b, a);
    KeyOrder.IdLeAntisymmetric(a, b);
  }

  lemma BeforeTransitive(a: string, b: string, c: string)
    requires Before(a, b) && Before(b, c)
    ensures Before(a, c)
  {
    Utf8.OrderAgrees(a, b);
    Utf8.OrderAgrees(b, c);
    Utf8.OrderAgrees(a, c);
    KeyOrder.IdLeTransitive(a, b, c);
  }

  ghost predicate SortedBy<T>(s: seq<T>, key: T -> string) {
    forall i, j :: 0 <= i < j < |s| ==> Before(key(s[i]), key(s[j]))
  }

  ghost predicate DistinctBy<T>(s: seq<T>, key: T -> string) {
    forall i, j :: 0 <= i < j < |s| ==> key(s[i]) != key(s[j])
  }

  lemma {:induction false} InsertCorrect<T>(x: T, s: seq<T>, key: T -> string)
    requires SortedBy(s, key)
    ensures SortedBy(Insert(x, s, key), key) && multiset(Insert(x, s, key)) == multiset{x} + multiset(s)
  {
    if s == [] {
    } else if Before(key(x), key(s[0])) {
      forall j | 0 <= j < |s| ensures Before(key(x), key(s[j])) {
        if j > 0 { BeforeTransitive(key(x), key(s[0]), key(s[j])); }
      }
    } else {
      InsertCorrect(x, s[1..], key);
      var rest := Insert(x, s[1..], key);
      assert s == [s[0]] + s[1..];
      forall j | 0 <= j < |rest| ensures Before(key(s[0]), key(rest[j])) {
        assert rest[j] in multiset(rest);
        BeforeTotal(key(x), key(s[0]));
        assert rest[j] == x || rest[j] in s[1..];
      }
    }
  }

  lemma {:induction false} SortCorrect<T>(s: seq<T>, key: T -> string)
    ensures SortedBy(Sort(s, key), key) && multiset(Sort(s, key)) == multiset(s)
    ensures |Sort(s, key)| == |s|
  {
    if s != [] {
      SortCorrect(s[1..], key);
      InsertCorrect(s[0], Sort(s[1..], key), key);
      assert s == [s[0]] + s[1..];
    }
    assert |multiset(Sort(s, key))| == |Sort(s, key)| && |multiset(s)| == |s|;
  }

  lemma SortMembers<T>(s: seq<T>, key: T -> string, x: T)
    ensures x in Sort(s, key) <==> x in s
  {
    SortCorrect(s, key);
    assert x in Sort(s, key) <==> x in multiset(Sort(s, key));
    assert x in s <==> x in multiset(s);
  }

  lemma {:induction false} SortedStays<T>(s: seq<T>, key: T -> string)
    requires SortedBy(s, key)
    ensures Sort(s, key) == s
  {
    if s != [] {
      SortedStays(s[1..], key);
      if |s| > 1 { assert Before(key(s[0]), key(s[1])); }
      assert s == [s[0]] + s[1..];
    }
  }

  /** Keys that are distinct stay distinct in any other order of the same elements. */
  lemma {:induction false} DistinctAnyOrder<T>(a: seq<T>, b: seq<T>, key: T -> string)
    requires DistinctBy(a, key) && multiset(a) == multiset(b)
    ensures DistinctBy(b, key)
  {
    forall i, j | 0 <= i < j < |b| ensures key(b[i]) != key(b[j]) {
      assert b[i] in multiset(b) && b[j] in multiset(b);
      assert b[i] in a && b[j] in a;
      if b[i] == b[j] {
        TwiceIn(b, i, j);
        var x := b[i];
        assert multiset(a)[x] >= 2;
        OnceIn(a, key, x);
      } else {
        var k :| 0 <= k < |a| && a[k] == b[i];
        var l :| 0 <= l < |a| && a[l] == b[j];
        assert key(a[k]) != key(a[l]) || k == l;
      }
    }
  }

  lemma TwiceIn<T>(s: seq<T>, i: nat, j: nat)
    requires i < j < |s| && s[i] == s[j]
    ensures multiset(s)[s[i]] >= 2
  {
    assert s == s[..j] + s[j..];
    assert s[i] == s[..j][i] && s[j] == s[j..][0];
    assert s[i] in s[..j] && s[i] in s[j..];
  }

  lemma {:induction false} OnceIn<T>(s: seq<T>, key: T -> string, x: T)
    requires DistinctBy(s, key)
    ensures multiset(s)[x] <= 1
  {
    if s != [] {
      OnceIn(s[1..], key, x);
      assert s == [s[0]] + s[1..];
      assert s[0] !in s[1..] by {
        assert forall k :: 0 <= k < |s[1..]| ==> s[1..][k] == s[k + 1] && key(s[k + 1]) != key(s[0]);
      }
    }
  }

  lemma SameHead<T>(a: seq<T>, b: seq<T>, key: T -> string)
    requires a != [] && b != [] && SortedBy(a, key) && SortedBy(b, key) && DistinctBy(b, key)
    requires a[0] in b && b[0] in a
    ensures a[0] == b[0]
  {
    var k :| 0 <= k < |b| && b[k] == a[0];
    var l :| 0 <= l < |a| && a[l] == b[0];
    if k > 0 && l > 0 {
      BeforeAntisymmetric(key(a[0]), key(b[0]));
    }
  }

  /** A map has one sorted order. */
  lemma {:induction false} SortedUnique<T>(a: seq<T>, b: seq<T>, key: T -> string)
    requires SortedBy(a, key) && SortedBy(b, key) && DistinctBy(b, key)
    requires multiset(a) == multiset(b)
    ensures a == b
    decreases |a|
  {
    assert |a| == |multiset(a)| == |multiset(b)| == |b|;
    if a != [] {
      assert a[0] in multiset(b) && b[0] in multiset(a);
      SameHead(a, b, key);
      assert a == [a[0]] + a[1..] && b == [b[0]] + b[1..];
      assert multiset(a[1..]) == multiset(a) - multiset{a[0]};
      assert multiset(b[1..]) == multiset(b) - multiset{b[0]};
      SortedUnique(a[1..], b[1..], key);
    }
  }

  function Each<A, B>(f: A -> B, s: seq<A>): (r: seq<B>)
    ensures |r| == |s| && forall k :: 0 <= k < |s| ==> r[k] == f(s[k])
  {
    if s == [] then [] else [f(s[0])] + Each(f, s[1..])
  }

  lemma {:induction false} InsertEach<A, B>(f: A -> B, x: A, s: seq<A>, ka: A -> string, kb: B -> string)
    requires forall a :: a in [x] + s ==> kb(f(a)) == ka(a)
    ensures Insert(f(x), Each(f, s), kb) == Each(f, Insert(x, s, ka))
  {
    assert x in [x] + s;
    if s != [] {
      assert s[0] in [x] + s;
      if !Before(ka(x), ka(s[0])) {
        InsertEach(f, x, s[1..], ka, kb);
      } else {
        assert ([x] + s)[1..] == s;
      }
    }
  }

  /** Sorting commutes with a change of the elements that keeps their keys. */
  lemma {:induction false} SortEach<A, B>(f: A -> B, s: seq<A>, ka: A -> string, kb: B -> string)
    requires forall a :: a in s ==> kb(f(a)) == ka(a)
    ensures Sort(Each(f, s), kb) == Each(f, Sort(s, ka))
  {
    if s != [] {
      SortEach(f, s[1..], ka, kb);
      forall a | a in [s[0]] + Sort(s[1..], ka) ensures kb(f(a)) == ka(a) {
        SortMembers(s[1..], ka, a);
      }
      InsertEach(f, s[0], Sort(s[1..], ka), ka, kb);
    }
  }

  function PrintMember(m: Member): Printed {
    (m.key, Print(m.value))
  }

  function CanonMember(m: Member): Member {
    Member(m.key, Canon(m.value))
  }

  /** What the printer writes for a map, and what it reads back as, in the sorted order of the members. */
  lemma SortedForms(members: seq<Member>)
    ensures Sort(PrintMembers(members), PrintedKey) == Each(PrintMember, Sort(members, MemberKey))
    ensures Sort(CanonMembers(members), MemberKey) == Each(CanonMember, Sort(members, MemberKey))
  {
    assert PrintMembers(members) == Each(PrintMember, members);
    assert CanonMembers(members) == Each(CanonMember, members);
    SortEach(PrintMember, members, MemberKey, PrintedKey);
    SortEach(CanonMember, members, MemberKey, MemberKey);
  }

  // ---------------------------------------------------------------- the round trip

  /** Wherever a printed value stands, the parser reads its canonical form and stops right behind it. */
  lemma {:induction false} PrintReads(h: Host, v: Value)
    requires ReadsIntegers(h) && Encodable(v)
    ensures Reads(h, Print(v), Canon(v))
    decreases v
  {
    match v
    case Bytes(b) => StringReads(h, b);
    case Text(s) => StringReads(h, Utf8.Encode(s));
    case Num(number) => IntReads(h, number.n);
    case List(items) => ListReads(h, items);
    case Dict(members) => DictReads(h, members);
  }

  lemma ListReads(h: Host, items: seq<Value>)
    requires ReadsIntegers(h) && Encodable(List(items))
    ensures Reads(h, Print(List(items)), Canon(List(items)))
    decreases items
  {
    var parts, values := PrintAll(items), CanonAll(items);
    assert ItemForms(h, parts, values) by {
      forall k | 0 <= k < |items| ensures Reads(h, parts[k], values[k]) && Starts(parts[k]) {
        PrintReads(h, items[k]);
        PrintStarts(items[k]);
      }
    }
    ListReadsAll(h, parts, values);
  }

  lemma ListReadsAll(h: Host, parts: seq<seq<Byte>>, values: seq<Value>)
    requires ItemForms(h, parts, values)
    ensures Reads(h, [LIST] + Flat(parts) + [END], List(values))
  {
    forall bytes, pos: nat | At(bytes, pos, [LIST] + Flat(parts) + [END])
      ensures ParseAt(h, bytes, pos) == Ok((List(values), pos + |[LIST] + Flat(parts) + [END]|))
    {
      ListReadsAt(h, parts, values, bytes, pos);
    }
  }

  lemma ItemsToEnd(h: Host, parts: seq<seq<Byte>>, values: seq<Value>, bytes: seq<Byte>, pos: nat)
    requires ItemForms(h, parts, values) && At(bytes, pos, Flat(parts) + [END])
    ensures ItemsAt(h, bytes, pos, []) == Ok((values, pos + |Flat(parts)| + 1))
  {
    AtSplit(bytes, pos, Flat(parts), [END]);
    ItemsRead(h, parts, values, bytes, pos, []);
    assert [] + values == values;
    ItemsEnd(h, bytes, pos + |Flat(parts)|, values);
  }

  lemma ListReadsAt(h: Host, parts: seq<seq<Byte>>, values: seq<Value>, bytes: seq<Byte>, pos: nat)
    requires ItemForms(h, parts, values)
    requires At(bytes, pos, [LIST] + Flat(parts) + [END])
    ensures ParseAt(h, bytes, pos) == Ok((List(values), pos + |Flat(parts)| + 2))
  {
    assert [LIST] + Flat(parts) + [END] == [LIST] + (Flat(parts) + [END]);
    AtSplit(bytes, pos, [LIST], Flat(parts) + [END]);
    assert bytes[pos] == bytes[pos..pos + 1][0];
    ItemsToEnd(h, parts, values, bytes, pos + 1);
  }

  lemma MembersToEnd(h: Host, parts: seq<seq<Byte>>, members: seq<Member>, bytes: seq<Byte>, pos: nat)
    requires MemberForms(h, parts, members) && DistinctKeys(members) && At(bytes, pos, Flat(parts) + [END])
    ensures MembersAt(h, bytes, pos, []) == Ok((members, pos + |Flat(parts)| + 1))
  {
    AtSplit(bytes, pos, Flat(parts), [END]);
    MembersRead(h, parts, members, bytes, pos, []);
    assert [] + members == members;
    MembersEnd(h, bytes, pos + |Flat(parts)|, members);
  }

  lemma DictReadsAt(h: Host, parts: seq<seq<Byte>>, members: seq<Member>, bytes: seq<Byte>, pos: nat)
    requires MemberForms(h, parts, members) && DistinctKeys(members)
    requires At(bytes, pos, [DICT] + Flat(parts) + [END])
    ensures ParseAt(h, bytes, pos) == Ok((Dict(members), pos + |Flat(parts)| + 2))
  {
    assert [DICT] + Flat(parts) + [END] == [DICT] + (Flat(parts) + [END]);
    AtSplit(bytes, pos, [DICT], Flat(parts) + [END]);
    assert bytes[pos] == bytes[pos..pos + 1][0];
    MembersToEnd(h, parts, members, bytes, pos + 1);
  }

  lemma DictReads(h: Host, members: seq<Member>)
    requires ReadsIntegers(h) && Encodable(Dict(members))
    ensures Reads(h, Print(Dict(members)), Canon(Dict(members)))
    decreases members
  {
    forall k | 0 <= k < |members| ensures Reads(h, Print(members[k].value), Canon(members[k].value)) {
      PrintReads(h, members[k].value);
    }
    SortedForms(members);
    var sorted := Sort(members, MemberKey);
    SortedMemberForms(h, members, sorted);
    SortedKeysDiffer(members);
    DictReadsAll(h, MemberParts(Each(PrintMember, sorted)), Each(CanonMember, sorted));
  }

  lemma {:induction false} PartAt(printed: seq<Printed>, k: nat)
    requires k < |printed|
    ensures MemberParts(printed)[k] == MemberBytes(printed[k])
  {
    if k > 0 { PartAt(printed[1..], k - 1); }
  }

  /** The bytes of a member are read as its canonical form. */
  lemma MemberPrintReads(h: Host, m: Member)
    requires ReadsIntegers(h) && |Utf8.Encode(m.key)| <= MAX_SAFE_INTEGER && Reads(h, Print(m.value), Canon(m.value))
    ensures ReadsMember(h, MemberBytes(PrintMember(m)), CanonMember(m))
  {
    var name := Utf8.Encode(m.key);
    StringReads(h, name);
    Utf8.EncodedDecodes(m.key);
    MemberReads(h, StringBytes(name), name, Print(m.value), CanonMember(m));
  }

  lemma AllMemberForms(h: Host, members: seq<Member>)
    requires ReadsIntegers(h)
    requires forall k :: 0 <= k < |members| ==>
      |Utf8.Encode(members[k].key)| <= MAX_SAFE_INTEGER && Reads(h, Print(members[k].value), Canon(members[k].value))
    ensures MemberForms(h, MemberParts(Each(PrintMember, members)), Each(CanonMember, members))
  {
    var printed := Each(PrintMember, members);
    forall k | 0 <= k < |members| ensures ReadsMember(h, MemberParts(printed)[k], Each(CanonMember, members)[k]) {
      PartAt(printed, k);
      MemberPrintReads(h, members[k]);
    }
  }

  lemma SortedKeysDiffer(members: seq<Member>)
    requires DistinctKeys(members)
    ensures DistinctKeys(Each(CanonMember, Sort(members, MemberKey)))
  {
    var sorted := Sort(members, MemberKey);
    SortCorrect(members, MemberKey);
    DistinctAnyOrder(members, sorted, MemberKey);
    assert forall i, j :: 0 <= i < j < |sorted| ==> MemberKey(sorted[i]) != MemberKey(sorted[j]);
  }

  lemma SortedMemberForms(h: Host, members: seq<Member>, sorted: seq<Member>)
    requires ReadsIntegers(h) && Encodable(Dict(members)) && sorted == Sort(members, MemberKey)
    requires forall k :: 0 <= k < |members| ==> Reads(h, Print(members[k].value), Canon(members[k].value))
    ensures MemberForms(h, MemberParts(Each(PrintMember, sorted)), Each(CanonMember, sorted))
  {
    forall k | 0 <= k < |sorted|
      ensures |Utf8.Encode(sorted[k].key)| <= MAX_SAFE_INTEGER && Reads(h, Print(sorted[k].value), Canon(sorted[k].value))
    {
      SortMembers(members, MemberKey, sorted[k]);
    }
    AllMemberForms(h, sorted);
  }

  lemma DictReadsAll(h: Host, parts: seq<seq<Byte>>, members: seq<Member>)
    requires MemberForms(h, parts, members) && DistinctKeys(members)
    ensures Reads(h, [DICT] + Flat(parts) + [END], Dict(members))
  {
    forall bytes, pos: nat | At(bytes, pos, [DICT] + Flat(parts) + [END])
      ensures ParseAt(h, bytes, pos) == Ok((Dict(members), pos + |[DICT] + Flat(parts) + [END]|))
    {
      DictReadsAt(h, parts, members, bytes, pos);
    }
  }

  lemma {:induction false} EncodableSupported(v: Value)
    requires Encodable(v)
    ensures Supported(v) && Supported(Canon(v))
    decreases v
  {
    match v
    case Bytes(_) =>
    case Text(_) =>
    case Num(_) =>
    case List(items) =>
      forall k | 0 <= k < |items| ensures Supported(items[k]) && Supported(Canon(items[k])) {
        EncodableSupported(items[k]);
      }
    case Dict(members) =>
      forall k | 0 <= k < |members| ensures Supported(members[k].value) && Supported(Canon(members[k].value)) {
        EncodableSupported(members[k].value);
      }
      var canon := CanonMembers(members);
      SortCorrect(canon, MemberKey);
      forall k | 0 <= k < |canon| ensures Supported(Sort(canon, MemberKey)[k].value) {
        SortMembers(canon, MemberKey, Sort(canon, MemberKey)[k]);
      }
  }

  /** Decoding an encoding gives the value back, in its canonical form, which encodes to the same bytes. */
  lemma RoundTrip(h: Host, v: Value)
    requires ReadsIntegers(h) && Encodable(v)
    ensures Encoded(v).Ok? && Decoded(h, Encoded(v).value) == Ok(Canon(v))
    ensures Encoded(Canon(v)) == Encoded(v)
  {
    EncodableSupported(v);
    CanonPrintsSame(v);
    PrintReads(h, v);
    assert At(Print(v), 0, Print(v));
  }

  /** An encoding with anything behind it is rejected. */
  lemma TrailingRejected(h: Host, v: Value, extra: seq<Byte>)
    requires ReadsIntegers(h) && Encodable(v) && extra != []
    ensures Decoded(h, Print(v) + extra) == Err("trailing data")
  {
    PrintReads(h, v);
    assert At(Print(v) + extra, 0, Print(v));
  }

  // ---------------------------------------------------------------- re-encoding

  lemma {:induction false} EachOrder<A, B>(f: A -> B, s: seq<A>, ka: A -> string, kb: B -> string)
    requires SortedBy(s, ka) && forall a :: a in s ==> kb(f(a)) == ka(a)
    ensures SortedBy(Each(f, s), kb)
  {
  }

  /** Re-encoding what was decoded gives the same bytes. */
  lemma {:induction false} CanonPrintsSame(v: Value)
    ensures Print(Canon(v)) == Print(v)
    decreases v
  {
    match v
    case Bytes(_) =>
    case Text(_) =>
    case Num(_) =>
    case List(items) =>
      forall k | 0 <= k < |items| ensures Print(Canon(items[k])) == Print(items[k]) {
        CanonPrintsSame(items[k]);
      }
      assert PrintAll(CanonAll(items)) == PrintAll(items);
    case Dict(members) =>
      forall k | 0 <= k < |members| ensures Print(Canon(members[k].value)) == Print(members[k].value) {
        CanonPrintsSame(members[k].value);
      }
      DictPrintsSame(members);
  }

  lemma DictPrintsSame(members: seq<Member>)
    requires forall k :: 0 <= k < |members| ==> Print(Canon(members[k].value)) == Print(members[k].value)
    ensures Print(Canon(Dict(members))) == Print(Dict(members))
  {
    var sorted := Sort(members, MemberKey);
    var canon := Each(CanonMember, sorted);
    SortedForms(members);
    SortCorrect(members, MemberKey);
    forall k | 0 <= k < |sorted| ensures PrintMember(canon[k]) == PrintMember(sorted[k]) {
      SortMembers(members, MemberKey, sorted[k]);
    }
    assert PrintMembers(canon) == Each(PrintMember, sorted);
    EachOrder(PrintMember, sorted, MemberKey, PrintedKey);
    SortedStays(Each(PrintMember, sorted), PrintedKey);
  }

  /** Values without text whose maps are in key order. */
  ghost predicate Canonical(v: Value) {
    match v
    case Bytes(_) => true
    case Text(_) => false
    case Num(_) => true
    case List(items) => forall k :: 0 <= k < |items| ==> Canonical(items[k])
    case Dict(members) => SortedBy(members, MemberKey) && forall k :: 0 <= k < |members| ==> Canonical(members[k].value)
  }

  /** Such a value reads back as itself. */
  lemma {:induction false} CanonicalStays(v: Value)
    requires Canonical(v)
    ensures Canon(v) == v
    decreases v
  {
    match v
    case Bytes(_) =>
    case Num(_) =>
    case List(items) =>
      forall k | 0 <= k < |items| ensures Canon(items[k]) == items[k] {
        CanonicalStays(items[k]);
      }
      assert CanonAll(items) == items;
    case Dict(members) =>
      forall k | 0 <= k < |members| ensures Canon(members[k].value) == members[k].value {
        CanonicalStays(members[k].value);
      }
      assert CanonMembers(members) == members;
      SortedStays(members, MemberKey);
  }

  lemma {:induction false} GetAt(s: seq<Member>, key: string, k: nat)
    requires DistinctKeys(s) && k < |s| && s[k].key == key
    ensures Get(s, key) == Some(s[k].value)
  {
    if k > 0 {
      GetAt(s[1..], key, k - 1);
    }
  }

  lemma {:induction false} GetFound(s: seq<Member>, key: string) returns (k: nat)
    requires Get(s, key).Some?
    ensures k < |s| && s[k] == Member(key, Get(s, key).value)
  {
    if s[0].key == key {
      k := 0;
    } else {
      k := GetFound(s[1..], key);
      k := k + 1;
    }
  }

  /** A member of a map with distinct keys is what its key looks up. */
  lemma GetMember(s: seq<Member>, m: Member)
    requires DistinctKeys(s) && m in s
    ensures Get(s, m.key) == Some(m.value)
  {
    var k :| 0 <= k < |s| && s[k] == m;
    GetAt(s, m.key, k);
  }

  lemma EachMember(s: seq<Member>, m: Member)
    ensures m in s ==> CanonMember(m) in Each(CanonMember, s)
    ensures m in Each(CanonMember, s) ==> exists o :: o in s && m == CanonMember(o)
  {
    var each := Each(CanonMember, s);
    if m in s {
      var k :| 0 <= k < |s| && s[k] == m;
      assert each[k] == CanonMember(m);
    }
    if m in each {
      var k :| 0 <= k < |each| && each[k] == m;
      assert s[k] in s;
    }
  }

  /** A decoded map holds, under every key, the canonical form of what the printed map held, and nothing else. */
  lemma CanonKeepsMap(members: seq<Member>, key: string)
    requires DistinctKeys(members)
    ensures Get(Canon(Dict(members)).members, key)
      == if Get(members, key).Some? then Some(Canon(Get(members, key).value)) else None
  {
    var sorted := Sort(members, MemberKey);
    var canon := Each(CanonMember, sorted);
    SortedForms(members);
    SortedKeysDiffer(members);
    if Get(members, key).Some? {
      var k := GetFound(members, key);
      SortMembers(members, MemberKey, members[k]);
      EachMember(sorted, members[k]);
      GetMember(canon, CanonMember(members[k]));
    } else if Get(canon, key).Some? {
      var i := GetFound(canon, key);
      EachMember(sorted, canon[i]);
      var o :| o in sorted && canon[i] == CanonMember(o);
      SortMembers(members, MemberKey, o);
      GetMember(members, o);
    }
  }

  /** The encoding of a map does not depend on the order in which it lists its members. */
  lemma PrintIgnoresOrder(a: seq<Member>, b: seq<Member>)
    requires DistinctKeys(a) && multiset(a) == multiset(b)
    ensures Print(Dict(a)) == Print(Dict(b))
  {
    SortCorrect(a, MemberKey);
    SortCorrect(b, MemberKey);
    DistinctAnyOrder(a, Sort(b, MemberKey), MemberKey);
    SortedUnique(Sort(a, MemberKey), Sort(b, MemberKey), MemberKey);
    SortedForms(a);
    SortedForms(b);
  }

  /** The info dictionary taken from a decoded torrent prints as the one the torrent was made from, so its hash is the same. */
  lemma InfoSurvives(h: Host, members: seq<Member>, info: Value)
    requires ReadsIntegers(h) && Encodable(Dict(members)) && Get(members, "info") == Some(info)
    ensures var saved := Decoded(h, Print(Dict(members)));
      && saved.Ok? && saved.value.Dict?
      && Get(saved.value.members, "info").Some? && Print(Get(saved.value.members, "info").value) == Print(info)
  {
    RoundTrip(h, Dict(members));
    CanonKeepsMap(members, "info");
    CanonPrintsSame(info);
  }

  // ---------------------------------------------------------------- truncation

  lemma IndexOfStable(bytes: seq<Byte>, more: seq<Byte>, b: Byte, from: nat)
    requires from <= |bytes| && IndexOf(bytes, b, from).Some?
    ensures IndexOf(bytes + more, b, from) == IndexOf(bytes, b, from)
  {
    var i, j := IndexOf(bytes, b, from), IndexOf(bytes + more, b, from);
    assert (bytes + more)[i.value] == b;
    if j.value < i.value {
      assert (bytes + more)[j.value] == bytes[j.value];
    }
  }

  /** A value that was read does not depend on the bytes behind it. */
  lemma {:induction false} ParseStable(h: Host, bytes: seq<Byte>, more: seq<Byte>, pos: nat)
    requires pos <= |bytes| && ParseAt(h, bytes, pos).Ok?
    ensures ParseAt(h, bytes + more, pos) == ParseAt(h, bytes, pos)
    decreases |bytes| - pos, 0
  {
    var all := bytes + more;
    assert all[pos] == bytes[pos];
    if bytes[pos] == INT {
      IndexOfStable(bytes, more, END, pos + 1);
      var end := IndexOf(bytes, END, pos + 1).value;
      assert all[pos + 1..end] == bytes[pos + 1..end];
    } else if bytes[pos] == LIST {
      ItemsStable(h, bytes, more, pos + 1, []);
    } else if bytes[pos] == DICT {
      MembersStable(h, bytes, more, pos + 1, []);
    } else {
      IndexOfStable(bytes, more, COLON, pos);
      var k := IndexOf(bytes, COLON, pos).value;
      assert all[pos..k] == bytes[pos..k];
      var length := h.number(bytes[pos..k]).n;
      assert all[k + 1..k + 1 + length] == bytes[k + 1..k + 1 + length];
    }
  }

  lemma {:induction false} ItemsStable(h: Host, bytes: seq<Byte>, more: seq<Byte>, pos: nat, acc: seq<Value>)
    requires pos <= |bytes| && ItemsAt(h, bytes, pos, acc).Ok?
    ensures ItemsAt(h, bytes + more, pos, acc) == ItemsAt(h, bytes, pos, acc)
    decreases |bytes| - pos, 1
  {
    assert forall k :: 0 <= k < |bytes| ==> (bytes + more)[k] == bytes[k];
    if !(pos < |bytes| && bytes[pos] == END) {
      ParseStable(h, bytes, more, pos);
      var item := ParseAt(h, bytes, pos).value;
      ItemsStable(h, bytes, more, item.1, acc + [item.0]);
    }
  }

  lemma {:induction false} MembersStable(h: Host, bytes: seq<Byte>, more: seq<Byte>, pos: nat, acc: seq<Member>)
    requires pos <= |bytes| && MembersAt(h, bytes, pos, acc).Ok?
    ensures MembersAt(h, bytes + more, pos, acc) == MembersAt(h, bytes, pos, acc)
    decreases |bytes| - pos, 1
  {
    assert forall k :: 0 <= k < |bytes| ==> (bytes + more)[k] == bytes[k];
    if !(pos < |bytes| && bytes[pos] == END) {
      ParseStable(h, bytes, more, pos);
      var key := ParseAt(h, bytes, pos).value;
      ParseStable(h, bytes, more, key.1);
      var value := ParseAt(h, bytes, key.1).value;
      MembersStable(h, bytes, more, value.1, Set(acc, KeyText(h, key.0.bytes), value.0));
    }
  }

  /** An encoding that was cut short, at any byte, is rejected. */
  lemma TruncatedRejected(h: Host, v: Value, k: nat)
    requires ReadsIntegers(h) && Encodable(v) && k < |Print(v)|
    ensures Decoded(h, Print(v)[..k]).Err?
  {
    var bytes, more := Print(v)[..k], Print(v)[k..];
    assert Print(v) == bytes + more;
    PrintReads(h, v);
    assert At(Print(v), 0, Print(v));
    if ParseAt(h, bytes, 0).Ok? {
      ParseStable(h, bytes, more, 0);
    }
  }
}
