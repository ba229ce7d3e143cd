/**
  The language of the bencode parser, for every input: it reads exactly the texts that spell a
  tree, and returns what that tree means.
 */
module BencodeGrammar {
  import opened Base
  import opened Decimal
  import Utf8
  import KeyOrder
  import opened Bencode
  import opened BencodeLaws

  /** A text of the language, with the digits as they were written. */
  datatype Tree =
    | Integer(text: seq<Byte>)
    | Chars(length: seq<Byte>, content: seq<Byte>)
    | Sequence(items: seq<Tree>)
    | Mapping(entries: seq<Entry>)

  datatype Entry = Entry(length: seq<Byte>, name: seq<Byte>, value: Tree)

  function Ascii(c: char): Byte
    requires c < 128 as char
  {
    c as int
  }

  function Spell(t: Tree): (bytes: seq<Byte>)
    ensures bytes != []
  {
    match t
    case Integer(text) => [Ascii('i')] + text + [Ascii('e')]
    case Chars(length, content) => length + [Ascii(':')] + content
    case Sequence(items) => [Ascii('l')] + SpellAll(items) + [Ascii('e')]
    case Mapping(entries) => [Ascii('d')] + SpellEntries(entries) + [Ascii('e')]
  }

  function SpellAll(items: seq<Tree>): seq<Byte> {
    if items == [] then [] else Spell(items[0]) + SpellAll(items[1..])
  }

  function SpellEntries(entries: seq<Entry>): seq<Byte> {
    if entries == [] then []
    else entries[0].length + [Ascii(':')] + entries[0].name + Spell(entries[0].value) + SpellEntries(entries[1..])
  }

  /** A length starts with a digit, ends before the first colon, and is the number of bytes behind it. */
  predicate Counts(h: Host, length: seq<Byte>, content: seq<Byte>) {
    && length != [] && Ascii('0') <= length[0] <= Ascii('9') && Ascii(':') !in length
    && h.number(length) == Whole(|content|)
  }

  predicate WellFormed(h: Host, t: Tree)
    decreases t
  {
    match t
    case Integer(text) => Ascii('e') !in text
    case Chars(length, content) => Counts(h, length, content)
    case Sequence(items) => AllWellFormed(h, items)
    case Mapping(entries) => EntriesWellFormed(h, entries)
  }

  predicate AllWellFormed(h: Host, items: seq<Tree>)
    decreases items
  {
    items == [] || (WellFormed(h, items[0]) && AllWellFormed(h, items[1..]))
  }

  predicate EntriesWellFormed(h: Host, entries: seq<Entry>)
    decreases entries
  {
    || entries == []
    || (&& Counts(h, entries[0].length, entries[0].name) && WellFormed(h, entries[0].value)
        && EntriesWellFormed(h, entries[1..]))
  }

  function Meaning(h: Host, t: Tree): Value
    decreases t
  {
    match t
    case Integer(text) => Num(h.number(text))
    case Chars(_, content) => Bytes(content)
    case Sequence(items) => List(Meanings(h, items))
    case Mapping(entries) => Dict(Collected(h, [], entries))
  }

  function Meanings(h: Host, items: seq<Tree>): seq<Value>
    decreases items
  {
    if items == [] then [] else [Meaning(h, items[0])] + Meanings(h, items[1..])
  }

  /** The entries are put into the map one by one. */
  function Collected(h: Host, values: seq<Member>, entries: seq<Entry>): seq<Member>
    decreases entries
  {
    if entries == [] then values
    else Collected(h, Set(values, KeyText(h, entries[0].name), Meaning(h, entries[0].value)), entries[1..])
  }

  // ---------- What was read spells a tree ----------

  lemma Between(bytes: seq<Byte>, i: nat, j: nat, k: nat)
    requires i <= j <= k <= |bytes|
    ensures bytes[i..k] == bytes[i..j] + bytes[j..k]
  {
  }

  /** One tree, as the position and the value of a successful call describe it. */
  ghost predicate Stands(h: Host, t: Tree, bytes: seq<Byte>, pos: nat, r: (Value, nat))
    requires pos <= r.1 <= |bytes|
  {
    WellFormed(h, t) && Meaning(h, t) == r.0 && Spell(t) == bytes[pos..r.1]
  }

  ghost predicate StandAll(h: Host, items: seq<Tree>, bytes: seq<Byte>, pos: nat, acc: seq<Value>, r: (seq<Value>, nat))
    requires pos <= r.1 <= |bytes|
  {
    && AllWellFormed(h, items)
    && r.0 == acc + Meanings(h, items) && SpellAll(items) + [Ascii('e')] == bytes[pos..r.1]
  }

  ghost predicate StandEntries(h: Host, entries: seq<Entry>, bytes: seq<Byte>, pos: nat, acc: seq<Member>, r: (seq<Member>, nat))
    requires pos <= r.1 <= |bytes|
  {
    && EntriesWellFormed(h, entries)
    && r.0 == Collected(h, acc, entries) && SpellEntries(entries) + [Ascii('e')] == bytes[pos..r.1]
  }

  lemma SequenceStands(h: Host, items: seq<Tree>, bytes: seq<Byte>, pos: nat, r: (seq<Value>, nat))
    requires pos + 1 <= r.1 <= |bytes| && bytes[pos] == Ascii('l') && StandAll(h, items, bytes, pos + 1, [], r)
    ensures Stands(h, Sequence(items), bytes, pos, (List(r.0), r.1))
  {
    Between(bytes, pos, pos + 1, r.1);
    assert Spell(Sequence(items)) == [Ascii('l')] + (SpellAll(items) + [Ascii('e')]);
    assert [] + Meanings(h, items) == Meanings(h, items);
  }

  lemma MappingStands(h: Host, entries: seq<Entry>, bytes: seq<Byte>, pos: nat, r: (seq<Member>, nat))
    requires pos + 1 <= r.1 <= |bytes| && bytes[pos] == Ascii('d') && StandEntries(h, entries, bytes, pos + 1, [], r)
    ensures Stands(h, Mapping(entries), bytes, pos, (Dict(r.0), r.1))
  {
    Between(bytes, pos, pos + 1, r.1);
    assert Spell(Mapping(entries)) == [Ascii('d')] + (SpellEntries(entries) + [Ascii('e')]);
  }

  lemma ParsedChars(h: Host, bytes: seq<Byte>, pos: nat) returns (t: Tree)
    requires pos < |bytes| && Ascii('0') <= bytes[pos] <= Ascii('9') && ParseAt(h, bytes, pos).Ok?
    ensures t.Chars? && Stands(h, t, bytes, pos, ParseAt(h, bytes, pos).value)
  {
    var colon, end := IndexOf(bytes, COLON, pos).value, ParseAt(h, bytes, pos).value.1;
    t := Chars(bytes[pos..colon], bytes[colon + 1..end]);
    Between(bytes, pos, colon, end);
    Between(bytes, colon, colon + 1, end);
  }

  lemma ParsedInteger(h: Host, bytes: seq<Byte>, pos: nat) returns (t: Tree)
    requires pos < |bytes| && bytes[pos] == Ascii('i') && ParseAt(h, bytes, pos).Ok?
    ensures Stands(h, t, bytes, pos, ParseAt(h, bytes, pos).value)
  {
    var end := ParseAt(h, bytes, pos).value.1;
    t := Integer(bytes[pos + 1..end - 1]);
    Between(bytes, pos, pos + 1, end);
    Between(bytes, pos + 1, end - 1, end);
  }

  lemma {:induction false} Parsed(h: Host, bytes: seq<Byte>, pos: nat) returns (t: Tree)
    requires pos <= |bytes| && ParseAt(h, bytes, pos).Ok?
    ensures Stands(h, t, bytes, pos, ParseAt(h, bytes, pos).value)
    decreases |bytes| - pos, 0
  {
    if bytes[pos] == INT {
      t := ParsedInteger(h, bytes, pos);
    } else if bytes[pos] == LIST {
      var items := ParsedItems(h, bytes, pos + 1, []);
      t := Sequence(items);
      SequenceStands(h, items, bytes, pos, ItemsAt(h, bytes, pos + 1, []).value);
    } else if bytes[pos] == DICT {
      var entries := ParsedMembers(h, bytes, pos + 1, []);
      t := Mapping(entries);
      MappingStands(h, entries, bytes, pos, MembersAt(h, bytes, pos + 1, []).value);
    } else {
      t := ParsedChars(h, bytes, pos);
    }
  }

  lemma {:induction false} ParsedItems(h: Host, bytes: seq<Byte>, pos: nat, acc: seq<Value>) returns (items: seq<Tree>)
    requires pos <= |bytes| && ItemsAt(h, bytes, pos, acc).Ok?
    ensures StandAll(h, items, bytes, pos, acc, ItemsAt(h, bytes, pos, acc).value)
    decreases |bytes| - pos, 1
  {
    var r := ItemsAt(h, bytes, pos, acc).value;
    if pos < |bytes| && bytes[pos] == END {
      items := [];
    } else {
      var item, middle := ParseAt(h, bytes, pos).value.0, ParseAt(h, bytes, pos).value.1;
      var first := Parsed(h, bytes, pos);
      var rest := ParsedItems(h, bytes, middle, acc + [item]);
      items := [first] + rest;
      assert items[1..] == rest;
      assert acc + [item] + Meanings(h, rest) == acc + Meanings(h, items);
      Between(bytes, pos, middle, r.1);
      assert SpellAll(items) + [Ascii('e')] == Spell(first) + (SpellAll(rest) + [Ascii('e')]);
    }
  }

  lemma {:induction false} ParsedMembers(h: Host, bytes: seq<Byte>, pos: nat, acc: seq<Member>) returns (entries: seq<Entry>)
    requires pos <= |bytes| && MembersAt(h, bytes, pos, acc).Ok?
    ensures StandEntries(h, entries, bytes, pos, acc, MembersAt(h, bytes, pos, acc).value)
    decreases |bytes| - pos, 1
  {
    var r := MembersAt(h, bytes, pos, acc).value;
    if pos < |bytes| && bytes[pos] == END {
      entries := [];
    } else {
      var key := ParseAt(h, bytes, pos).value;
      var name := Parsed(h, bytes, pos);
      var member := ParseAt(h, bytes, key.1).value;
      var value := Parsed(h, bytes, key.1);
      var rest := ParsedMembers(h, bytes, member.1, Set(acc, KeyText(h, key.0.bytes), member.0));
      entries := [Entry(name.length, name.content, value)] + rest;
      assert entries[1..] == rest;
      Between(bytes, pos, key.1, member.1);
      Between(bytes, pos, member.1, r.1);
      EntrySpelled(name, value, rest, entries);
    }
  }

  lemma EntrySpelled(name: Tree, value: Tree, rest: seq<Entry>, entries: seq<Entry>)
    requires name.Chars? && entries == [Entry(name.length, name.content, value)] + rest
    ensures SpellEntries(entries) + [Ascii('e')] == Spell(name) + Spell(value) + (SpellEntries(rest) + [Ascii('e')])
  {
    assert entries[1..] == rest;
  }

  // ---------- What spells a tree is read ----------

  lemma FirstByte(h: Host, t: Tree)
    requires WellFormed(h, t)
    ensures Spell(t)[0] != END
  {
  }

  lemma AtFirst(bytes: seq<Byte>, pos: nat, part: seq<Byte>)
    requires At(bytes, pos, part) && part != []
    ensures pos < |bytes| && bytes[pos] == part[0]
  {
    assert bytes[pos..pos + |part|][0] == bytes[pos];
  }

  lemma IntegerSpelled(h: Host, text: seq<Byte>, bytes: seq<Byte>, pos: nat)
    requires Ascii('e') !in text && At(bytes, pos, [Ascii('i')] + text + [Ascii('e')])
    ensures ParseAt(h, bytes, pos) == Ok((Num(h.number(text)), pos + |text| + 2))
  {
    assert [Ascii('i')] + text + [Ascii('e')] == [Ascii('i')] + (text + [Ascii('e')]);
    AtFirst(bytes, pos, [Ascii('i')] + (text + [Ascii('e')]));
    AtSplit(bytes, pos, [Ascii('i')], text + [Ascii('e')]);
    MarkBehind(bytes, pos + 1, text, END);
  }

  lemma CharsSpelled(h: Host, length: seq<Byte>, content: seq<Byte>, bytes: seq<Byte>, pos: nat)
    requires Counts(h, length, content) && At(bytes, pos, length + [Ascii(':')] + content)
    ensures ParseAt(h, bytes, pos) == Ok((Bytes(content), pos + |length| + 1 + |content|))
  {
    AtFirst(bytes, pos, length + [Ascii(':')] + content);
    AtSplit(bytes, pos, length + [Ascii(':')], content);
    MarkBehind(bytes, pos, length, COLON);
  }

  /** Wherever the text stands, the list parser goes over it from one state of its list to another. */
  ghost predicate Appends(h: Host, text: seq<Byte>, before: seq<Value>, after: seq<Value>) {
    forall bytes, pos: nat {:trigger At(bytes, pos, text)} :: At(bytes, pos, text) ==>
      ItemsAt(h, bytes, pos, before) == ItemsAt(h, bytes, pos + |text|, after)
  }

  ghost predicate Adds(h: Host, text: seq<Byte>, before: seq<Member>, after: seq<Member>) {
    forall bytes, pos: nat {:trigger At(bytes, pos, text)} :: At(bytes, pos, text) ==>
      MembersAt(h, bytes, pos, before) == MembersAt(h, bytes, pos + |text|, after)
  }

  lemma AppendsTwice(h: Host, a: seq<Byte>, b: seq<Byte>, before: seq<Value>, middle: seq<Value>, after: seq<Value>)
    requires Appends(h, a, before, middle) && Appends(h, b, middle, after)
    ensures Appends(h, a + b, before, after)
  {
    forall bytes, pos: nat | At(bytes, pos, a + b)
      ensures ItemsAt(h, bytes, pos, before) == ItemsAt(h, bytes, pos + |a + b|, after)
    {
      AtSplit(bytes, pos, a, b);
    }
  }

  lemma AddsTwice(h: Host, a: seq<Byte>, b: seq<Byte>, before: seq<Member>, middle: seq<Member>, after: seq<Member>)
    requires Adds(h, a, before, middle) && Adds(h, b, middle, after)
    ensures Adds(h, a + b, before, after)
  {
    forall bytes, pos: nat | At(bytes, pos, a + b)
      ensures MembersAt(h, bytes, pos, before) == MembersAt(h, bytes, pos + |a + b|, after)
    {
      AtSplit(bytes, pos, a, b);
    }
  }

  lemma ItemAppends(h: Host, text: seq<Byte>, value: Value, acc: seq<Value>)
    requires Reads(h, text, value) && text != [] && text[0] != END
    ensures Appends(h, text, acc, acc + [value])
  {
    forall bytes, pos: nat | At(bytes, pos, text)
      ensures ItemsAt(h, bytes, pos, acc) == ItemsAt(h, bytes, pos + |text|, acc + [value])
    {
      AtFirst(bytes, pos, text);
    }
  }

  lemma EntryAdds(h: Host, name: seq<Byte>, key: seq<Byte>, text: seq<Byte>, value: Value, acc: seq<Member>, after: seq<Member>)
    requires Reads(h, name, Bytes(key)) && name != [] && name[0] != END && Reads(h, text, value)
    requires after == Set(acc, KeyText(h, key), value)
    ensures Adds(h, name + text, acc, after)
  {
    forall bytes, pos: nat | At(bytes, pos, name + text)
      ensures MembersAt(h, bytes, pos, acc) == MembersAt(h, bytes, pos + |name + text|, after)
    {
      AtSplit(bytes, pos, name, text);
      AtFirst(bytes, pos, name);
    }
  }

  lemma SequenceReads(h: Host, text: seq<Byte>, values: seq<Value>)
    requires Appends(h, text, [], values)
    ensures Reads(h, [Ascii('l')] + text + [Ascii('e')], List(values))
  {
    forall bytes, pos: nat | At(bytes, pos, [Ascii('l')] + text + [Ascii('e')])
      ensures ParseAt(h, bytes, pos) == Ok((List(values), pos + |[Ascii('l')] + text + [Ascii('e')]|))
    {
      AtSplit(bytes, pos, [Ascii('l')] + text, [Ascii('e')]);
      AtSplit(bytes, pos, [Ascii('l')], text);
      AtFirst(bytes, pos, [Ascii('l')]);
      ItemsEnd(h, bytes, pos + 1 + |text|, values);
    }
  }

  lemma MappingReads(h: Host, text: seq<Byte>, values: seq<Member>)
    requires Adds(h, text, [], values)
    ensures Reads(h, [Ascii('d')] + text + [Ascii('e')], Dict(values))
  {
    forall bytes, pos: nat | At(bytes, pos, [Ascii('d')] + text + [Ascii('e')])
      ensures ParseAt(h, bytes, pos) == Ok((Dict(values), pos + |[Ascii('d')] + text + [Ascii('e')]|))
    {
      AtSplit(bytes, pos, [Ascii('d')] + text, [Ascii('e')]);
      AtSplit(bytes, pos, [Ascii('d')], text);
      AtFirst(bytes, pos, [Ascii('d')]);
      MembersEnd(h, bytes, pos + 1 + |text|, values);
    }
  }

  lemma CharsRead(h: Host, length: seq<Byte>, content: seq<Byte>)
    requires Counts(h, length, content)
    ensures Reads(h, Spell(Chars(length, content)), Bytes(content))
  {
    forall bytes, pos: nat | At(bytes, pos, Spell(Chars(length, content)))
      ensures ParseAt(h, bytes, pos) == Ok((Bytes(content), pos + |Spell(Chars(length, content))|))
    {
      CharsSpelled(h, length, content, bytes, pos);
    }
  }

  /** Wherever a well-formed tree is spelled, the parser reads its meaning. */
  lemma {:induction false} Spelled(h: Host, t: Tree)
    requires WellFormed(h, t)
    ensures Reads(h, Spell(t), Meaning(h, t))
    decreases t
  {
    match t
    case Integer(text) =>
      forall bytes, pos: nat | At(bytes, pos, Spell(t)) ensures ParseAt(h, bytes, pos) == Ok((Meaning(h, t), pos + |Spell(t)|)) {
        IntegerSpelled(h, text, bytes, pos);
      }
    case Chars(length, content) => CharsRead(h, length, content);
    case Sequence(items) =>
      ItemsSpelled(h, items, []);
      assert [] + Meanings(h, items) == Meanings(h, items);
      SequenceReads(h, SpellAll(items), Meanings(h, items));
    case Mapping(entries) =>
      EntriesSpelled(h, entries, []);
      MappingReads(h, SpellEntries(entries), Collected(h, [], entries));
  }

  lemma {:induction false} ItemsSpelled(h: Host, items: seq<Tree>, acc: seq<Value>)
    requires AllWellFormed(h, items)
    ensures Appends(h, SpellAll(items), acc, acc + Meanings(h, items))
    decreases items
  {
    if items == [] {
      assert acc + Meanings(h, items) == acc;
    } else {
      var value := Meaning(h, items[0]);
      Spelled(h, items[0]);
      FirstByte(h, items[0]);
      ItemAppends(h, Spell(items[0]), value, acc);
      ItemsSpelled(h, items[1..], acc + [value]);
      assert acc + [value] + Meanings(h, items[1..]) == acc + Meanings(h, items);
      AppendsTwice(h, Spell(items[0]), SpellAll(items[1..]), acc, acc + [value], acc + Meanings(h, items));
    }
  }

  lemma EntryText(entries: seq<Entry>)
    requires entries != []
    ensures var e := entries[0];
            SpellEntries(entries) == Spell(Chars(e.length, e.name)) + Spell(e.value) + SpellEntries(entries[1..])
  {
  }

  lemma {:induction false} EntriesSpelled(h: Host, entries: seq<Entry>, acc: seq<Member>)
    requires EntriesWellFormed(h, entries)
    ensures Adds(h, SpellEntries(entries), acc, Collected(h, acc, entries))
    decreases entries
  {
    if entries != [] {
      var e, value := entries[0], Meaning(h, entries[0].value);
      var name, next := Spell(Chars(e.length, e.name)), Set(acc, KeyText(h, e.name), value);
      CharsRead(h, e.length, e.name);
      Spelled(h, e.value);
      FirstByte(h, Chars(e.length, e.name));
      EntryAdds(h, name, e.name, Spell(e.value), value, acc, next);
      EntriesSpelled(h, entries[1..], next);
      EntryText(entries);
      AddsTwice(h, name + Spell(e.value), SpellEntries(entries[1..]), acc, next, Collected(h, next, entries[1..]));
    }
  }

  // ---------- The language ----------

  /** The text spells a tree that means the value. */
  ghost predicate Says(h: Host, text: seq<Byte>, v: Value) {
    exists t :: Tells(h, t, text, v)
  }

  predicate Tells(h: Host, t: Tree, text: seq<Byte>, v: Value) {
    WellFormed(h, t) && Spell(t) == text && Meaning(h, t) == v
  }

  /** From any position of any input, a value is read up to a position exactly if the bytes between say it. */
  lemma ParsesExactly(h: Host, bytes: seq<Byte>, pos: nat, end: nat, v: Value)
    requires pos <= end <= |bytes|
    ensures ParseAt(h, bytes, pos) == Ok((v, end)) <==> Says(h, bytes[pos..end], v)
  {
    if ParseAt(h, bytes, pos) == Ok((v, end)) {
      var t := Parsed(h, bytes, pos);
      assert Tells(h, t, bytes[pos..end], v);
    }
    if t :| Tells(h, t, bytes[pos..end], v) {
      Spelled(h, t);
      assert At(bytes, pos, Spell(t));
    }
  }

  /** A whole input is accepted exactly if it says a value, which is then returned. */
  lemma DecodesExactly(h: Host, bytes: seq<Byte>, v: Value)
    ensures Decoded(h, bytes) == Ok(v) <==> Says(h, bytes, v)
  {
    ParsesExactly(h, bytes, 0, |bytes|, v);
    assert bytes[0..|bytes|] == bytes;
  }

  /** The printer writes texts of the language. */
  lemma PrintedSays(h: Host, v: Value)
    requires ReadsIntegers(h) && Encodable(v)
    ensures Says(h, Print(v), Canon(v))
  {
    RoundTrip(h, v);
    DecodesExactly(h, Print(v), Canon(v));
  }

  lemma {:induction false} NoLeadingZero(n: nat)
    requires n > 0
    ensures ToDecimal(n)[0] != '0'
  {
    if n >= 10 {
      NoLeadingZero(n / 10);
      PrintedDigits(n / 10);
    }
  }

  /** An integer prints as its digits without a leading zero, behind a minus sign exactly if it is negative. */
  lemma PrintedInteger(n: int)
    ensures var text := PrintInt(n);
            && text != "" && (text[0] == '-' <==> n < 0)
            && var digits := if n < 0 then text[1..] else text;
               && digits != "" && AllDigits(digits) && NatOfDigits(digits) == (if n < 0 then -n else n)
               && (digits[0] == '0' ==> n == 0 && digits == "0")
  {
    var size := if n < 0 then -n else n;
    PrintedDigits(size);
    if size > 0 {
      NoLeadingZero(size);
    }
  }

  // ---------- The map of a dictionary ----------

  predicate Lists(s: seq<Member>, key: string) {
    exists k :: 0 <= k < |s| && s[k].key == key
  }

  lemma ListsHead(s: seq<Member>, key: string)
    requires s != [] && s[0].key != key
    ensures Lists(s, key) <==> Lists(s[1..], key)
  {
    if Lists(s, key) {
      var k :| 0 <= k < |s| && s[k].key == key;
      assert s[1..][k - 1] == s[k];
    }
    if Lists(s[1..], key) {
      var k :| 0 <= k < |s| - 1 && s[1..][k].key == key;
      assert s[k + 1].key == key;
    }
  }

  /** Setting a key gives it the value, leaves every other key, and keeps the place of a known one. */
  lemma {:induction false} SetExactly(s: seq<Member>, key: string, value: Value, other: string)
    ensures var t := Set(s, key, value);
            && Get(t, other) == (if other == key then Some(value) else Get(s, other))
            && |t| == (if Lists(s, key) then |s| else |s| + 1)
            && (forall k :: 0 <= k < |s| ==> t[k].key == s[k].key)
  {
    if s != [] && s[0].key != key {
      SetExactly(s[1..], key, value, other);
      ListsHead(s, key);
      var rest := Set(s[1..], key, value);
      assert Set(s, key, value) == [s[0]] + rest && ([s[0]] + rest)[1..] == rest;
    }
  }

  /** The last entry of a key. */
  function LastEntry(h: Host, entries: seq<Entry>, key: string): Option<Entry> {
    if entries == [] then None
    else
      var later := LastEntry(h, entries[1..], key);
      if later.Some? then later else if KeyText(h, entries[0].name) == key then Some(entries[0]) else None
  }

  lemma {:induction false} CollectedHolds(h: Host, acc: seq<Member>, entries: seq<Entry>, key: string)
    ensures var e := LastEntry(h, entries, key);
            Get(Collected(h, acc, entries), key) == if e.Some? then Some(Meaning(h, e.value.value)) else Get(acc, key)
    decreases entries
  {
    if entries != [] {
      var name, value := KeyText(h, entries[0].name), Meaning(h, entries[0].value);
      SetExactly(acc, name, value, key);
      CollectedHolds(h, Set(acc, name, value), entries[1..], key);
    }
  }

  /** A dictionary holds under every key the value of its last entry for that key. */
  lemma DictionaryHolds(h: Host, entries: seq<Entry>, key: string)
    ensures var e := LastEntry(h, entries, key);
            Get(Meaning(h, Mapping(entries)).members, key) == if e.Some? then Some(Meaning(h, e.value.value)) else None
  {
    CollectedHolds(h, [], entries, key);
  }

  /** The keys of a printed map stand in character order. */
  lemma PrintedKeysAscend(members: seq<Member>, i: nat, j: nat)
    requires i < j < |members|
    ensures var sorted := Canon(Dict(members)).members;
            |sorted| == |members| && KeyOrder.IdLe(sorted[i].key, sorted[j].key)
  {
    SortCorrect(CanonMembers(members), MemberKey);
    var sorted := Sort(CanonMembers(members), MemberKey);
    assert Before(MemberKey(sorted[i]), MemberKey(sorted[j]));
    Utf8.OrderAgrees(sorted[i].key, sorted[j].key);
  }
}
