/**
  The order in which the coordinator sorts (id, lifecycle generation) pairs.
  Ids compare by character code, a shorter prefix first; equal ids compare by
  generation.
 */
module KeyOrder {
  import opened Base

  type Id = string
  type Key = (Id, nat)

  predicate IdLe(a: Id, b: Id) {
    a == [] || (b != [] && (a[0] < b[0] || (a[0] == b[0] && IdLe(a[1..], b[1..]))))
  }

  predicate KeyLe(a: Key, b: Key) {
    if a.0 == b.0 then a.1 <= b.1 else IdLe(a.0, b.0)
  }

  lemma {:induction false} IdLeTotal(a: Id, b: Id)
    ensures IdLe(a, b) || IdLe(b, a)
  {
    if a != [] && b != [] && a[0] == b[0] {
      IdLeTotal(a[1..], b[1..]);
    }
  }

  lemma {:induction false} IdLeAntisymmetric(a: Id, b: Id)
    requires IdLe(a, b) && IdLe(b, a)
    ensures a == b
  {
    if a != [] && b != [] {
      IdLeAntisymmetric(a[1..], b[1..]);
      assert a == [a[0]] + a[1..] && b == [b[0]] + b[1..];
    }
  }

  lemma {:induction false} IdLeTransitive(a: Id, b: Id, c: Id)
    requires IdLe(a, b) && IdLe(b, c)
    ensures IdLe(a, c)
  {
    if a != [] && a[0] == b[0] && b[0] == c[0] {
      IdLeTransitive(a[1..], b[1..], c[1..]);
    }
  }

  /** The first difference decides: the smaller character, or the end of the shorter id. */
  ghost predicate DiffersBelow(a: Id, b: Id, k: nat) {
    k <= |a| && k < |b| && a[..k] == b[..k] && (k == |a| || a[k] < b[k])
  }

  lemma {:induction false} IdLeExactly(a: Id, b: Id)
    ensures IdLe(a, b) <==> a == b || exists k: nat :: DiffersBelow(a, b, k)
  {
    if a == [] {
      assert b != [] ==> DiffersBelow(a, b, 0);
    } else if b != [] {
      if a[0] == b[0] {
        IdLeExactly(a[1..], b[1..]);
        assert a == [a[0]] + a[1..] && b == [b[0]] + b[1..];
        if k: nat :| DiffersBelow(a[1..], b[1..], k) {
          assert a[..k + 1] == [a[0]] + a[1..][..k] && b[..k + 1] == [b[0]] + b[1..][..k];
          assert DiffersBelow(a, b, k + 1);
        }
        if k: nat :| DiffersBelow(a, b, k) {
          assert k > 0;
          assert a[1..][..k - 1] == a[..k][1..] && b[1..][..k - 1] == b[..k][1..];
          assert DiffersBelow(a[1..], b[1..], k - 1);
        }
      } else if a[0] < b[0] {
        assert DiffersBelow(a, b, 0);
      } else {
        forall k: nat ensures !DiffersBelow(a, b, k) {
          assert 0 < k <= |a| && k <= |b| ==> a[..k][0] != b[..k][0];
        }
      }
    }
  }

  lemma KeyLeTotal(a: Key, b: Key)
    ensures KeyLe(a, b) || KeyLe(b, a)
  {
    IdLeTotal(a.0, b.0);
  }

  lemma KeyLeAntisymmetric(a: Key, b: Key)
    requires KeyLe(a, b) && KeyLe(b, a)
    ensures a == b
  {
    if a.0 != b.0 {
      IdLeAntisymmetric(a.0, b.0);
    }
  }

  lemma KeyLeTransitive(a: Key, b: Key, c: Key)
    requires KeyLe(a, b) && KeyLe(b, c)
    ensures KeyLe(a, c)
  {
    if a.0 != b.0 && b.0 != c.0 {
      IdLeTransitive(a.0, b.0, c.0);
      if a.0 == c.0 {
        IdLeAntisymmetric(a.0, b.0);
      }
    }
  }

  ghost predicate Sorted(s: seq<Key>) {
    forall i, j :: 0 <= i < j < |s| ==> KeyLe(s[i], s[j])
  }

  ghost predicate StrictlySorted(s: seq<Key>) {
    Sorted(s) && Distinct(s)
  }

  function Insert(x: Key, s: seq<Key>): seq<Key> {
    if s == [] then [x]
    else if KeyLe(x, s[0]) then [x] + s
    else [s[0]] + Insert(x, s[1..])
  }

  /** The order-independent meaning of `Vec::sort` on keys. */
  function Sort(s: seq<Key>): seq<Key> {
    if s == [] then [] else Insert(s[0], Sort(s[1..]))
  }

  lemma {:induction false} InsertKeepsElements(x: Key, s: seq<Key>)
    ensures multiset(Insert(x, s)) == multiset{x} + multiset(s)
  {
    if s != [] && !KeyLe(x, s[0]) {
      InsertKeepsElements(x, s[1..]);
      assert s == [s[0]] + s[1..];
    }
  }

  lemma {:induction false} InsertKeepsSorted(x: Key, s: seq<Key>)
    requires Sorted(s)
    ensures Sorted(Insert(x, s))
  {
    if s == [] {
    } else if KeyLe(x, s[0]) {
      forall j | 0 <= j < |s| ensures KeyLe(x, s[j]) {
        if j > 0 { KeyLeTransitive(x, s[0], s[j]); }
      }
    } else {
      InsertKeepsSorted(x, s[1..]);
      InsertKeepsElements(x, s[1..]);
      var rest := Insert(x, s[1..]);
      forall j | 0 <= j < |rest| ensures KeyLe(s[0], rest[j]) {
        assert rest[j] in multiset(rest);
        KeyLeTotal(x, s[0]);
        assert rest[j] == x || rest[j] in s[1..];
      }
    }
  }

  lemma {:induction false} SortCorrect(s: seq<Key>)
    ensures Sorted(Sort(s)) && multiset(Sort(s)) == multiset(s)
  {
    if s != [] {
      SortCorrect(s[1..]);
      InsertKeepsSorted(s[0], Sort(s[1..]));
      InsertKeepsElements(s[0], Sort(s[1..]));
      assert s == [s[0]] + s[1..];
    }
  }

  /** A strictly sorted list is determined by the set of its elements. */
  lemma {:induction false} StrictlySortedUnique(a: seq<Key>, b: seq<Key>)
    requires StrictlySorted(a) && StrictlySorted(b)
    requires ToSet(a) == ToSet(b)
    ensures a == b
  {
    if a == [] {
      assert forall i :: 0 <= i < |b| ==> b[i] in ToSet(b);
    } else {
      assert a[0] in ToSet(b);
      assert b != [] && b[0] in ToSet(a);
      assert KeyLe(a[0], b[0]);
      assert KeyLe(b[0], a[0]);
      KeyLeAntisymmetric(a[0], b[0]);
      assert a == [a[0]] + a[1..] && b == [b[0]] + b[1..];
      assert ToSet(a[1..]) == ToSet(a) - {a[0]};
      assert ToSet(b[1..]) == ToSet(b) - {b[0]};
      StrictlySortedUnique(a[1..], b[1..]);
    }
  }

  /** `Vec::dedup`: drop an element equal to its predecessor. */
  function Dedup(s: seq<Key>): seq<Key> {
    if |s| < 2 then s
    else if s[0] == s[1] then Dedup(s[1..])
    else [s[0]] + Dedup(s[1..])
  }

  lemma {:induction false} DedupSorted(s: seq<Key>)
    requires Sorted(s)
    ensures StrictlySorted(Dedup(s)) && ToSet(Dedup(s)) == ToSet(s)
    ensures s != [] ==> Dedup(s) != [] && Dedup(s)[0] == s[0]
  {
    if |s| >= 2 {
      DedupSorted(s[1..]);
      var rest := Dedup(s[1..]);
      assert s == [s[0]] + s[1..];
      assert ToSet(s) == {s[0]} + ToSet(s[1..]);
      if s[0] != s[1] {
        forall j | 0 <= j < |rest| ensures KeyLe(s[0], rest[j]) && s[0] != rest[j] {
          assert rest[j] in ToSet(s[1..]);
          var k :| 1 <= k < |s| && s[k] == rest[j];
          if rest[j] == s[0] && k > 1 {
            KeyLeAntisymmetric(s[0], s[1]);
          }
        }
        assert ToSet([s[0]] + rest) == {s[0]} + ToSet(rest);
      }
    }
  }
}
