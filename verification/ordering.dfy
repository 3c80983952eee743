/** Orderings used to list bookings: code-unit order on strings and the
    (booking date, slot index, chair) key of the server's `ORDER BY` and the clients' comparators,
    with a stable insertion sort. */
module Ordering {

  /** Lexicographic order on strings, comparing characters by code. */
  predicate StrLe(a: string, b: string)
    decreases |a|
  {
    |a| == 0 || (|b| > 0 && (a[0] < b[0] || (a[0] == b[0] && StrLe(a[1..], b[1..]))))
  }

  predicate StrLt(a: string, b: string) {
    StrLe(a, b) && a != b
  }

  lemma {:induction false} StrLeTotal(a: string, b: string)
    ensures StrLe(a, b) || StrLe(b, a)
  {
    if |a| > 0 && |b| > 0 && a[0] == b[0] {
      StrLeTotal(a[1..], b[1..]);
    }
  }

  lemma {:induction false} StrLeTrans(a: string, b: string, c: string)
    requires StrLe(a, b) && StrLe(b, c)
    ensures StrLe(a, c)
  {
    if |a| > 0 && a[0] == b[0] && b[0] == c[0] {
      StrLeTrans(a[1..], b[1..], c[1..]);
    }
  }

  lemma {:induction false} StrLeAntisym(a: string, b: string)
    requires StrLe(a, b) && StrLe(b, a)
    ensures a == b
  {
    if |a| > 0 {
      StrLeAntisym(a[1..], b[1..]);
      assert a == [a[0]] + a[1..] && b == [b[0]] + b[1..];
    }
  }

  /** Sort key: booking date (as stored, a string), slot index, chair. */
  datatype SortKey = SortKey(date: string, slot: int, chair: string)

  predicate KeyLe(x: SortKey, y: SortKey) {
    || StrLt(x.date, y.date)
    || (x.date == y.date && (x.slot < y.slot || (x.slot == y.slot && StrLe(x.chair, y.chair))))
  }

  lemma KeyLeTotal(x: SortKey, y: SortKey)
    ensures KeyLe(x, y) || KeyLe(y, x)
  {
    StrLeTotal(x.date, y.date);
    StrLeTotal(x.chair, y.chair);
  }

  lemma KeyLeTrans(x: SortKey, y: SortKey, z: SortKey)
    requires KeyLe(x, y) && KeyLe(y, z)
    ensures KeyLe(x, z)
  {
    if StrLt(x.date, y.date) && StrLt(y.date, z.date) {
      StrLeTrans(x.date, y.date, z.date);
      if x.date == z.date {
        StrLeAntisym(x.date, y.date);
      }
    }
    if x.date == y.date && y.date == z.date && x.slot == y.slot && y.slot == z.slot {
      StrLeTrans(x.chair, y.chair, z.chair);
    }
  }

  ghost predicate SortedBy<T>(s: seq<T>, key: T -> SortKey) {
    forall i, j :: 0 <= i < j < |s| ==> KeyLe(key(s[i]), key(s[j]))
  }

  /** Places `x` in front of the first element it does not sort after. */
  function InsertBy<T>(x: T, s: seq<T>, key: T -> SortKey): (r: seq<T>)
    requires SortedBy(s, key)
    ensures multiset(r) == multiset(s) + multiset{x}
    ensures SortedBy(r, key)
  {
    if |s| == 0 then [x]
    else if KeyLe(key(x), key(s[0])) then
      FirstBelowAll(x, s, key);
      SortedCons(x, s, key);
      [x] + s
    else
      var rest := InsertBy(x, s[1..], key);
      assert s == [s[0]] + s[1..];
      HeadBelowInserted(x, s, rest, key);
      SortedCons(s[0], rest, key);
      [s[0]] + rest
  }

  /** Prepending an element that sorts before every other keeps a sequence sorted. */
  lemma SortedCons<T>(h: T, s: seq<T>, key: T -> SortKey)
    requires SortedBy(s, key) && forall j :: 0 <= j < |s| ==> KeyLe(key(h), key(s[j]))
    ensures SortedBy([h] + s, key)
  {
    var r := [h] + s;
    forall i, j | 0 <= i < j < |r| ensures KeyLe(key(r[i]), key(r[j])) {
      assert r[j] == s[j - 1];
      if i > 0 {
        assert r[i] == s[i - 1];
      }
    }
  }

  lemma FirstBelowAll<T>(x: T, s: seq<T>, key: T -> SortKey)
    requires SortedBy(s, key) && |s| > 0 && KeyLe(key(x), key(s[0]))
    ensures forall j :: 0 <= j < |s| ==> KeyLe(key(x), key(s[j]))
  {
    forall j | 0 <= j < |s| ensures KeyLe(key(x), key(s[j])) {
      if j > 0 {
        KeyLeTrans(key(x), key(s[0]), key(s[j]));
      }
    }
  }

  /** When `x` does not go first, the head of a sorted `s` sorts before everything `x` is inserted into. */
  lemma HeadBelowInserted<T>(x: T, s: seq<T>, rest: seq<T>, key: T -> SortKey)
    requires SortedBy(s, key) && |s| > 0 && !KeyLe(key(x), key(s[0]))
    requires multiset(rest) == multiset(s[1..]) + multiset{x}
    ensures forall j :: 0 <= j < |rest| ==> KeyLe(key(s[0]), key(rest[j]))
  {
    KeyLeTotal(key(x), key(s[0]));
    forall j | 0 <= j < |rest| ensures KeyLe(key(s[0]), key(rest[j])) {
      assert rest[j] in multiset(rest);
      if rest[j] != x {
        assert rest[j] in multiset(s[1..]);
        var k :| 0 <= k < |s[1..]| && s[1..][k] == rest[j];
        assert s[k + 1] == rest[j];
      }
    }
  }

  /** Insertion sort by `key`: a permutation of the input in non-decreasing key order. */
  function SortBy<T>(s: seq<T>, key: T -> SortKey): (r: seq<T>)
    ensures multiset(r) == multiset(s)
    ensures |r| == |s|
    ensures SortedBy(r, key)
  {
    if |s| == 0 then []
    else
      assert s == [s[0]] + s[1..];
      InsertBy(s[0], SortBy(s[1..], key), key)
  }
}
