/**
  Python's ordering of `str` values (lexicographic by code point, a proper prefix first)
  and its stable `sorted(xs, key=...)` for a string key.
*/
module Ordering {

  /** `a <= b` on Python strings. */
  predicate StrLe(a: string, b: string)
  {
    if a == [] then true
    else if b == [] then false
    else if a[0] != b[0] then a[0] < b[0]
    else StrLe(a[1..], b[1..])
  }

  lemma {:induction false} StrLeTotal(a: string, b: string)
    ensures StrLe(a, b) || StrLe(b, a)
  {
    if a != [] && b != [] && a[0] == b[0] {
      StrLeTotal(a[1..], b[1..]);
    }
  }

  lemma {:induction false} StrLeAntisymmetric(a: string, b: string)
    requires StrLe(a, b) && StrLe(b, a)
    ensures a == b
  {
    if a != [] && b != [] {
      StrLeAntisymmetric(a[1..], b[1..]);
      assert a == [a[0]] + a[1..] && b == [b[0]] + b[1..];
    }
  }

  lemma {:induction false} StrLeTransitive(a: string, b: string, c: string)
    requires StrLe(a, b) && StrLe(b, c)
    ensures StrLe(a, c)
  {
    if a != [] && b != [] && c != [] && a[0] == b[0] == c[0] {
      StrLeTransitive(a[1..], b[1..], c[1..]);
    }
  }

  /** The keys of `s` are in ascending order. */
  ghost predicate SortedBy<T>(s: seq<T>, key: T -> string)
  {
    forall i, j :: 0 <= i < j < |s| ==> StrLe(key(s[i]), key(s[j]))
  }

  /** No two elements of `s` have the same key. */
  ghost predicate UniqueKeys<T>(s: seq<T>, key: T -> string)
  {
    forall i, j :: 0 <= i < j < |s| ==> key(s[i]) != key(s[j])
  }

  /** Insert `x` before the first element whose key is at least `key(x)`. */
  function Insert<T>(x: T, s: seq<T>, key: T -> string): (r: seq<T>)
    ensures multiset(r) == multiset(s) + multiset{x}
  {
    if s == [] then [x]
    else if StrLe(key(x), key(s[0])) then [x] + s
    else
      assert s == [s[0]] + s[1..];
      [s[0]] + Insert(x, s[1..], key)
  }

  /** `sorted(s, key=key)`: a stable insertion sort; it returns a permutation of its input. */
  function SortBy<T>(s: seq<T>, key: T -> string): (r: seq<T>)
    ensures multiset(r) == multiset(s)
  {
    if s == [] then []
    else
      assert s == [s[0]] + s[1..];
      Insert(s[0], SortBy(s[1..], key), key)
  }

  lemma {:induction false} InsertSorted<T>(x: T, s: seq<T>, key: T -> string)
    requires SortedBy(s, key)
    ensures SortedBy(Insert(x, s, key), key)
  {
    if s != [] {
      if StrLe(key(x), key(s[0])) {
        var r := [x] + s;
        forall i, j | 0 <= i < j < |r| ensures StrLe(key(r[i]), key(r[j])) {
          if i == 0 && j > 1 { StrLeTransitive(key(x), key(s[0]), key(s[j - 1])); }
        }
      } else {
        StrLeTotal(key(x), key(s[0]));
        InsertSorted(x, s[1..], key);
        var r := Insert(x, s[1..], key);
        forall j | 0 <= j < |r| ensures StrLe(key(s[0]), key(r[j])) {
          assert r[j] in multiset(r);
          assert r[j] == x || r[j] in multiset(s[1..]);
          if r[j] != x {
            var k :| 0 <= k < |s[1..]| && s[1..][k] == r[j];
            assert s[k + 1] == r[j];
          }
        }
      }
    }
  }

  /** `sorted` returns its input in ascending order of the key. */
  lemma {:induction false} SortBySorted<T>(s: seq<T>, key: T -> string)
    ensures SortedBy(SortBy(s, key), key)
  {
    if s != [] {
      SortBySorted(s[1..], key);
      InsertSorted(s[0], SortBy(s[1..], key), key);
    }
  }

  /** Appending an element whose key is new keeps the keys unique. */
  lemma UniqueKeysAppend<T>(s: seq<T>, x: T, key: T -> string)
    requires UniqueKeys(s, key)
    requires forall y :: y in s ==> key(y) != key(x)
    ensures UniqueKeys(s + [x], key)
  {
    forall i, j | 0 <= i < j < |s| + 1 ensures key((s + [x])[i]) != key((s + [x])[j]) {
      if j == |s| { assert (s + [x])[i] == s[i]; }
    }
  }

  /** With unique keys no element occurs twice. */
  lemma {:induction false} UniqueKeysCount<T>(s: seq<T>, x: T, key: T -> string)
    requires UniqueKeys(s, key)
    ensures multiset(s)[x] <= 1
  {
    if s != [] {
      assert UniqueKeys(s[1..], key);
      UniqueKeysCount(s[1..], x, key);
      assert s == [s[0]] + s[1..];
    }
  }

  /** Unique keys are kept by any rearrangement of the elements. */
  lemma UniqueKeysPermutation<T>(s: seq<T>, t: seq<T>, key: T -> string)
    requires UniqueKeys(s, key)
    requires multiset(s) == multiset(t)
    ensures UniqueKeys(t, key)
  {
    forall i, j | 0 <= i < j < |t| ensures key(t[i]) != key(t[j]) {
      if key(t[i]) == key(t[j]) {
        assert t[i] in multiset(s) && t[j] in multiset(s);
        var a :| 0 <= a < |s| && s[a] == t[i];
        var b :| 0 <= b < |s| && s[b] == t[j];
        if t[i] == t[j] {
          assert t == t[..i] + [t[i]] + t[i + 1..j] + [t[j]] + t[j + 1..];
          UniqueKeysCount(s, t[i], key);
        }
      }
    }
  }

  /** Adding an element whose key is new, anywhere, keeps the keys unique. */
  lemma UniqueKeysAdd<T>(s: seq<T>, t: seq<T>, x: T, key: T -> string)
    requires UniqueKeys(s, key)
    requires forall y :: y in s ==> key(y) != key(x)
    requires multiset(t) == multiset(s) + multiset{x}
    ensures UniqueKeys(t, key)
  {
    UniqueKeysAppend(s, x, key);
    UniqueKeysPermutation(s + [x], t, key);
  }

  /** Two sorted arrangements of the same elements with unique keys start alike. */
  lemma HeadsEqual<T>(s: seq<T>, t: seq<T>, key: T -> string)
    requires s != []
    requires SortedBy(s, key) && SortedBy(t, key)
    requires UniqueKeys(s, key)
    requires multiset(s) == multiset(t)
    ensures t != [] && s[0] == t[0]
  {
    assert s[0] in multiset(t);
    var b :| 0 <= b < |t| && t[b] == s[0];
    assert t[0] in multiset(s);
    var a :| 0 <= a < |s| && s[a] == t[0];
    if a != 0 && b != 0 {
      assert StrLe(key(s[0]), key(s[a]));
      assert StrLe(key(t[0]), key(t[b]));
      StrLeAntisymmetric(key(s[0]), key(t[0]));
    }
  }

  /** The tail of a sorted list with unique keys is one too, holding the other elements. */
  lemma Tail<T>(s: seq<T>, key: T -> string)
    requires s != [] && SortedBy(s, key) && UniqueKeys(s, key)
    ensures SortedBy(s[1..], key) && UniqueKeys(s[1..], key)
    ensures multiset(s[1..]) == multiset(s) - multiset{s[0]}
  {
    assert s == [s[0]] + s[1..];
  }

  /** A list sorted by unique keys is determined by its elements alone: the order in
      which they were collected does not matter. */
  lemma {:induction false} SortedUnique<T>(s: seq<T>, t: seq<T>, key: T -> string)
    requires SortedBy(s, key) && SortedBy(t, key)
    requires UniqueKeys(s, key)
    requires multiset(s) == multiset(t)
    ensures s == t
  {
    if s == [] {
      assert |t| == |multiset(t)| == 0;
    } else {
      assert t != [] && s[0] == t[0] by {
        HeadsEqual(s, t, key);
      }
      assert SortedBy(s[1..], key) && SortedBy(t[1..], key) && UniqueKeys(s[1..], key)
             && multiset(s[1..]) == multiset(t[1..]) by {
        UniqueKeysPermutation(s, t, key);
        Tail(s, key);
        Tail(t, key);
      }
      SortedUnique(s[1..], t[1..], key);
      assert s == [s[0]] + s[1..] && t == [t[0]] + t[1..];
    }
  }
}
