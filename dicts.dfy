/**
  Python's insertion-ordered `dict`, as the list of its items (key, value), oldest key first.
  Assigning to a key that is already present replaces its value in place; a new key goes
  at the end. Building a dict from a list of pairs (a `for` loop of assignments, or a dict
  comprehension) therefore keeps, for each key, its first position and its last value.
*/
module Dicts {
  import opened Wrappers

  /** The keys of the items, in order. */
  function Keys<K, V>(d: seq<(K, V)>): (ks: seq<K>)
    ensures |ks| == |d|
    ensures forall i :: 0 <= i < |d| ==> ks[i] == d[i].0
  {
    seq(|d|, i requires 0 <= i < |d| => d[i].0)
  }

  /** Every key appears once: what a Python dict always satisfies. */
  predicate NoDupKeys<K(==), V>(d: seq<(K, V)>)
  {
    forall i, j :: 0 <= i < j < |d| ==> d[i].0 != d[j].0
  }

  /** `d.get(k)`: the value stored under `k`, if any. */
  function Get<K(==), V>(d: seq<(K, V)>, k: K): Option<V>
  {
    if d == [] then None
    else if d[0].0 == k then Some(d[0].1)
    else Get(d[1..], k)
  }

  /** A key has a value exactly when it is one of the keys, and that value is its item's. */
  lemma {:induction false} GetKeys<K, V>(d: seq<(K, V)>, k: K)
    ensures Get(d, k).None? <==> k !in Keys(d)
    ensures Get(d, k).Some? ==> (k, Get(d, k).value) in d
  {
    if d != [] {
      assert Keys(d) == [d[0].0] + Keys(d[1..]);
      GetKeys(d[1..], k);
    }
  }

  /** `d[k] = v`: replace the value of an existing key where it stands, or append a new key. */
  function Put<K(==), V>(d: seq<(K, V)>, k: K, v: V): seq<(K, V)>
  {
    if d == [] then [(k, v)]
    else if d[0].0 == k then [(k, v)] + d[1..]
    else [d[0]] + Put(d[1..], k, v)
  }

  /** The keys of two lists of items laid end to end. */
  lemma KeysConcat<K, V>(a: seq<(K, V)>, b: seq<(K, V)>)
    ensures Keys(a + b) == Keys(a) + Keys(b)
  {
  }

  /** Assigning to a present key keeps the keys as they are; a new key goes at the end. */
  lemma {:induction false} PutKeys<K, V>(d: seq<(K, V)>, k: K, v: V)
    ensures Keys(Put(d, k, v)) == if k in Keys(d) then Keys(d) else Keys(d) + [k]
    ensures k !in Keys(d) ==> Put(d, k, v) == d + [(k, v)]
  {
    if d != [] {
      KeysConcat([d[0]], d[1..]);
      assert d == [d[0]] + d[1..];
      if d[0].0 == k {
        KeysConcat([(k, v)], d[1..]);
      } else {
        PutKeys(d[1..], k, v);
        KeysConcat([d[0]], Put(d[1..], k, v));
        if k !in Keys(d) {
          assert [d[0]] + (d[1..] + [(k, v)]) == d + [(k, v)];
        }
      }
    }
  }

  /** The value of the last pair with key `k`. */
  function LastValue<K(==), V>(s: seq<(K, V)>, k: K): Option<V>
  {
    if s == [] then None
    else if s[|s| - 1].0 == k then Some(s[|s| - 1].1)
    else LastValue(s[..|s| - 1], k)
  }

  lemma LastValueAppend<K, V>(s: seq<(K, V)>, p: (K, V), k: K)
    ensures LastValue(s + [p], k) == if p.0 == k then Some(p.1) else LastValue(s, k)
  {
    assert (s + [p])[..|s|] == s;
  }

  /** The dict built by assigning the pairs of `s` one after the other. */
  function FromPairs<K(==), V>(s: seq<(K, V)>): seq<(K, V)>
  {
    if s == [] then []
    else Put(FromPairs(s[..|s| - 1]), s[|s| - 1].0, s[|s| - 1].1)
  }

  /** Assigning one more pair to the built dict. */
  lemma FromPairsAppend<K, V>(s: seq<(K, V)>, p: (K, V))
    ensures FromPairs(s + [p]) == Put(FromPairs(s), p.0, p.1)
  {
    assert (s + [p])[..|s|] == s;
  }

  /** The elements of `xs` without repetitions, each at its first position. */
  function Dedup<K(==)>(xs: seq<K>): seq<K>
  {
    if xs == [] then []
    else
      var d := Dedup(xs[..|xs| - 1]);
      if xs[|xs| - 1] in d then d else d + [xs[|xs| - 1]]
  }

  /** After `d[k] = v`, looking up `k` gives `v` and every other key is unaffected. */
  lemma {:induction false} GetPut<K, V>(d: seq<(K, V)>, k: K, v: V, k': K)
    ensures Get(Put(d, k, v), k') == if k' == k then Some(v) else Get(d, k')
  {
    if d != [] && d[0].0 != k {
      GetPut(d[1..], k, v, k');
    }
  }

  /** Assignment keeps the keys unique. */
  lemma PutNoDup<K, V>(d: seq<(K, V)>, k: K, v: V)
    requires NoDupKeys(d)
    ensures NoDupKeys(Put(d, k, v))
  {
    var r := Put(d, k, v);
    PutKeys(d, k, v);
    forall i, j | 0 <= i < j < |r|
      ensures r[i].0 != r[j].0
    {
      assert Keys(r)[i] == r[i].0 && Keys(r)[j] == r[j].0;
      if k !in Keys(d) && j == |d| {
        assert Keys(d)[i] == d[i].0;
      } else {
        assert Keys(d)[i] == d[i].0 && Keys(d)[j] == d[j].0;
      }
    }
  }

  /** A key in the built dict holds the value of its last pair. */
  lemma {:induction false} FromPairsGet<K, V>(s: seq<(K, V)>, k: K)
    ensures Get(FromPairs(s), k) == LastValue(s, k)
  {
    if s != [] {
      FromPairsGet(s[..|s| - 1], k);
      GetPut(FromPairs(s[..|s| - 1]), s[|s| - 1].0, s[|s| - 1].1, k);
    }
  }

  /** The built dict has unique keys. */
  lemma {:induction false} FromPairsNoDup<K, V>(s: seq<(K, V)>)
    ensures NoDupKeys(FromPairs(s))
  {
    if s != [] {
      FromPairsNoDup(s[..|s| - 1]);
      PutNoDup(FromPairs(s[..|s| - 1]), s[|s| - 1].0, s[|s| - 1].1);
    }
  }

  /** The keys of the built dict are the keys of the pairs in order of first occurrence. */
  lemma {:induction false} FromPairsKeys<K, V>(s: seq<(K, V)>)
    ensures Keys(FromPairs(s)) == Dedup(Keys(s))
  {
    if s != [] {
      var n := |s| - 1;
      FromPairsKeys(s[..n]);
      PutKeys(FromPairs(s[..n]), s[n].0, s[n].1);
      assert Keys(s)[..n] == Keys(s[..n]);
    }
  }

  /** Pairs whose keys are already unique make a dict of exactly those items, in that order. */
  lemma {:induction false} FromPairsDistinct<K, V>(s: seq<(K, V)>)
    requires NoDupKeys(s)
    ensures FromPairs(s) == s
  {
    if s != [] {
      var n := |s| - 1;
      assert NoDupKeys(s[..n]);
      FromPairsDistinct(s[..n]);
      assert s[n].0 !in Keys(s[..n]) by {
        forall i | 0 <= i < n ensures Keys(s[..n])[i] != s[n].0 {
          assert Keys(s[..n])[i] == s[i].0;
        }
      }
      PutKeys(s[..n], s[n].0, s[n].1);
      assert s[..n] + [s[n]] == s;
    }
  }

  /** `d[k] = v` as a dict operation: keys stay unique, `k` now holds `v` and every other
      key keeps its value. */
  lemma Assigned<K, V>(d: seq<(K, V)>, k: K, v: V)
    ensures NoDupKeys(d) ==> NoDupKeys(Put(d, k, v))
    ensures forall k' :: Get(Put(d, k, v), k') == if k' == k then Some(v) else Get(d, k')
  {
    forall k' ensures Get(Put(d, k, v), k') == if k' == k then Some(v) else Get(d, k') {
      GetPut(d, k, v, k');
    }
    if NoDupKeys(d) {
      PutNoDup(d, k, v);
    }
  }
}
