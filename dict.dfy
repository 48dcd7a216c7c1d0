/**
 * An insertion-ordered dictionary (`dict` on Python 3.7+, `OrderedDict`
 * before), as the sequence of its key/value pairs in insertion order.
 * Lookup reads the first pair with the key; the operations below never
 * create a second pair for a key that is already present.
 */
module Dict {
  import opened Wrappers

  function Keys<K(==), V>(d: seq<(K, V)>): (ks: seq<K>)
    ensures |ks| == |d|
    ensures forall i :: 0 <= i < |d| ==> ks[i] == d[i].0
  {
    if d == [] then [] else [d[0].0] + Keys(d[1..])
  }

  predicate HasKey<K(==), V>(d: seq<(K, V)>, k: K) {
    k in Keys(d)
  }

  /** No key appears twice. */
  predicate UniqueKeys<K(==), V>(d: seq<(K, V)>) {
    forall i, j :: 0 <= i < j < |d| ==> d[i].0 != d[j].0
  }

  /** `d.get(k)`. */
  function Find<K(==), V>(d: seq<(K, V)>, k: K): (r: Option<V>)
    ensures r.Some? <==> HasKey(d, k)
  {
    if d == [] then None
    else if d[0].0 == k then Some(d[0].1)
    else Find(d[1..], k)
  }

  /** `d[k] = v`: overwrite in place when present, append otherwise. */
  function Put<K(==), V>(d: seq<(K, V)>, k: K, v: V): (r: seq<(K, V)>)
  {
    if d == [] then [(k, v)]
    else if d[0].0 == k then [(k, v)] + d[1..]
    else [d[0]] + Put(d[1..], k, v)
  }

  /** `d.pop(k, None)` / `del d[k]`, as the dictionary left behind. */
  function Del<K(==), V>(d: seq<(K, V)>, k: K): (r: seq<(K, V)>)
  {
    if d == [] then []
    else if d[0].0 == k then Del(d[1..], k)
    else [d[0]] + Del(d[1..], k)
  }

  /** A `defaultdict` read of `k`: a missing key is stored with the default. */
  function Vivify<K(==), V>(d: seq<(K, V)>, k: K, default: V): (r: seq<(K, V)>)
  {
    if HasKey(d, k) then d else d + [(k, default)]
  }

  /** The values, in insertion order. */
  function Values<K, V>(d: seq<(K, V)>): (vs: seq<V>)
    ensures |vs| == |d|
    ensures forall i :: 0 <= i < |d| ==> vs[i] == d[i].1
  {
    if d == [] then [] else [d[0].1] + Values(d[1..])
  }

  /** After `d[k] = v`, `k` maps to `v` and every other key keeps its value. */
  lemma {:induction false} PutFind<K, V>(d: seq<(K, V)>, k: K, v: V, k': K)
    ensures Find(Put(d, k, v), k') == if k' == k then Some(v) else Find(d, k')
  {
    if d != [] && d[0].0 != k {
      PutFind(d[1..], k, v, k');
    }
  }

  /** `d[k] = v` keeps the key order: an existing key stays where it was,
      a new key goes last. */
  lemma {:induction false} PutKeys<K, V>(d: seq<(K, V)>, k: K, v: V)
    ensures Keys(Put(d, k, v)) == if HasKey(d, k) then Keys(d) else Keys(d) + [k]
  {
    if d == [] {
    } else if d[0].0 == k {
      assert Keys(Put(d, k, v)) == [k] + Keys(d[1..]);
    } else {
      PutKeys(d[1..], k, v);
      assert Keys(d) == [d[0].0] + Keys(d[1..]);
      assert Keys(Put(d, k, v)) == [d[0].0] + Keys(Put(d[1..], k, v));
    }
  }

  /** Overwriting an existing key changes that one pair's value and nothing
      else: no pair moves and no pair is added. */
  lemma {:induction false} PutExisting<K, V>(d: seq<(K, V)>, k: K, v: V)
    requires UniqueKeys(d) && HasKey(d, k)
    ensures |Put(d, k, v)| == |d|
    ensures forall i :: 0 <= i < |d| ==> Put(d, k, v)[i] == if d[i].0 == k then (k, v) else d[i]
  {
    if d[0].0 != k {
      assert Keys(d) == [d[0].0] + Keys(d[1..]);
      PutExisting(d[1..], k, v);
      var r := Put(d, k, v);
      forall i | 0 <= i < |d| ensures r[i] == if d[i].0 == k then (k, v) else d[i] {
        if i > 0 {
          assert r[i] == Put(d[1..], k, v)[i - 1];
        }
      }
    } else {
      forall i | 0 < i < |d| ensures d[i].0 != k { }
    }
  }

  /** A new key is appended after every existing pair. */
  lemma {:induction false} PutNew<K, V>(d: seq<(K, V)>, k: K, v: V)
    requires !HasKey(d, k)
    ensures Put(d, k, v) == d + [(k, v)]
  {
    if d != [] {
      assert Keys(d) == [d[0].0] + Keys(d[1..]);
      PutNew(d[1..], k, v);
      assert [d[0]] + (d[1..] + [(k, v)]) == d + [(k, v)];
    }
  }

  /** `d[k] = v` never creates a duplicate key. */
  lemma {:induction false} PutUnique<K, V>(d: seq<(K, V)>, k: K, v: V)
    requires UniqueKeys(d)
    ensures UniqueKeys(Put(d, k, v))
  {
    if HasKey(d, k) {
      PutExisting(d, k, v);
    } else {
      PutNew(d, k, v);
    }
  }

  /** After deletion the key is gone and every other key keeps its value. */
  lemma {:induction false} DelFind<K, V>(d: seq<(K, V)>, k: K, k': K)
    ensures Find(Del(d, k), k') == if k' == k then None else Find(d, k')
  {
    if d != [] {
      DelFind(d[1..], k, k');
    }
  }

  /** Deletion keeps the remaining pairs in their order: it removes exactly
      the pairs with that key. */
  lemma {:induction false} DelKeep<K, V>(d: seq<(K, V)>, k: K, e: (K, V))
    ensures e in Del(d, k) <==> e in d && e.0 != k
    ensures |Del(d, k)| <= |d|
  {
    if d != [] {
      DelKeep(d[1..], k, e);
      assert d == [d[0]] + d[1..];
    }
  }

  /** Deleting an absent key changes nothing. */
  lemma {:induction false} DelAbsent<K, V>(d: seq<(K, V)>, k: K)
    requires !HasKey(d, k)
    ensures Del(d, k) == d
  {
    if d != [] {
      assert Keys(d) == [d[0].0] + Keys(d[1..]);
      DelAbsent(d[1..], k);
    }
  }

  /** Deletion distributes over concatenation. */
  lemma {:induction false} DelAppend<K, V>(a: seq<(K, V)>, b: seq<(K, V)>, k: K)
    ensures Del(a + b, k) == Del(a, k) + Del(b, k)
  {
    if a != [] {
      assert (a + b)[1..] == a[1..] + b;
      DelAppend(a[1..], b, k);
    } else {
      assert a + b == b;
    }
  }

  /** Deletion never creates a duplicate key. */
  lemma {:induction false} DelUnique<K, V>(d: seq<(K, V)>, k: K)
    requires UniqueKeys(d)
    ensures UniqueKeys(Del(d, k))
  {
    if d != [] {
      DelUnique(d[1..], k);
      if d[0].0 != k {
        assert Del(d, k) == [d[0]] + Del(d[1..], k);
        forall e | e in Del(d[1..], k) ensures e.0 != d[0].0 {
          DelKeep(d[1..], k, e);
        }
      }
    }
  }
}
