/**
 * `emitter/_helpers/new_listener_mapping.py`: the registry, a three-level
 * nested map event type -> scope -> listener -> options. The outer level is
 * a `defaultdict` whose missing keys read as an empty `defaultdict` of
 * scopes, whose missing keys read as an empty insertion-ordered bucket.
 * The event-type level is never iterated, so it is a plain map; the scope
 * and listener levels are iterated in insertion order.
 */
module Mapping {
  import opened Wrappers
  import opened Python
  import opened Dict
  import opened Types

  type ScopeMap = seq<(Scope, Bucket)>
  type Registry = map<Class, ScopeMap>

  /** The scopes of an event type, read without storing anything. */
  function ScopesOf(reg: Registry, t: Class): ScopeMap {
    if t in reg then reg[t] else []
  }

  /** The bucket of an event type and scope, read without storing anything. */
  function BucketOf(reg: Registry, t: Class, s: Scope): Bucket {
    Find(ScopesOf(reg, t), s).GetOr([])
  }

  /** `new_listener_mapping()`: every type has no scopes and every bucket is
      empty. */
  function NewListenerMapping(): (reg: Registry)
    ensures forall t :: ScopesOf(reg, t) == []
    ensures forall t, s :: BucketOf(reg, t, s) == []
  {
    map[]
  }

  /** No duplicate scope in a type, no duplicate listener in a bucket. */
  ghost predicate WellFormed(reg: Registry) {
    forall t :: t in reg ==>
      && UniqueKeys(reg[t])
      && forall i :: 0 <= i < |reg[t]| ==> UniqueKeys(reg[t][i].1)
  }

  /** `reg[t]` on the outer `defaultdict`: a missing type is stored with no
      scopes; no bucket changes. */
  function VivifyType(reg: Registry, t: Class): (r: Registry)
    ensures t in r
    ensures r.Keys == reg.Keys + {t}
    ensures forall t' :: ScopesOf(r, t') == ScopesOf(reg, t')
  {
    if t in reg then reg else reg[t := []]
  }

  /** `reg[t][s]`: both a missing type and a missing scope are stored, the
      scope last among its type's scopes; no bucket's contents change. */
  function VivifyScope(reg: Registry, t: Class, s: Scope): (r: Registry)
    ensures t in r && HasKey(r[t], s)
    ensures r.Keys == reg.Keys + {t}
    ensures forall t', s' :: BucketOf(r, t', s') == BucketOf(reg, t', s')
  {
    var scopes := Vivify(ScopesOf(reg, t), s, []);
    var r := reg[t := scopes];
    assert HasKey(scopes, s) by {
      if !HasKey(ScopesOf(reg, t), s) {
        assert Keys(scopes) == Keys(ScopesOf(reg, t)) + [s];
      }
    }
    forall t', s' ensures BucketOf(r, t', s') == BucketOf(reg, t', s') {
      if t' == t && !HasKey(ScopesOf(reg, t), s) {
        FindAppend(ScopesOf(reg, t), s, [], s');
      }
    }
    r
  }

  /** Looking a key up after appending a new pair. */
  lemma {:induction false} FindAppend<K, V>(d: seq<(K, V)>, k: K, v: V, k': K)
    requires !HasKey(d, k)
    ensures Find(d + [(k, v)], k') == if k' == k then Some(v) else Find(d, k')
  {
    PutNew(d, k, v);
    PutFind(d, k, v, k');
  }

  /** Stores a bucket under an event type and scope (`reg[t][s] = b` after
      the reads that create them). */
  function SetBucket(reg: Registry, t: Class, s: Scope, b: Bucket): (r: Registry)
    ensures r.Keys == reg.Keys + {t}
    ensures forall t', s' :: BucketOf(r, t', s') == if t' == t && s' == s then b else BucketOf(reg, t', s')
  {
    var r := reg[t := Put(ScopesOf(reg, t), s, b)];
    forall t', s' ensures BucketOf(r, t', s') == if t' == t && s' == s then b else BucketOf(reg, t', s') {
      if t' == t {
        PutFind(ScopesOf(reg, t), s, b, s');
      }
    }
    r
  }

  /** `reg[t][s][l] = opts`, the insertion `on` performs. */
  function Insert(reg: Registry, t: Class, s: Scope, l: Obj, opts: ListenerOpts): Registry {
    SetBucket(reg, t, s, Put(BucketOf(reg, t, s), l, opts))
  }

  /** After the insertion the listener is in its bucket with those options,
      and every other bucket is as it was. */
  lemma InsertFind(reg: Registry, t: Class, s: Scope, l: Obj, opts: ListenerOpts)
    ensures Find(BucketOf(Insert(reg, t, s, l, opts), t, s), l) == Some(opts)
    ensures forall l' :: l' != l ==>
      Find(BucketOf(Insert(reg, t, s, l, opts), t, s), l') == Find(BucketOf(reg, t, s), l')
    ensures forall t', s' :: (t' != t || s' != s) ==>
      BucketOf(Insert(reg, t, s, l, opts), t', s') == BucketOf(reg, t', s')
  {
    forall l' ensures Find(BucketOf(Insert(reg, t, s, l, opts), t, s), l') ==
                     if l' == l then Some(opts) else Find(BucketOf(reg, t, s), l') {
      PutFind(BucketOf(reg, t, s), l, opts, l');
    }
  }

  /** Registering a listener that is already in its bucket only overwrites
      its options: no entry moves and none is added. A new listener goes
      last. */
  lemma InsertPosition(reg: Registry, t: Class, s: Scope, l: Obj, opts: ListenerOpts)
    requires WellFormed(reg)
    ensures var before := BucketOf(reg, t, s);
            var after := BucketOf(Insert(reg, t, s, l, opts), t, s);
            if HasKey(before, l) then
              && |after| == |before|
              && forall i :: 0 <= i < |before| ==> after[i] == if before[i].0 == l then (l, opts) else before[i]
            else after == before + [(l, opts)]
  {
    var before := BucketOf(reg, t, s);
    BucketOfUnique(reg, t, s);
    if HasKey(before, l) {
      PutExisting(before, l, opts);
    } else {
      PutNew(before, l, opts);
    }
  }

  /** Every bucket of a well-formed registry has unique listeners. */
  lemma BucketOfUnique(reg: Registry, t: Class, s: Scope)
    requires WellFormed(reg)
    ensures UniqueKeys(BucketOf(reg, t, s))
  {
    if t in reg {
      FindValueIn(reg[t], s);
    }
  }

  /** A found value is the value of some pair. */
  lemma {:induction false} FindValueIn<K, V>(d: seq<(K, V)>, k: K)
    ensures Find(d, k).Some? ==> exists i :: 0 <= i < |d| && d[i].1 == Find(d, k).value
  {
    if d != [] && d[0].0 != k {
      FindValueIn(d[1..], k);
      if Find(d, k).Some? {
        var i :| 0 <= i < |d[1..]| && d[1..][i].1 == Find(d, k).value;
        assert d[i + 1].1 == Find(d, k).value;
      }
    }
  }

  /** Setting a bucket with unique listeners keeps the registry well formed. */
  lemma SetBucketWellFormed(reg: Registry, t: Class, s: Scope, b: Bucket)
    requires WellFormed(reg) && UniqueKeys(b)
    ensures WellFormed(SetBucket(reg, t, s, b))
  {
    var scopes := ScopesOf(reg, t);
    var r: Registry := SetBucket(reg, t, s, b);
    PutUnique(scopes, s, b);
    forall i | 0 <= i < |r[t]| ensures UniqueKeys(r[t][i].1) {
      PutValues(scopes, s, b, i);
    }
  }

  /** Every value after `d[k] = v` is `v` or an old value. */
  lemma {:induction false} PutValues<K, V>(d: seq<(K, V)>, k: K, v: V, i: nat)
    requires i < |Put(d, k, v)|
    ensures Put(d, k, v)[i].1 == v || exists j :: 0 <= j < |d| && d[j].1 == Put(d, k, v)[i].1
  {
    if d != [] && d[0].0 != k && i > 0 {
      PutValues(d[1..], k, v, i - 1);
      if Put(d, k, v)[i].1 != v {
        var j :| 0 <= j < |d[1..]| && d[1..][j].1 == Put(d[1..], k, v)[i - 1].1;
        assert d[j + 1].1 == Put(d, k, v)[i].1;
      }
    } else if d != [] && i > 0 {
      assert Put(d, k, v)[i] == d[i];
    }
  }

  /** Insertion keeps the registry well formed: a listener never appears
      twice in one bucket. */
  lemma InsertWellFormed(reg: Registry, t: Class, s: Scope, l: Obj, opts: ListenerOpts)
    requires WellFormed(reg)
    ensures WellFormed(Insert(reg, t, s, l, opts))
  {
    BucketOfUnique(reg, t, s);
    PutUnique(BucketOf(reg, t, s), l, opts);
    SetBucketWellFormed(reg, t, s, Put(BucketOf(reg, t, s), l, opts));
  }
}
