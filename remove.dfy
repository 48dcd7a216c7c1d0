/**
 * `emitter/_remove.py`: `remove(event_type, listener, scope=, namespace=)`.
 * Without an event type everything is cleared; with one and neither a
 * listener nor a scope, the whole type goes; otherwise the listener is
 * popped from (or, without a listener, every bucket is deleted among) the
 * type's buckets whose scope passes `limit_scope`, emptied buckets are
 * deleted, and a type left with no bucket is deleted.
 *
 * The loop of lines 88-97 deletes scope entries from the dictionary whose
 * live `items()` view it is iterating, which CPython answers with a
 * RuntimeError at the next step. `SweepAsWritten` models that; `Sweep`
 * iterates a snapshot of the filtered pairs, as evidently intended, and is
 * what the rest of the model uses.
 */
module Removal {
  import opened Wrappers
  import opened Python
  import opened Dict
  import opened Types
  import opened Mapping
  import opened ScopeParsing
  import opened LimitScope
  import opened State
  import opened Namespaces
  import Seqs

  /** `bool(bucket.pop(listener, None))`: the listener was there with
      options other than `NOP`. */
  predicate PopTruthy(b: Bucket, l: Obj) {
    Find(b, l).Some? && Truthy(Find(b, l).value)
  }

  /** One step of the loop on the live scope map: pop the listener from the
      live bucket of scope `s` and delete the bucket if that emptied it, or,
      without a listener, delete the bucket. Returns the map, whether the
      bucket was deleted, and the `removal` flag. */
  function Step(live: ScopeMap, s: Scope, listener: Option<Obj>, removal: bool): (r: (ScopeMap, bool, bool))
  {
    if listener.Some? then
      var b := Find(live, s).GetOr([]);
      var removal' := PopTruthy(b, listener.value) || removal;
      var b' := Del(b, listener.value);
      if b' != [] then (Put(live, s, b'), false, removal')
      else (Del(live, s), true, removal')
    else (Del(live, s), true, removal)
  }

  /** The loop over a snapshot of the filtered pairs: every step runs. */
  function Sweep(live: ScopeMap, todo: seq<(Scope, Bucket)>, listener: Option<Obj>, removal: bool): (ScopeMap, bool)
    decreases |todo|
  {
    if todo == [] then (live, removal)
    else
      var (live', _, removal') := Step(live, todo[0].0, listener, removal);
      Sweep(live', todo[1..], listener, removal')
  }

  /** The loop as written, over the live view: the iteration step after the
      first deletion raises RuntimeError, leaving the deletion done. */
  function SweepAsWritten(live: ScopeMap, todo: seq<(Scope, Bucket)>, listener: Option<Obj>, removal: bool)
    : (ScopeMap, Result<bool, Error>)
    decreases |todo|
  {
    if todo == [] then (live, Success(removal))
    else
      var (live', deleted, removal') := Step(live, todo[0].0, listener, removal);
      if deleted then (live', Failure(RuntimeError))
      else SweepAsWritten(live', todo[1..], listener, removal')
  }

  /** The scope map a removal should leave: every bucket whose scope passes
      loses the listener (or, without a listener, goes), and a bucket left
      empty goes; the other buckets stay in place. */
  function Prune(sm: ScopeMap, scope: Option<string>, listener: Option<Obj>): (r: ScopeMap)
    ensures |r| <= |sm|
  {
    if sm == [] then []
    else
      var rest := Prune(sm[1..], scope, listener);
      if !Matches(scope, sm[0].0) then [sm[0]] + rest
      else if listener.Some? && Del(sm[0].1, listener.value) != [] then [(sm[0].0, Del(sm[0].1, listener.value))] + rest
      else rest
  }

  /** Whether some bucket whose scope passes held the listener with options
      other than `NOP`. */
  predicate Popped(sm: ScopeMap, scope: Option<string>, l: Obj) {
    exists i :: 0 <= i < |sm| && Matches(scope, sm[i].0) && PopTruthy(sm[i].1, l)
  }

  /** The registry-level body of `remove` once the registry is selected. */
  function RemoveIn(reg: Registry, t: Option<Class>, listener: Option<Obj>, scope: Option<string>)
    : (res: (Registry, Result<bool, Error>))
  {
    if reg == map[] then (reg, Success(true))
    else if t.None? then
      if listener.None? && scope.None? then (map[], Success(true))
      else (reg, Failure(ValueError))
    else
      var c := t.value;
      if listener.Some? || scope.Some? then
        var reg1 := VivifyType(reg, c);
        var (sm, removal) := Sweep(reg1[c], Limit(scope, reg1[c]), listener, false);
        if sm != [] then (reg1[c := sm], Success(removal))
        else (reg1 - {c}, Success(removal))
      else if c in reg then (reg - {c}, Success(true))
      else (reg, Failure(KeyError))
  }

  /** The same body with the loop as written. */
  function RemoveInAsWritten(reg: Registry, t: Option<Class>, listener: Option<Obj>, scope: Option<string>)
    : (res: (Registry, Result<bool, Error>))
  {
    if reg == map[] then (reg, Success(true))
    else if t.None? then
      if listener.None? && scope.None? then (map[], Success(true))
      else (reg, Failure(ValueError))
    else
      var c := t.value;
      if listener.Some? || scope.Some? then
        var reg1 := VivifyType(reg, c);
        var (sm, removal) := SweepAsWritten(reg1[c], Limit(scope, reg1[c]), listener, false);
        if removal.Failure? then (reg1[c := sm], removal)
        else if sm != [] then (reg1[c := sm], removal)
        else (reg1 - {c}, removal)
      else if c in reg then (reg - {c}, Success(true))
      else (reg, Failure(KeyError))
  }

  /** `remove(...)`: select the registry (the global one without a
      namespace), then remove from it. */
  function Remove(f: Facts, w: World, t: Option<Class>, listener: Option<Obj>, scope: Option<string>, ns: NsArg)
    : (res: (World, Result<bool, Error>))
    requires Valid(w) && ValidNs(w, ns)
    ensures Valid(res.0)
  {
    var (w1, reg) := if ns.NoNamespace? then (w, Success(GlobalReg)) else Resolve(f, w, ns);
    if reg.Failure? then (w1, Failure(reg.error))
    else
      var (reg', r) := RemoveIn(w1.regs[reg.value], t, listener, scope);
      (WithReg(w1, reg.value, reg'), r)
  }

  /** An empty registry: True, nothing changes. Everything cleared without
      an event type; a listener or a scope without one is a ValueError. */
  lemma RemoveWithoutType(reg: Registry, listener: Option<Obj>, scope: Option<string>)
    ensures reg == map[] ==> RemoveIn(reg, None, listener, scope) == (reg, Success(true))
    ensures reg != map[] && listener.None? && scope.None? ==> RemoveIn(reg, None, listener, scope) == (map[], Success(true))
    ensures reg != map[] && (listener.Some? || scope.Some?) ==> RemoveIn(reg, None, listener, scope) == (reg, Failure(ValueError))
  {
  }

  /** With an event type and neither a listener nor a scope, the type entry
      is deleted and True returned; an absent type is a KeyError. */
  lemma RemoveWholeType(reg: Registry, c: Class)
    requires reg != map[]
    ensures c in reg ==> RemoveIn(reg, Some(c), None, None) == (reg - {c}, Success(true))
    ensures c !in reg ==> RemoveIn(reg, Some(c), None, None) == (reg, Failure(KeyError))
  {
  }

  /** Looking up the key of the middle pair. */
  lemma {:induction false} FindMiddle<K, V>(a: seq<(K, V)>, k: K, v: V, b: seq<(K, V)>)
    requires !HasKey(a, k)
    ensures Find(a + [(k, v)] + b, k) == Some(v)
  {
    if a != [] {
      assert (a + [(k, v)] + b)[1..] == a[1..] + [(k, v)] + b;
      assert Keys(a) == [a[0].0] + Keys(a[1..]);
      FindMiddle(a[1..], k, v, b);
    }
  }

  /** Overwriting the key of the middle pair in place. */
  lemma {:induction false} PutMiddle<K, V>(a: seq<(K, V)>, k: K, v: V, v': V, b: seq<(K, V)>)
    requires !HasKey(a, k)
    ensures Put(a + [(k, v)] + b, k, v') == a + [(k, v')] + b
  {
    if a != [] {
      assert (a + [(k, v)] + b)[1..] == a[1..] + [(k, v)] + b;
      assert Keys(a) == [a[0].0] + Keys(a[1..]);
      PutMiddle(a[1..], k, v, v', b);
    }
  }

  /** Deleting the key of the middle pair when it occurs nowhere else. */
  lemma DelMiddle<K, V>(a: seq<(K, V)>, k: K, v: V, b: seq<(K, V)>)
    requires !HasKey(a, k) && !HasKey(b, k)
    ensures Del(a + [(k, v)] + b, k) == a + b
  {
    DelAppend(a + [(k, v)], b, k);
    DelAppend(a, [(k, v)], k);
    DelAbsent(a, k);
    DelAbsent(b, k);
    assert Del([(k, v)], k) == [] by {
      assert [(k, v)][1..] == [];
    }
  }

  /** The facts about the middle pair of a map with unique keys. */
  lemma UniqueMiddle<K, V>(a: seq<(K, V)>, k: K, v: V, v': V, b: seq<(K, V)>)
    requires UniqueKeys(a + [(k, v)] + b)
    ensures !HasKey(a, k) && !HasKey(b, k)
    ensures UniqueKeys(a + [(k, v')] + b) && UniqueKeys(a + b) && UniqueKeys((a + [(k, v')]) + b)
  {
    var m := a + [(k, v)] + b;
    assert m[|a|] == (k, v);
    forall i | 0 <= i < |a| ensures a[i].0 != k {
      assert m[i] == a[i];
    }
    forall i | 0 <= i < |b| ensures b[i].0 != k {
      assert m[|a| + 1 + i] == b[i];
    }
    var m' := a + [(k, v')] + b;
    forall i, j | 0 <= i < j < |m'| ensures m'[i].0 != m'[j].0 {
      assert m'[i].0 == m[i].0 && m'[j].0 == m[j].0;
    }
    var n := a + b;
    forall i, j | 0 <= i < j < |n| ensures n[i].0 != n[j].0 {
      var i' := if i < |a| then i else i + 1;
      var j' := if j < |a| then j else j + 1;
      assert n[i] == m[i'] && n[j] == m[j'];
    }
  }

  /** The snapshot loop from the pairs `b` of the live map `a + b`, `a`
      already done, leaves `a` followed by the pruned `b`, and raises the
      flag exactly when some passing bucket of `b` gave a truthy pop. */
  lemma {:induction false} SweepSplit(a: ScopeMap, b: ScopeMap, scope: Option<string>, listener: Option<Obj>, removal: bool)
    requires UniqueKeys(a + b)
    ensures Sweep(a + b, Limit(scope, b), listener, removal) ==
      (a + Prune(b, scope, listener), removal || (listener.Some? && Popped(b, scope, listener.value)))
    decreases |b|, 1
  {
    if b == [] {
      assert a + b == a;
      assert Limit(scope, b) == [];
    } else if !Matches(scope, b[0].0) {
      SweepSkip(a, b, scope, listener, removal);
    } else if listener.Some? && Del(b[0].1, listener.value) != [] {
      SweepKeep(a, b, scope, listener.value, removal);
    } else {
      SweepDrop(a, b, scope, listener, removal);
    }
  }

  /** A bucket whose scope does not pass is left in place. */
  lemma {:induction false} SweepSkip(a: ScopeMap, b: ScopeMap, scope: Option<string>, listener: Option<Obj>, removal: bool)
    requires UniqueKeys(a + b) && b != [] && !Matches(scope, b[0].0)
    ensures Sweep(a + b, Limit(scope, b), listener, removal) ==
      (a + Prune(b, scope, listener), removal || (listener.Some? && Popped(b, scope, listener.value)))
    decreases |b|, 0
  {
    var (s, bucket) := b[0];
    var b' := b[1..];
    assert b == [(s, bucket)] + b';
    assert a + b == (a + [(s, bucket)]) + b';
    LimitCons(scope, (s, bucket), b');
    if listener.Some? {
      PoppedCons(b, scope, listener.value);
    }
    PruneCons(b, scope, listener);
    Seqs.ConcatAssoc(a, [(s, bucket)], Prune(b', scope, listener));
    SweepSplit(a + [(s, bucket)], b', scope, listener, removal);
  }

  /** A passing bucket that keeps other listeners loses the listener in
      place. */
  lemma {:induction false} SweepKeep(a: ScopeMap, b: ScopeMap, scope: Option<string>, l: Obj, removal: bool)
    requires UniqueKeys(a + b) && b != [] && Matches(scope, b[0].0) && Del(b[0].1, l) != []
    ensures Sweep(a + b, Limit(scope, b), Some(l), removal) ==
      (a + Prune(b, scope, Some(l)), removal || Popped(b, scope, l))
    decreases |b|, 0
  {
    var (s, bucket) := b[0];
    var b' := b[1..];
    var nb := Del(bucket, l);
    var removal' := PopTruthy(bucket, l) || removal;
    assert b == [(s, bucket)] + b';
    assert a + b == a + [(s, bucket)] + b';
    LimitCons(scope, (s, bucket), b');
    PoppedCons(b, scope, l);
    SweepCons(a + b, (s, bucket), Limit(scope, b'), Some(l), removal);
    StepMiddle(a, s, bucket, b', Some(l), removal);
    UniqueMiddle(a, s, bucket, nb, b');
    PruneCons(b, scope, Some(l));
    Seqs.ConcatAssoc(a, [(s, nb)], Prune(b', scope, Some(l)));
    SweepSplit(a + [(s, nb)], b', scope, Some(l), removal');
  }

  /** A passing bucket that the pop empties, or any passing bucket when no
      listener is given, is deleted. */
  lemma {:induction false} SweepDrop(a: ScopeMap, b: ScopeMap, scope: Option<string>, listener: Option<Obj>, removal: bool)
    requires UniqueKeys(a + b) && b != [] && Matches(scope, b[0].0)
    requires !(listener.Some? && Del(b[0].1, listener.value) != [])
    ensures Sweep(a + b, Limit(scope, b), listener, removal) ==
      (a + Prune(b, scope, listener), removal || (listener.Some? && Popped(b, scope, listener.value)))
    decreases |b|, 0
  {
    var (s, bucket) := b[0];
    var b' := b[1..];
    var removal' := (listener.Some? && PopTruthy(bucket, listener.value)) || removal;
    assert b == [(s, bucket)] + b';
    assert a + b == a + [(s, bucket)] + b';
    LimitCons(scope, (s, bucket), b');
    if listener.Some? {
      PoppedCons(b, scope, listener.value);
    }
    SweepCons(a + b, (s, bucket), Limit(scope, b'), listener, removal);
    StepMiddle(a, s, bucket, b', listener, removal);
    UniqueMiddle(a, s, bucket, bucket, b');
    PruneCons(b, scope, listener);
    SweepSplit(a, b', scope, listener, removal');
  }

  /** `Prune` on a non-empty map, one case per kind of first bucket. */
  lemma PruneCons(sm: ScopeMap, scope: Option<string>, listener: Option<Obj>)
    requires sm != []
    ensures !Matches(scope, sm[0].0) ==> Prune(sm, scope, listener) == [sm[0]] + Prune(sm[1..], scope, listener)
    ensures Matches(scope, sm[0].0) && listener.Some? && Del(sm[0].1, listener.value) != [] ==>
      Prune(sm, scope, listener) == [(sm[0].0, Del(sm[0].1, listener.value))] + Prune(sm[1..], scope, listener)
    ensures Matches(scope, sm[0].0) && !(listener.Some? && Del(sm[0].1, listener.value) != []) ==>
      Prune(sm, scope, listener) == Prune(sm[1..], scope, listener)
  {
  }

  /** The loop over a pair followed by more pairs. */
  lemma SweepCons(live: ScopeMap, x: (Scope, Bucket), rest: seq<(Scope, Bucket)>, listener: Option<Obj>, removal: bool)
    ensures Sweep(live, [x] + rest, listener, removal) ==
      Sweep(Step(live, x.0, listener, removal).0, rest, listener, Step(live, x.0, listener, removal).2)
  {
    assert ([x] + rest)[1..] == rest;
  }

  /** One step on the middle bucket of a map with unique scopes. */
  lemma StepMiddle(a: ScopeMap, s: Scope, bucket: Bucket, b: ScopeMap, listener: Option<Obj>, removal: bool)
    requires UniqueKeys(a + [(s, bucket)] + b)
    ensures var removal' := (listener.Some? && PopTruthy(bucket, listener.value)) || removal;
      Step(a + [(s, bucket)] + b, s, listener, removal) ==
        if listener.Some? && Del(bucket, listener.value) != [] then ((a + [(s, Del(bucket, listener.value))]) + b, false, removal')
        else (a + b, true, removal')
  {
    UniqueMiddle(a, s, bucket, bucket, b);
    FindMiddle(a, s, bucket, b);
    if listener.Some? && Del(bucket, listener.value) != [] {
      PutMiddle(a, s, bucket, Del(bucket, listener.value), b);
    } else {
      DelMiddle(a, s, bucket, b);
    }
  }

  /** `Popped` on a pair followed by more pairs. */
  lemma PoppedCons(sm: ScopeMap, scope: Option<string>, l: Obj)
    requires sm != []
    ensures Popped(sm, scope, l) <==>
      (Matches(scope, sm[0].0) && PopTruthy(sm[0].1, l)) || Popped(sm[1..], scope, l)
  {
    if Popped(sm, scope, l) && !(Matches(scope, sm[0].0) && PopTruthy(sm[0].1, l)) {
      var i :| 0 <= i < |sm| && Matches(scope, sm[i].0) && PopTruthy(sm[i].1, l);
      assert sm[1..][i - 1] == sm[i];
    }
    if Popped(sm[1..], scope, l) {
      var i :| 0 <= i < |sm[1..]| && Matches(scope, sm[1..][i].0) && PopTruthy(sm[1..][i].1, l);
      assert sm[i + 1] == sm[1..][i];
    }
  }

  /** The snapshot loop over a type's scope map yields the pruned map and
      the OR of the truthy pops. */
  lemma SweepPrunes(sm: ScopeMap, scope: Option<string>, listener: Option<Obj>)
    requires UniqueKeys(sm)
    ensures Sweep(sm, Limit(scope, sm), listener, false) ==
      (Prune(sm, scope, listener), listener.Some? && Popped(sm, scope, listener.value))
  {
    assert [] + sm == sm;
    SweepSplit([], sm, scope, listener, false);
    assert [] + Prune(sm, scope, listener) == Prune(sm, scope, listener);
  }

  /** What pruning leaves under each scope: the listener gone from a
      passing bucket, a passing bucket gone when emptied (or when there is
      no listener), every other bucket as it was. */
  lemma {:induction false} PruneFind(sm: ScopeMap, scope: Option<string>, listener: Option<Obj>, s: Scope)
    requires UniqueKeys(sm)
    ensures Find(Prune(sm, scope, listener), s) ==
      if Find(sm, s).None? || !Matches(scope, s) then Find(sm, s)
      else if listener.Some? && Del(Find(sm, s).value, listener.value) != [] then Some(Del(Find(sm, s).value, listener.value))
      else None
  {
    if sm != [] {
      assert UniqueKeys(sm[1..]) by {
        forall i, j | 0 <= i < j < |sm[1..]| ensures sm[1..][i].0 != sm[1..][j].0 {
          assert sm[1..][i] == sm[i + 1] && sm[1..][j] == sm[j + 1];
        }
      }
      PruneFind(sm[1..], scope, listener, s);
      if sm[0].0 == s {
        assert !HasKey(sm[1..], s) by {
          forall i | 0 <= i < |sm[1..]| ensures sm[1..][i].0 != s {
            assert sm[1..][i] == sm[i + 1];
          }
        }
      }
    }
  }

  /** Pruning keeps the scopes unique and leaves no empty bucket where it
      touched one. */
  lemma {:induction false} PruneUnique(sm: ScopeMap, scope: Option<string>, listener: Option<Obj>)
    requires UniqueKeys(sm)
    ensures UniqueKeys(Prune(sm, scope, listener))
    ensures forall s :: HasKey(Prune(sm, scope, listener), s) ==> HasKey(sm, s)
  {
    if sm != [] {
      assert UniqueKeys(sm[1..]) by {
        forall i, j | 0 <= i < j < |sm[1..]| ensures sm[1..][i].0 != sm[1..][j].0 {
          assert sm[1..][i] == sm[i + 1] && sm[1..][j] == sm[j + 1];
        }
      }
      PruneUnique(sm[1..], scope, listener);
      var rest := Prune(sm[1..], scope, listener);
      assert !HasKey(sm[1..], sm[0].0) by {
        forall i | 0 <= i < |sm[1..]| ensures sm[1..][i].0 != sm[0].0 {
          assert sm[1..][i] == sm[i + 1];
        }
      }
      assert !HasKey(rest, sm[0].0);
      forall s | HasKey(Prune(sm, scope, listener), s) ensures HasKey(sm, s) {
        assert Keys(sm) == [sm[0].0] + Keys(sm[1..]);
        if s != sm[0].0 {
          assert HasKey(rest, s) by {
            if HasKey(Prune(sm, scope, listener), s) {
              var p := Prune(sm, scope, listener);
              if p != rest {
                assert Keys(p) == [p[0].0] + Keys(rest);
              }
            }
          }
        }
      }
      var p := Prune(sm, scope, listener);
      if p != rest {
        assert p == [(sm[0].0, p[0].1)] + rest;
        forall i, j | 0 <= i < j < |p| ensures p[i].0 != p[j].0 {
          if i == 0 {
            assert p[j] == rest[j - 1];
            assert Keys(rest)[j - 1] == rest[j - 1].0;
          } else {
            assert p[i] == rest[i - 1] && p[j] == rest[j - 1];
          }
        }
      }
    }
  }

  /** Removing a listener (with or without a scope) from a well-formed
      registry: it is gone from every bucket of the type whose scope passes,
      every other listener and every other bucket stays, a bucket it emptied
      is gone, the type goes when no bucket is left, and the result is
      whether some passing bucket held it with options other than `NOP`. */
  lemma RemoveListener(reg: Registry, c: Class, l: Obj, scope: Option<string>)
    requires reg != map[] && Mapping.WellFormed(reg)
    ensures var (reg', r) := RemoveIn(reg, Some(c), Some(l), scope);
      && r == Success(Popped(ScopesOf(reg, c), scope, l))
      && (forall t' :: t' != c ==> ScopesOf(reg', t') == ScopesOf(reg, t'))
      && (forall s :: BucketOf(reg', c, s) ==
            if Matches(scope, s) then Del(BucketOf(reg, c, s), l) else BucketOf(reg, c, s))
      && (c in reg' <==> Prune(ScopesOf(reg, c), scope, Some(l)) != [])
  {
    var sm := ScopesOf(reg, c);
    assert UniqueKeys(sm);
    SweepPrunes(sm, scope, Some(l));
    forall s ensures BucketOf(RemoveIn(reg, Some(c), Some(l), scope).0, c, s) ==
                     if Matches(scope, s) then Del(BucketOf(reg, c, s), l) else BucketOf(reg, c, s) {
      PruneFind(sm, scope, Some(l), s);
    }
  }

  /** Removing by scope alone deletes every passing bucket of the type and
      keeps the others; the type goes when none is left; the result is
      False. */
  lemma RemoveScope(reg: Registry, c: Class, scope: string)
    requires reg != map[] && Mapping.WellFormed(reg)
    ensures var (reg', r) := RemoveIn(reg, Some(c), None, Some(scope));
      && r == Success(false)
      && (forall t' :: t' != c ==> ScopesOf(reg', t') == ScopesOf(reg, t'))
      && (forall s :: BucketOf(reg', c, s) == if Matches(Some(scope), s) then [] else BucketOf(reg, c, s))
      && (c in reg' <==> Prune(ScopesOf(reg, c), Some(scope), None) != [])
  {
    var sm := ScopesOf(reg, c);
    assert UniqueKeys(sm);
    SweepPrunes(sm, Some(scope), None);
    forall s ensures BucketOf(RemoveIn(reg, Some(c), None, Some(scope)).0, c, s) ==
                     if Matches(Some(scope), s) then [] else BucketOf(reg, c, s) {
      PruneFind(sm, Some(scope), None, s);
    }
  }

  /** The flag is the OR of `bool(popped options)`, not whether anything was
      removed: removing a listener registered with `NOP` reports False. */
  lemma RemoveNopReportsFalse(c: Class, l: Obj, other: Obj)
    requires l != other
    ensures var reg := map[c := [(EmptyScope, [(l, NOP), (other, NOP)])]];
      var (reg', r) := RemoveIn(reg, Some(c), Some(l), None);
      && r == Success(false)
      && reg' == map[c := [(EmptyScope, [(other, NOP)])]]
  {
    var sm := [(EmptyScope, [(l, NOP), (other, NOP)])];
    var reg := map[c := sm];
    var b := [(l, NOP), (other, NOP)];
    assert b[1..] == [(other, NOP)] && [(other, NOP)][1..] == [];
    assert Find(b, l) == Some(NOP);
    assert Del([(other, NOP)], l) == [(other, NOP)];
    assert Del(b, l) == [(other, NOP)];
    assert Find(sm, EmptyScope) == Some(b);
    assert Put(sm, EmptyScope, [(other, NOP)]) == [(EmptyScope, [(other, NOP)])];
    assert Step(sm, EmptyScope, Some(l), false) == ([(EmptyScope, [(other, NOP)])], false, false);
    assert Limit(None, sm) == sm;
    assert c in reg && VivifyType(reg, c) == reg;
    assert sm == [sm[0]] + [];
    SweepCons(sm, sm[0], [], Some(l), false);
    assert RemoveIn(reg, Some(c), Some(l), None).1 == Success(false);
  }

  /** The loop as written raises RuntimeError as soon as it deletes a
      bucket: removing the only listener of a type's only bucket deletes the
      bucket and then fails, where the snapshot loop deletes the bucket and
      the type and returns the flag. */
  lemma RemoveAsWrittenRaises(c: Class, l: Obj)
    ensures var reg := map[c := [(EmptyScope, [(l, NOP)])]];
      && RemoveInAsWritten(reg, Some(c), Some(l), None) == (map[c := []], Failure(RuntimeError))
      && RemoveIn(reg, Some(c), Some(l), None) == (map[], Success(false))
  {
    var sm := [(EmptyScope, [(l, NOP)])];
    assert [(l, NOP)][1..] == [] && sm[1..] == [];
    assert Del([(l, NOP)], l) == [];
    assert Find(sm, EmptyScope) == Some([(l, NOP)]);
    assert Del(sm, EmptyScope) == [];
    assert Step(sm, EmptyScope, Some(l), false) == ([], true, false);
    assert Limit(None, sm) == sm;
    var reg := map[c := sm];
    assert c in reg && VivifyType(reg, c) == reg;
    assert sm == [sm[0]] + [];
    SweepCons(sm, sm[0], [], Some(l), false);
    assert SweepAsWritten(sm, sm, Some(l), false) == ([], Failure(RuntimeError));
    assert reg[c := []] == map[c := []];
    assert map[c := sm] - {c} == map[];
  }

  /** As written, any removal that empties a passing bucket fails, so only
      removals that delete no bucket succeed; those agree with the snapshot
      loop. */
  lemma {:induction false} AsWrittenAgrees(live: ScopeMap, todo: seq<(Scope, Bucket)>, listener: Option<Obj>, removal: bool)
    requires SweepAsWritten(live, todo, listener, removal).1.Success?
    ensures SweepAsWritten(live, todo, listener, removal) ==
      (Sweep(live, todo, listener, removal).0, Success(Sweep(live, todo, listener, removal).1))
    decreases |todo|
  {
    if todo != [] {
      var (live', _, removal') := Step(live, todo[0].0, listener, removal);
      AsWrittenAgrees(live', todo[1..], listener, removal');
    }
  }
}
