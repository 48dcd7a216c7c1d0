/**
 * `_emit_single` of `emitter/_emit.py` when every listener completes: the
 * supertype loop, then the event type's own scope steps. The listeners run
 * exactly in `Dispatch` order, the emission reports whether any ran, and
 * every bucket that ran is left without its fire-once entries.
 */
module EmissionDispatch {
  import opened Wrappers
  import opened Python
  import opened Dict
  import opened Types
  import opened Seqs
  import opened Mapping
  import opened State
  import opened Emission
  import opened EmissionOrder

  /** No bucket of the registry holds a listener twice. */
  ghost predicate UniqueBuckets(reg: Registry) {
    forall t, s :: UniqueKeys(BucketOf(reg, t, s))
  }

  /** `w'` differs from `w` at most in registry `r` and in the invocation log. */
  ghost predicate OnlyRegChanged(w: World, w': World, r: RegId)
    requires r in w.regs && r in w'.regs
  {
    && w'.regs.Keys == w.regs.Keys
    && (forall r' :: r' in w.regs && r' != r ==> w'.regs[r'] == w.regs[r'])
    && w'.reported == w.reported
    && w'.nextReg == w.nextReg && w'.attrs == w.attrs && w'.loops == w.loops
  }

  /** `reg'` is `reg` with the empty-scope buckets of `types` stripped of
      their fire-once entries, every other bucket as it was. */
  ghost predicate PrunedTypes(reg: Registry, reg': Registry, types: seq<Class>) {
    forall t', s' :: BucketOf(reg', t', s') ==
      if s' == EmptyScope && t' in types then KeepPersistent(BucketOf(reg, t', s'))
      else BucketOf(reg, t', s')
  }

  /** No class occurs twice. */
  predicate Distinct(cs: seq<Class>) {
    forall a, b :: 0 <= a < b < |cs| ==> cs[a] != cs[b]
  }

  /** What the supertype loop from `j` on achieves when every listener
      completes: `out` is its final world and result. */
  ghost predicate SuperOutcome(w: World, out: (World, Result<bool, Error>), r: RegId,
                               supers: seq<Class>, j: nat, ev: Event, handled: bool)
    requires r in w.regs && j <= |supers|
  {
    && out.1 == Success(handled || SuperOrder(w.regs[r], supers, j) != [])
    && out.0.calls == w.calls + Invocations(SuperOrder(w.regs[r], supers, j), ev)
    && r in out.0.regs
    && OnlyRegChanged(w, out.0, r)
    && PrunedTypes(w.regs[r], out.0.regs[r], supers[j..])
  }

  /** The world after one iteration of the supertype loop, for supertype `t`. */
  function SuperHead(f: Facts, oracle: seq<Outcome>, w: World, r: RegId, t: Class, ev: Event): World
    requires Valid(w) && r in w.regs
  {
    var w1 := WithReg(w, r, VivifyType(w.regs[r], t));
    if ScopesOf(w1.regs[r], t) == [] then w1 else BucketHead(f, oracle, w1, r, t, ev)
  }

  /** The part of a supertype iteration after the type has some scope. */
  function BucketHead(f: Facts, oracle: seq<Outcome>, w1: World, r: RegId, t: Class, ev: Event): World
    requires Valid(w1) && r in w1.regs
  {
    var w2 := WithReg(w1, r, VivifyScope(w1.regs[r], t, EmptyScope));
    if BucketOf(w2.regs[r], t, EmptyScope) == [] then w2
    else ExecListeners(f, oracle, w2, r, t, EmptyScope, ev).0
  }

  /** The scope steps of a type's empty scope run exactly its empty-scope
      bucket. */
  lemma EmptyScopeOrder(reg: Registry, t: Class)
    ensures ScopeOrder(reg, t, EmptyScope, 0) == Keys(BucketOf(reg, t, EmptyScope))
  {
    assert EmptyScope[..0] == EmptyScope;
  }

  /** A confined change to one type is a confined change to the registry. */
  lemma OnlyTypeIsOnlyReg(w: World, w': World, r: RegId, t: Class)
    requires r in w.regs && r in w'.regs && OnlyTypeChanged(w, w', r, t)
    ensures OnlyRegChanged(w, w', r)
  {
  }

  /** Buckets of other types are read through their unchanged scope maps. */
  lemma OtherTypeBuckets(reg: Registry, reg': Registry, t: Class)
    requires forall t' :: t' != t ==> ScopesOf(reg', t') == ScopesOf(reg, t')
    ensures forall t', s' :: t' != t ==> BucketOf(reg', t', s') == BucketOf(reg, t', s')
  {
  }

  /** What running one type's empty-scope bucket achieves when every
      listener completes: `out` is the final world and result. */
  ghost predicate BucketOutcome(w: World, out: (World, Result<bool, Error>), r: RegId, t: Class, ev: Event)
    requires r in w.regs
  {
    && out.1 == Success(BucketOf(w.regs[r], t, EmptyScope) != [])
    && r in out.0.regs
    && BucketRan(w, out.0, r, t, ev)
  }

  /** `w'` is `w` after type `t`'s empty-scope bucket ran with every
      listener completing. */
  ghost predicate BucketRan(w: World, w': World, r: RegId, t: Class, ev: Event)
    requires r in w.regs && r in w'.regs
  {
    && w'.calls == w.calls + Invocations(Keys(BucketOf(w.regs[r], t, EmptyScope)), ev)
    && OnlyRegChanged(w, w', r)
    && PrunedTypes(w.regs[r], w'.regs[r], [t])
  }

  /** Pruning the scope prefixes of the empty scope prunes only the
      empty-scope bucket. */
  lemma PrunedEmptyScope(reg: Registry, reg': Registry, t: Class)
    requires PrunedFrom(reg, reg', t, EmptyScope, 0)
    requires forall t' :: t' != t ==> ScopesOf(reg', t') == ScopesOf(reg, t')
    ensures PrunedTypes(reg, reg', [t])
  {
    OtherTypeBuckets(reg, reg', t);
    forall s' ensures BucketOf(reg', t, s') ==
        if s' == EmptyScope then KeepPersistent(BucketOf(reg, t, s')) else BucketOf(reg, t, s') {
      assert s' <= EmptyScope <==> s' == EmptyScope;
    }
  }

  /** The scope steps over the empty scope, as a bucket outcome. */
  lemma EmptyScopeSteps(w: World, out: (World, Result<bool, Error>), r: RegId, t: Class, ev: Event)
    requires r in w.regs
    requires StepsOutcome(w, out, r, t, EmptyScope, 0, ev, false)
    ensures BucketOutcome(w, out, r, t, ev)
  {
    EmptyScopeOrder(w.regs[r], t);
    OnlyTypeIsOnlyReg(w, out.0, r, t);
    PrunedEmptyScope(w.regs[r], out.0.regs[r], t);
  }

  /** `_exec_listeners` starts its scope steps at the empty prefix. */
  lemma ExecListenersSteps(f: Facts, oracle: seq<Outcome>, w: World, r: RegId, t: Class, scope: Scope, ev: Event)
    requires Valid(w) && r in w.regs
    ensures ExecListeners(f, oracle, w, r, t, scope, ev) == ExecSteps(f, oracle, w, r, t, scope, 0, ev, false)
  {
  }

  /** Running a type's empty scope: its empty-scope bucket runs and loses
      its fire-once entries, and no other bucket changes. */
  lemma EmptyScopeRun(f: Facts, oracle: seq<Outcome>, w: World, r: RegId, t: Class, ev: Event)
    requires Valid(w) && r in w.regs
    requires AllComplete(oracle, |w.calls|)
    requires UniqueBuckets(w.regs[r])
    ensures BucketOutcome(w, ExecListeners(f, oracle, w, r, t, EmptyScope, ev), r, t, ev)
  {
    ExecStepsComplete(f, oracle, w, r, t, EmptyScope, 0, ev, false);
    EmptyScopeSteps(w, ExecSteps(f, oracle, w, r, t, EmptyScope, 0, ev, false), r, t, ev);
    ExecListenersSteps(f, oracle, w, r, t, EmptyScope, ev);
  }

  /** One iteration of the supertype loop: supertype `t`'s empty-scope
      bucket runs, as it was, and loses its fire-once entries. */
  lemma SuperHeadFacts(f: Facts, oracle: seq<Outcome>, w: World, r: RegId, t: Class, ev: Event)
    requires Valid(w) && r in w.regs
    requires AllComplete(oracle, |w.calls|)
    requires UniqueBuckets(w.regs[r])
    ensures var w2 := SuperHead(f, oracle, w, r, t, ev);
      && Valid(w2) && r in w2.regs && AllComplete(oracle, |w2.calls|)
      && BucketRan(w, w2, r, t, ev)
  {
    var w1 := WithReg(w, r, VivifyType(w.regs[r], t));
    if ScopesOf(w1.regs[r], t) == [] {
      Untouched(w, w1, r, t, ev);
    } else {
      BucketHeadFacts(f, oracle, w, w1, r, t, ev);
    }
  }

  /** The part of a supertype iteration after the type has some scope,
      from a world `w1` that only read registry `r` of `w` into existence. */
  lemma BucketHeadFacts(f: Facts, oracle: seq<Outcome>, w: World, w1: World, r: RegId, t: Class, ev: Event)
    requires Valid(w1) && r in w.regs && r in w1.regs
    requires OnlyRegChanged(w, w1, r) && w1.calls == w.calls
    requires forall t', s' :: BucketOf(w1.regs[r], t', s') == BucketOf(w.regs[r], t', s')
    requires AllComplete(oracle, |w.calls|)
    requires UniqueBuckets(w.regs[r])
    ensures var w2 := BucketHead(f, oracle, w1, r, t, ev);
      && Valid(w2) && r in w2.regs && AllComplete(oracle, |w2.calls|)
      && BucketRan(w, w2, r, t, ev)
  {
    var w2 := WithReg(w1, r, VivifyScope(w1.regs[r], t, EmptyScope));
    if BucketOf(w2.regs[r], t, EmptyScope) == [] {
      Untouched(w, w2, r, t, ev);
    } else {
      assert UniqueBuckets(w2.regs[r]);
      EmptyScopeRun(f, oracle, w2, r, t, ev);
      Vivified(w, w2, ExecListeners(f, oracle, w2, r, t, EmptyScope, ev), r, t, ev);
    }
  }

  /** Reading registry `r` into existence where type `t` has no empty-scope
      listener is a supertype iteration that runs nothing. */
  lemma Untouched(w: World, w1: World, r: RegId, t: Class, ev: Event)
    requires r in w.regs && r in w1.regs
    requires OnlyRegChanged(w, w1, r) && w1.calls == w.calls
    requires forall t', s' :: BucketOf(w1.regs[r], t', s') == BucketOf(w.regs[r], t', s')
    requires BucketOf(w.regs[r], t, EmptyScope) == []
    ensures BucketRan(w, w1, r, t, ev)
  {
    assert Keys(BucketOf(w.regs[r], t, EmptyScope)) == [];
  }

  /** A bucket outcome from a world whose registry was only read into
      existence is a bucket outcome from the original world. */
  lemma Vivified(w: World, w2: World, out: (World, Result<bool, Error>), r: RegId, t: Class, ev: Event)
    requires r in w.regs && r in w2.regs
    requires OnlyRegChanged(w, w2, r) && w2.calls == w.calls
    requires forall t', s' :: BucketOf(w2.regs[r], t', s') == BucketOf(w.regs[r], t', s')
    requires BucketOutcome(w2, out, r, t, ev)
    ensures BucketOutcome(w, out, r, t, ev)
  {
  }

  /** Pruning the empty-scope bucket of a type keeps every bucket distinct. */
  lemma PrunedUnique(reg: Registry, reg': Registry, types: seq<Class>)
    requires UniqueBuckets(reg) && PrunedTypes(reg, reg', types)
    ensures UniqueBuckets(reg')
  {
    forall t, s ensures UniqueKeys(BucketOf(reg', t, s)) {
      if s == EmptyScope && t in types {
        KeepPersistentUnique(BucketOf(reg, t, s));
      }
    }
  }

  /** The later supertypes do not see a change confined to supertype
      `supers[j]`'s bucket. */
  lemma {:induction false} SuperOrderFrame(reg: Registry, reg': Registry, supers: seq<Class>, j: nat, t: Class)
    requires j <= |supers| && t !in supers[j..]
    requires PrunedTypes(reg, reg', [t])
    ensures SuperOrder(reg', supers, j) == SuperOrder(reg, supers, j)
    decreases |supers| - j
  {
    if j < |supers| {
      assert supers[j] in supers[j..];
      assert supers[j + 1..] == supers[j..][1..];
      SuperOrderFrame(reg, reg', supers, j + 1, t);
    }
  }

  /** Pruning one type, then others. */
  lemma PrunedTypesCons(reg: Registry, reg2: Registry, reg3: Registry, t: Class, rest: seq<Class>)
    requires t !in rest
    requires PrunedTypes(reg, reg2, [t]) && PrunedTypes(reg2, reg3, rest)
    ensures PrunedTypes(reg, reg3, [t] + rest)
  {
    forall t', s' ensures BucketOf(reg3, t', s') ==
        if s' == EmptyScope && t' in [t] + rest then KeepPersistent(BucketOf(reg, t', s'))
        else BucketOf(reg, t', s') {
      if t' == t {
        assert t' !in rest;
      } else {
        assert t' !in [t];
      }
    }
  }

  /** One iteration followed by the rest of the loop. */
  lemma SuperCombine(w: World, w2: World, out: (World, Result<bool, Error>), r: RegId,
                     supers: seq<Class>, j: nat, ev: Event, handled: bool)
    requires r in w.regs && r in w2.regs && j < |supers| && Distinct(supers)
    requires BucketRan(w, w2, r, supers[j], ev)
    requires SuperOutcome(w2, out, r, supers, j + 1, ev, handled || BucketOf(w.regs[r], supers[j], EmptyScope) != [])
    ensures SuperOutcome(w, out, r, supers, j, ev, handled)
  {
    var t := supers[j];
    var snap := BucketOf(w.regs[r], t, EmptyScope);
    assert t !in supers[j + 1..] by {
      forall b | j + 1 <= b < |supers| ensures supers[b] != t { }
    }
    SuperOrderFrame(w.regs[r], w2.regs[r], supers, j + 1, t);
    var rest := SuperOrder(w.regs[r], supers, j + 1);
    assert SuperOrder(w.regs[r], supers, j) == Keys(snap) + rest;
    InvocationsAppend(Keys(snap), rest, ev);
    Seqs.ConcatAssoc(w.calls, Invocations(Keys(snap), ev), Invocations(rest, ev));
    Seqs.SliceCons(supers, j);
    PrunedTypesCons(w.regs[r], w2.regs[r], out.0.regs[r], t, supers[j + 1..]);
  }

  /** The supertype loop from `j` continues, after one iteration, with the
      loop from `j + 1`. */
  lemma SuperHeadEq(f: Facts, oracle: seq<Outcome>, w: World, r: RegId, supers: seq<Class>, j: nat,
                    ev: Event, handled: bool)
    requires Valid(w) && r in w.regs && j < |supers|
    requires AllComplete(oracle, |w.calls|)
    requires UniqueBuckets(w.regs[r])
    ensures var w2 := SuperHead(f, oracle, w, r, supers[j], ev);
      && Valid(w2) && r in w2.regs
      && SuperLoop(f, oracle, w, r, supers, j, ev, handled) ==
         SuperLoop(f, oracle, w2, r, supers, j + 1, ev, handled || BucketOf(w.regs[r], supers[j], EmptyScope) != [])
  {
    var t := supers[j];
    SuperHeadFacts(f, oracle, w, r, t, ev);
    var w1 := WithReg(w, r, VivifyType(w.regs[r], t));
    if ScopesOf(w1.regs[r], t) == [] {
      assert BucketOf(w.regs[r], t, EmptyScope) == [];
    } else {
      var w2 := WithReg(w1, r, VivifyScope(w1.regs[r], t, EmptyScope));
      if BucketOf(w2.regs[r], t, EmptyScope) != [] {
        assert UniqueBuckets(w2.regs[r]);
        EmptyScopeRun(f, oracle, w2, r, t, ev);
      }
    }
  }

  /** The supertype loop of `_emit_single`, every listener completing: the
      empty-scope buckets of `supers[j..]` run in that order, each as it was
      when the loop began, and each ends without its fire-once entries. */
  lemma {:induction false} SuperLoopComplete(f: Facts, oracle: seq<Outcome>, w: World, r: RegId,
                                             supers: seq<Class>, j: nat, ev: Event, handled: bool)
    requires Valid(w) && r in w.regs && j <= |supers| && Distinct(supers)
    requires AllComplete(oracle, |w.calls|)
    requires UniqueBuckets(w.regs[r])
    ensures SuperOutcome(w, SuperLoop(f, oracle, w, r, supers, j, ev, handled), r, supers, j, ev, handled)
    decreases |supers| - j
  {
    if j == |supers| {
      assert supers[j..] == [];
    } else {
      var t := supers[j];
      var snap := BucketOf(w.regs[r], t, EmptyScope);
      SuperHeadFacts(f, oracle, w, r, t, ev);
      var w2 := SuperHead(f, oracle, w, r, t, ev);
      PrunedUnique(w.regs[r], w2.regs[r], [t]);
      SuperLoopComplete(f, oracle, w2, r, supers, j + 1, ev, handled || snap != []);
      SuperCombine(w, w2, SuperLoop(f, oracle, w2, r, supers, j + 1, ev, handled || snap != []), r, supers, j, ev, handled);
      SuperHeadEq(f, oracle, w, r, supers, j, ev, handled);
    }
  }

  /** `reg'` is `reg` with the buckets of type `t` for the prefixes of
      `scope` stripped of their fire-once entries, every other bucket as it
      was. */
  ghost predicate PrunedScope(reg: Registry, reg': Registry, t: Class, scope: Scope) {
    forall t', s' :: BucketOf(reg', t', s') ==
      if t' == t && s' <= scope then KeepPersistent(BucketOf(reg, t', s'))
      else BucketOf(reg, t', s')
  }

  /** The second half of `_emit_single`: the event type's own scope steps,
      if the type has any scope. */
  function OwnRun(f: Facts, oracle: seq<Outcome>, w: World, r: RegId, ev: Event, scope: Scope)
    : (World, Result<bool, Error>)
    requires Valid(w) && r in w.regs
  {
    var w2 := WithReg(w, r, VivifyType(w.regs[r], ev.cls));
    if ScopesOf(w2.regs[r], ev.cls) == [] then (w2, Success(false))
    else ExecListeners(f, oracle, w2, r, ev.cls, scope, ev)
  }

  /** What the event type's own scope steps achieve when every listener
      completes. */
  ghost predicate OwnOutcome(w: World, out: (World, Result<bool, Error>), r: RegId, ev: Event, scope: Scope)
    requires r in w.regs
  {
    && out.1 == Success(ScopeOrder(w.regs[r], ev.cls, scope, 0) != [])
    && out.0.calls == w.calls + Invocations(ScopeOrder(w.regs[r], ev.cls, scope, 0), ev)
    && r in out.0.regs
    && OnlyRegChanged(w, out.0, r)
    && PrunedScope(w.regs[r], out.0.regs[r], ev.cls, scope)
  }

  /** A type with no scope has no listener for any prefix. */
  lemma {:induction false} ScopeOrderNone(reg: Registry, t: Class, scope: Scope, step: nat)
    requires ScopesOf(reg, t) == []
    ensures ScopeOrder(reg, t, scope, step) == []
    decreases |scope| + 1 - step
  {
    if step <= |scope| {
      ScopeOrderNone(reg, t, scope, step + 1);
      assert BucketOf(reg, t, scope[..step]) == [];
    }
  }

  /** Scope steps that ran, as an own-type outcome. */
  lemma OwnSteps(w: World, w2: World, out: (World, Result<bool, Error>), r: RegId, ev: Event, scope: Scope)
    requires r in w.regs && r in w2.regs
    requires OnlyRegChanged(w, w2, r) && w2.calls == w.calls
    requires forall t', s' :: BucketOf(w2.regs[r], t', s') == BucketOf(w.regs[r], t', s')
    requires StepsOutcome(w2, out, r, ev.cls, scope, 0, ev, false)
    ensures OwnOutcome(w, out, r, ev, scope)
  {
    ScopeOrderFrame(w2.regs[r], w.regs[r], ev.cls, scope, 0);
    OnlyTypeIsOnlyReg(w2, out.0, r, ev.cls);
    OtherTypeBuckets(w2.regs[r], out.0.regs[r], ev.cls);
  }

  /** The event type's own scope steps, every listener completing. */
  lemma OwnRunComplete(f: Facts, oracle: seq<Outcome>, w: World, r: RegId, ev: Event, scope: Scope)
    requires Valid(w) && r in w.regs
    requires AllComplete(oracle, |w.calls|)
    requires UniqueBuckets(w.regs[r])
    ensures OwnOutcome(w, OwnRun(f, oracle, w, r, ev, scope), r, ev, scope)
  {
    var w2 := WithReg(w, r, VivifyType(w.regs[r], ev.cls));
    if ScopesOf(w2.regs[r], ev.cls) == [] {
      OwnRunNone(f, oracle, w, r, ev, scope);
    } else {
      OwnRunScoped(f, oracle, w, r, ev, scope);
    }
  }

  /** Storing a missing type changes no bucket. */
  lemma VivifyTypeStep(w: World, r: RegId, t: Class)
    requires Valid(w) && r in w.regs && UniqueBuckets(w.regs[r])
    ensures var w2 := WithReg(w, r, VivifyType(w.regs[r], t));
      && Valid(w2) && r in w2.regs && w2.calls == w.calls
      && OnlyRegChanged(w, w2, r)
      && (forall t', s' :: BucketOf(w2.regs[r], t', s') == BucketOf(w.regs[r], t', s'))
      && UniqueBuckets(w2.regs[r])
  { }

  /** A type with no scope runs nothing. */
  lemma OwnRunNone(f: Facts, oracle: seq<Outcome>, w: World, r: RegId, ev: Event, scope: Scope)
    requires Valid(w) && r in w.regs
    requires ScopesOf(VivifyType(w.regs[r], ev.cls), ev.cls) == []
    ensures OwnOutcome(w, OwnRun(f, oracle, w, r, ev, scope), r, ev, scope)
  {
    ScopeOrderNone(w.regs[r], ev.cls, scope, 0);
  }

  /** A type with scopes runs its scope steps. */
  lemma OwnRunScoped(f: Facts, oracle: seq<Outcome>, w: World, r: RegId, ev: Event, scope: Scope)
    requires Valid(w) && r in w.regs
    requires AllComplete(oracle, |w.calls|)
    requires UniqueBuckets(w.regs[r])
    requires ScopesOf(VivifyType(w.regs[r], ev.cls), ev.cls) != []
    ensures OwnOutcome(w, OwnRun(f, oracle, w, r, ev, scope), r, ev, scope)
  {
    var w2 := WithReg(w, r, VivifyType(w.regs[r], ev.cls));
    VivifyTypeStep(w, r, ev.cls);
    ExecStepsComplete(f, oracle, w2, r, ev.cls, scope, 0, ev, false);
    OwnSteps(w, w2, ExecSteps(f, oracle, w2, r, ev.cls, scope, 0, ev, false), r, ev, scope);
    ExecListenersSteps(f, oracle, w2, r, ev.cls, scope, ev);
  }

  /** Whether `_emit_single` visits the bucket of type `t'` and scope `s'`
      for an event of class `c` emitted with scope tuple `scope`. */
  ghost predicate Visited(h: Hierarchy, c: Class, scope: Scope, t': Class, s': Scope) {
    (s' == EmptyScope && t' in Mro(h, c)[1..]) || (t' == c && s' <= scope)
  }

  lemma ReverseIn(s: seq<Class>, x: Class)
    ensures x in Reverse(s) <==> x in s
  {
    var r := Reverse(s);
    if x in s {
      var i :| 0 <= i < |s| && s[i] == x;
      assert r[|s| - 1 - i] == x;
    }
    if x in r {
      var i :| 0 <= i < |r| && r[i] == x;
      assert s[|s| - 1 - i] == x;
    }
  }

  /** In a well-formed hierarchy a class's MRO starts with the class and
      names no class twice. */
  lemma MroShape(h: Hierarchy, c: Class)
    requires Python.WellFormed(h)
    ensures Mro(h, c)[0] == c
    ensures forall i, j :: 0 <= i < j < |Mro(h, c)| ==> Mro(h, c)[i] != Mro(h, c)[j]
  {
  }

  /** In a well-formed hierarchy the supertypes are distinct and exclude the
      class itself. */
  lemma SupersDistinct(h: Hierarchy, c: Class)
    requires Python.WellFormed(h)
    ensures Distinct(Supers(h, c)) && c !in Supers(h, c)
  {
    var m := Mro(h, c);
    var tail := m[1..];
    MroShape(h, c);
    ReverseIn(tail, c);
    assert c !in tail by {
      forall i | 0 <= i < |tail| ensures tail[i] != c {
        assert tail[i] == m[i + 1];
      }
    }
    var r := Supers(h, c);
    forall a, b | 0 <= a < b < |r| ensures r[a] != r[b] {
      assert r[a] == m[|tail| - a] && r[b] == m[|tail| - b];
    }
  }

  /** Supertype buckets, then own-type buckets, as the visited buckets. */
  lemma PrunedVisited(h: Hierarchy, c: Class, scope: Scope, reg: Registry, reg1: Registry, reg2: Registry)
    requires c !in Supers(h, c)
    requires PrunedTypes(reg, reg1, Supers(h, c))
    requires PrunedScope(reg1, reg2, c, scope)
    ensures forall t', s' :: BucketOf(reg2, t', s') ==
              if Visited(h, c, scope, t', s') then KeepPersistent(BucketOf(reg, t', s')) else BucketOf(reg, t', s')
  {
    forall t', s' ensures BucketOf(reg2, t', s') ==
        if Visited(h, c, scope, t', s') then KeepPersistent(BucketOf(reg, t', s')) else BucketOf(reg, t', s') {
      ReverseIn(Mro(h, c)[1..], t');
    }
  }

  /** What `_emit_single` achieves for a dispatchable event when every
      listener completes: exactly the listeners of `Dispatch` run, in that
      order; the result says whether any ran; the visited buckets lose their
      fire-once entries and nothing else changes. */
  ghost predicate DispatchOutcome(h: Hierarchy, w: World, out: (World, Result<bool, Error>), r: RegId,
                                  ev: Event, scope: Scope)
    requires r in w.regs
  {
    && out.1 == Success(Dispatch(h, w.regs[r], ev, scope) != [])
    && out.0.calls == w.calls + Invocations(Dispatch(h, w.regs[r], ev, scope), ev)
    && r in out.0.regs
    && OnlyRegChanged(w, out.0, r)
    && forall t', s' :: BucketOf(out.0.regs[r], t', s') ==
         if Visited(h, ev.cls, scope, t', s') then KeepPersistent(BucketOf(w.regs[r], t', s'))
         else BucketOf(w.regs[r], t', s')
  }

  /** The supertype loop followed by the own-type steps. */
  lemma DispatchCombine(h: Hierarchy, w: World, sup: (World, Result<bool, Error>), own: (World, Result<bool, Error>),
                        r: RegId, ev: Event, scope: Scope)
    requires r in w.regs && r in sup.0.regs
    requires ev.cls !in Supers(h, ev.cls)
    requires SuperOutcome(w, sup, r, Supers(h, ev.cls), 0, ev, false)
    requires OwnOutcome(sup.0, own, r, ev, scope)
    ensures DispatchOutcome(h, w, (own.0, Success(own.1.value || sup.1.value)), r, ev, scope)
  {
    var supers := Supers(h, ev.cls);
    var reg, reg1 := w.regs[r], sup.0.regs[r];
    assert supers[0..] == supers;
    OwnOrderUnchanged(reg, reg1, supers, ev.cls, scope);
    DispatchCalls(w.calls, sup, own, SuperOrder(reg, supers, 0), ScopeOrder(reg, ev.cls, scope, 0), ev);
    PrunedVisited(h, ev.cls, scope, reg, reg1, own.0.regs[r]);
    var d := Dispatch(h, reg, ev, scope);
    assert d == SuperOrder(reg, supers, 0) + ScopeOrder(reg, ev.cls, scope, 0);
    DispatchOutcomeIntro(h, w, (own.0, Success(own.1.value || sup.1.value)), r, ev, scope);
  }

  lemma DispatchOutcomeIntro(h: Hierarchy, w: World, out: (World, Result<bool, Error>), r: RegId,
                             ev: Event, scope: Scope)
    requires r in w.regs && r in out.0.regs
    requires out.1.Success? && (out.1.value <==> Dispatch(h, w.regs[r], ev, scope) != [])
    requires out.0.calls == w.calls + Invocations(Dispatch(h, w.regs[r], ev, scope), ev)
    requires OnlyRegChanged(w, out.0, r)
    requires forall t', s' :: BucketOf(out.0.regs[r], t', s') ==
               if Visited(h, ev.cls, scope, t', s') then KeepPersistent(BucketOf(w.regs[r], t', s'))
               else BucketOf(w.regs[r], t', s')
    ensures DispatchOutcome(h, w, out, r, ev, scope)
  {
  }

  /** The own-type scope steps see the event type's buckets as they were
      before the supertype loop. */
  lemma OwnOrderUnchanged(reg: Registry, reg1: Registry, supers: seq<Class>, c: Class, scope: Scope)
    requires c !in supers && PrunedTypes(reg, reg1, supers)
    ensures ScopeOrder(reg1, c, scope, 0) == ScopeOrder(reg, c, scope, 0)
  {
    PrunedTypesOther(reg, reg1, supers, c);
    ScopeOrderFrame(reg1, reg, c, scope, 0);
  }

  /** The invocation log and result of the two halves of `_emit_single`. */
  lemma DispatchCalls(calls: seq<Invocation>, sup: (World, Result<bool, Error>), own: (World, Result<bool, Error>),
                      a: seq<Obj>, b: seq<Obj>, ev: Event)
    requires sup.1 == Success(false || a != []) && sup.0.calls == calls + Invocations(a, ev)
    requires own.1 == Success(b != []) && own.0.calls == sup.0.calls + Invocations(b, ev)
    ensures own.1.value || sup.1.value <==> a + b != []
    ensures own.0.calls == calls + Invocations(a + b, ev)
  {
    assert |a + b| == |a| + |b|;
    InvocationsAppend(a, b, ev);
    Seqs.ConcatAssoc(calls, Invocations(a, ev), Invocations(b, ev));
  }

  /** A type outside `types` keeps its buckets. */
  lemma PrunedTypesOther(reg: Registry, reg': Registry, types: seq<Class>, t: Class)
    requires t !in types && PrunedTypes(reg, reg', types)
    ensures forall s' :: BucketOf(reg', t, s') == BucketOf(reg, t, s')
  {
  }

  /** `_emit_single` for a dispatchable event whose two halves succeeded. */
  lemma EmitSingleEq(f: Facts, oracle: seq<Outcome>, w: World, r: RegId, ev: Event, scope: Scope)
    requires Valid(w) && r in w.regs
    requires !IsBareBaseException(f.h, ev.cls) && !IsMetaclass(f.h, ev.cls) && ev.cls != Object
    requires SuperLoop(f, oracle, w, r, Supers(f.h, ev.cls), 0, ev, false).1.Success?
    requires var w1 := SuperLoop(f, oracle, w, r, Supers(f.h, ev.cls), 0, ev, false).0;
      OwnRun(f, oracle, w1, r, ev, scope).1.Success?
    ensures var sup := SuperLoop(f, oracle, w, r, Supers(f.h, ev.cls), 0, ev, false);
      var own := OwnRun(f, oracle, sup.0, r, ev, scope);
      EmitSingle(f, oracle, w, r, ev, scope) == (own.0, Success(own.1.value || sup.1.value))
  {
  }

  /** `_emit_single` when every listener completes, for an event it
      dispatches: the listeners of `Dispatch` run in that order, each once,
      the result says whether any ran, and exactly the visited buckets lose
      their fire-once entries. */
  lemma EmitSingleComplete(f: Facts, oracle: seq<Outcome>, w: World, r: RegId, ev: Event, scope: Scope)
    requires Valid(w) && r in w.regs
    requires AllComplete(oracle, |w.calls|)
    requires UniqueBuckets(w.regs[r])
    requires Python.WellFormed(f.h)
    requires !IsBareBaseException(f.h, ev.cls) && !IsMetaclass(f.h, ev.cls) && ev.cls != Object
    ensures DispatchOutcome(f.h, w, EmitSingle(f, oracle, w, r, ev, scope), r, ev, scope)
  {
    var supers := Supers(f.h, ev.cls);
    SupersDistinct(f.h, ev.cls);
    SuperLoopComplete(f, oracle, w, r, supers, 0, ev, false);
    var sup := SuperLoop(f, oracle, w, r, supers, 0, ev, false);
    assert supers[0..] == supers;
    PrunedUnique(w.regs[r], sup.0.regs[r], supers);
    OwnRunComplete(f, oracle, sup.0, r, ev, scope);
    var own := OwnRun(f, oracle, sup.0, r, ev, scope);
    DispatchCombine(f.h, w, sup, own, r, ev, scope);
    EmitSingleEq(f, oracle, w, r, ev, scope);
  }
}
