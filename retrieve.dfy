/**
 * `emitter/_retrieve.py`: `retrieve(event_type, scope=, namespace=)`. The
 * registry is selected as for `on` and `remove`; the event type's scope
 * map is read through the `defaultdict`, which stores an empty entry for an
 * unseen type; its (scope, listener) pairs are listed bucket by bucket,
 * filtered by `limit_scope`, and the listeners of the surviving pairs are
 * returned as a tuple, duplicates included.
 */
module Retrieval {
  import opened Wrappers
  import opened Python
  import opened Dict
  import opened Types
  import opened Mapping
  import opened LimitScope
  import opened State
  import opened Namespaces

  /** The pairs `(s, l)` for the listeners `ls` of one bucket. */
  function Tag(s: Scope, ls: seq<Obj>): (r: seq<(Scope, Obj)>)
    ensures |r| == |ls|
  {
    seq(|ls|, i requires 0 <= i < |ls| => (s, ls[i]))
  }

  /** The generator of `retrieve`: every (scope, listener) pair, bucket by
      bucket, each bucket's listeners in insertion order. */
  function Flatten(sm: ScopeMap): seq<(Scope, Obj)> {
    if sm == [] then [] else Tag(sm[0].0, Keys(sm[0].1)) + Flatten(sm[1..])
  }

  /** `tuple(listener for _, listener in pairs)`. */
  function Project(ps: seq<(Scope, Obj)>): (r: seq<Obj>)
    ensures |r| == |ps|
  {
    seq(|ps|, i requires 0 <= i < |ps| => ps[i].1)
  }

  /** The registry-level body of `retrieve` once the registry is selected:
      the registry after the read, and the listeners returned. */
  function RetrieveIn(reg: Registry, t: Class, scope: Option<string>): (res: (Registry, seq<Obj>)) {
    var reg1 := VivifyType(reg, t);
    (reg1, Project(Limit(scope, Flatten(reg1[t]))))
  }

  /** `retrieve(...)`: select the registry (the global one without a
      namespace), then read from it. */
  function Retrieve(f: Facts, w: World, t: Class, scope: Option<string>, ns: NsArg)
    : (res: (World, Result<seq<Obj>, Error>))
    requires Valid(w) && ValidNs(w, ns)
    ensures Valid(res.0)
  {
    var (w1, reg) := if ns.NoNamespace? then (w, Success(GlobalReg)) else Resolve(f, w, ns);
    if reg.Failure? then (w1, Failure(reg.error))
    else
      var (reg', ls) := RetrieveIn(w1.regs[reg.value], t, scope);
      (WithReg(w1, reg.value, reg'), Success(ls))
  }

  /** What `retrieve` promises, stated over buckets instead of pairs: the
      listeners of every bucket whose scope passes, bucket by bucket. */
  function Listed(sm: ScopeMap, scope: Option<string>): seq<Obj> {
    if sm == [] then []
    else (if Matches(scope, sm[0].0) then Keys(sm[0].1) else []) + Listed(sm[1..], scope)
  }

  /** Filtering the pairs of one bucket keeps all of them or none. */
  lemma {:induction false} LimitTag(scope: Option<string>, s: Scope, ls: seq<Obj>)
    ensures Limit(scope, Tag(s, ls)) == if Matches(scope, s) then Tag(s, ls) else []
  {
    if ls != [] {
      assert Tag(s, ls) == [(s, ls[0])] + Tag(s, ls[1..]);
      LimitCons(scope, (s, ls[0]), Tag(s, ls[1..]));
      LimitTag(scope, s, ls[1..]);
    }
  }

  /** Projection distributes over concatenation. */
  lemma ProjectAppend(a: seq<(Scope, Obj)>, b: seq<(Scope, Obj)>)
    ensures Project(a + b) == Project(a) + Project(b)
  {
  }

  /** Projecting a bucket's pairs gives back its listeners. */
  lemma ProjectTag(s: Scope, ls: seq<Obj>)
    ensures Project(Tag(s, ls)) == ls
  {
  }

  /** Filtering the flattened pairs and then projecting is the same as
      listing the listeners of the passing buckets. */
  lemma {:induction false} FlattenListed(sm: ScopeMap, scope: Option<string>)
    ensures Project(Limit(scope, Flatten(sm))) == Listed(sm, scope)
  {
    if sm == [] {
      assert Limit(scope, Flatten(sm)) == [];
    } else {
      var tagged := Tag(sm[0].0, Keys(sm[0].1));
      LimitAppend(scope, tagged, Flatten(sm[1..]));
      LimitTag(scope, sm[0].0, Keys(sm[0].1));
      ProjectAppend(Limit(scope, tagged), Limit(scope, Flatten(sm[1..])));
      ProjectTag(sm[0].0, Keys(sm[0].1));
      FlattenListed(sm[1..], scope);
    }
  }

  /** A listener is listed exactly when some passing bucket holds it. */
  lemma {:induction false} ListedHas(sm: ScopeMap, scope: Option<string>, l: Obj)
    ensures l in Listed(sm, scope) <==>
      exists i :: 0 <= i < |sm| && Matches(scope, sm[i].0) && HasKey(sm[i].1, l)
  {
    if sm != [] {
      ListedHas(sm[1..], scope, l);
      if l in Listed(sm[1..], scope) {
        var i :| 0 <= i < |sm[1..]| && Matches(scope, sm[1..][i].0) && HasKey(sm[1..][i].1, l);
        assert sm[i + 1] == sm[1..][i];
      }
      if exists i :: 0 <= i < |sm| && Matches(scope, sm[i].0) && HasKey(sm[i].1, l) {
        var i :| 0 <= i < |sm| && Matches(scope, sm[i].0) && HasKey(sm[i].1, l);
        if i > 0 {
          assert sm[1..][i - 1] == sm[i];
        }
      }
    }
  }

  /** `retrieve` on a registry: the listeners of the type's buckets whose
      scope passes, bucket by bucket in insertion order and each bucket's
      listeners in insertion order; a listener is returned exactly when a
      passing bucket holds it. The only change to the registry is the empty
      entry stored for an unseen type. */
  lemma RetrieveContents(reg: Registry, t: Class, scope: Option<string>, l: Obj)
    ensures RetrieveIn(reg, t, scope).1 == Listed(ScopesOf(reg, t), scope)
    ensures l in RetrieveIn(reg, t, scope).1 <==>
      exists i :: 0 <= i < |ScopesOf(reg, t)| && Matches(scope, ScopesOf(reg, t)[i].0) && HasKey(ScopesOf(reg, t)[i].1, l)
    ensures t in reg ==> RetrieveIn(reg, t, scope).0 == reg
    ensures t !in reg ==> RetrieveIn(reg, t, scope).0 == reg[t := []]
  {
    FlattenListed(ScopesOf(reg, t), scope);
    ListedHas(ScopesOf(reg, t), scope, l);
  }

  /** Without a scope (or with the empty one) nothing is filtered: every
      listener of every bucket of the type, in order. */
  lemma RetrieveUnscoped(reg: Registry, t: Class, scope: Option<string>)
    requires scope.None? || scope.value == ""
    ensures RetrieveIn(reg, t, scope).1 == Project(Flatten(ScopesOf(reg, t)))
  {
  }

  /** A listener registered under two passing scopes is returned twice. */
  lemma RetrieveKeepsDuplicates(t: Class, l: Obj, other: Obj)
    requires l != other
    ensures var reg := map[t := [([], [(l, NOP)]), (["a"], [(other, ONCE), (l, ONCE)])]];
      RetrieveIn(reg, t, None).1 == [l, other, l]
  {
    var sm: ScopeMap := [([], [(l, NOP)]), (["a"], [(other, ONCE), (l, ONCE)])];
    var reg := map[t := sm];
    FlattenListed(sm, None);
    assert RetrieveIn(reg, t, None).1 == Listed(sm, None);
    assert Keys(sm[0].1) == [l] by {
      assert sm[0].1[1..] == [];
    }
    assert Keys(sm[1].1) == [other, l] by {
      assert sm[1].1[1..] == [(l, ONCE)];
      assert sm[1].1[1..][1..] == [];
    }
    assert sm[1..][1..] == [];
    assert Listed(sm[1..], None) == [other, l];
  }

  /** The registry `retrieve` reads: the global one without a namespace,
      otherwise the one the namespace resolves to, an object's registry
      included; nothing but that registry's unseen-type entry changes
      beyond what the resolution did. */
  lemma RetrieveSelects(f: Facts, w: World, t: Class, scope: Option<string>, ns: NsArg, w1: World, r: RegId)
    requires Valid(w) && ValidNs(w, ns)
    requires ns.NoNamespace? ==> w1 == w && r == GlobalReg
    requires !ns.NoNamespace? ==> Resolve(f, w, ns) == (w1, Success(r))
    ensures r in w1.regs
    ensures Retrieve(f, w, t, scope, ns) ==
      (w1.(regs := w1.regs[r := VivifyType(w1.regs[r], t)]), Success(Listed(ScopesOf(w1.regs[r], t), scope)))
  {
    FlattenListed(ScopesOf(w1.regs[r], t), scope);
  }

  /** An object namespace seen for the first time gets a new registry, so
      `retrieve` lists nothing for it and leaves that registry attached. */
  lemma RetrieveFreshNamespace(f: Facts, w: World, t: Class, scope: Option<string>, o: Obj)
    requires Valid(w)
    requires ListenersAttrOf(w, o).NoListeners? && o !in f.unwritable
    ensures var res := Retrieve(f, w, t, scope, ObjectNs(o));
      && res.1 == Success([])
      && ListenersAttrOf(res.0, o).Holds?
      && ListenersAttrOf(res.0, o).reg !in w.regs
  {
    var (w1, r1) := Resolve(f, w, ObjectNs(o));
    ResolveCreates(f, w, o);
    RetrieveSelects(f, w, t, scope, ObjectNs(o), w1, r1.value);
  }
}
