/**
 * What `emit` in `emitter/_emit.py` returns and raises: the rejected
 * events, the handle-mode flags of a complete emission, and the fate of an
 * exception a listener raises (re-raised, reported to the loop's exception
 * handler, or re-emitted to the listener's own namespace).
 */
module EmissionOutcomes {
  import opened Wrappers
  import opened Python
  import opened Types
  import opened Mapping
  import opened ScopeParsing
  import opened State
  import opened Namespaces
  import opened Emission
  import opened EmissionOrder
  import opened EmissionDispatch

  /** An event `_emit_single` dispatches rather than rejects. */
  predicate Dispatchable(h: Hierarchy, c: Class) {
    !IsBareBaseException(h, c) && !IsMetaclass(h, c) && c != Object
  }

  /** `_emit_single` re-raises a bare `BaseException` event and rejects a
      class, a metaclass instance or a plain `object` with ValueError, before
      running anything; `emit` passes the error on. */
  lemma EmitRejects(f: Facts, oracle: seq<Outcome>, w: World, ev: Event, scope: string, ns: NsArg)
    requires Valid(w) && ValidNs(w, ns)
    requires !Dispatchable(f.h, ev.cls)
    ensures var out := Emit(f, oracle, w, ev, scope, ns);
      && out.0 == w
      && out.1 == Failure(if IsBareBaseException(f.h, ev.cls) then Raise(ev) else ValueError)
  {
    var sc := ScopeTuple(scope);
    assert EmitSingle(f, oracle, w, GlobalReg, ev, sc) ==
      (w, Failure(if IsBareBaseException(f.h, ev.cls) then Raise(ev) else ValueError));
  }

  /** The flags `emit` returns, or the event it raises, given whether the
      global and the namespace registries had listeners for it. */
  function Verdict(h: Hierarchy, ev: Event, global: bool, namespaced: bool): Result<HandleMode, Error> {
    var mode := (if global then GLOBAL else NONE) | (if namespaced then NAMESPACE else NONE);
    if mode == NONE && IsException(h, ev.cls) then Failure(Raise(ev)) else Success(mode)
  }

  /** The flags tell the two registries apart, and an unhandled exception
      event is raised back. */
  lemma VerdictFlags(h: Hierarchy, ev: Event, global: bool, namespaced: bool)
    ensures Verdict(h, ev, global, namespaced).Success? ==>
      var m := Verdict(h, ev, global, namespaced).value;
      && (m & GLOBAL != 0 <==> global)
      && (m & NAMESPACE != 0 <==> namespaced)
      && (m == NONE <==> !global && !namespaced)
    ensures Verdict(h, ev, global, namespaced).Failure? <==> !global && !namespaced && IsException(h, ev.cls)
  {
  }

  /** `emit` without a namespace, every listener completing: the global
      registry's listeners run in dispatch order, and the result is GLOBAL
      when any ran; otherwise NONE, or the event itself raised back when it
      is an exception. */
  lemma EmitGlobalComplete(f: Facts, oracle: seq<Outcome>, w: World, ev: Event, scope: string)
    requires Valid(w)
    requires AllComplete(oracle, |w.calls|)
    requires UniqueBuckets(w.regs[GlobalReg])
    requires Python.WellFormed(f.h)
    requires Dispatchable(f.h, ev.cls)
    ensures var d := Dispatch(f.h, w.regs[GlobalReg], ev, ScopeTuple(scope));
      var out := Emit(f, oracle, w, ev, scope, NoNamespace);
      && out.0.calls == w.calls + Invocations(d, ev)
      && out.0.reported == w.reported
      && out.1 == Verdict(f.h, ev, d != [], false)
  {
    var sc := ScopeTuple(scope);
    EmitSingleComplete(f, oracle, w, GlobalReg, ev, sc);
    var g := EmitSingle(f, oracle, w, GlobalReg, ev, sc);
    assert Emit(f, oracle, w, ev, scope, NoNamespace) == Finish(f, g.0, ev, if g.1.value then GLOBAL else NONE);
  }

  /** Both passes of `emit` to a namespace succeed: the namespace is
      resolved after the global pass, and the result is the flags of the
      two passes. */
  lemma EmitNamespaceEq(f: Facts, oracle: seq<Outcome>, w: World, ev: Event, scope: string, ns: NsArg,
                        w2: World, n: RegId)
    requires Valid(w) && ValidNs(w, ns) && !ns.NoNamespace?
    requires EmitSingle(f, oracle, w, GlobalReg, ev, ScopeTuple(scope)).1.Success?
    requires Resolve(f, EmitSingle(f, oracle, w, GlobalReg, ev, ScopeTuple(scope)).0, ns) == (w2, Success(n))
    requires EmitSingle(f, oracle, w2, n, ev, ScopeTuple(scope)).1.Success?
    ensures var g := EmitSingle(f, oracle, w, GlobalReg, ev, ScopeTuple(scope));
      var m := EmitSingle(f, oracle, w2, n, ev, ScopeTuple(scope));
      Emit(f, oracle, w, ev, scope, ns) ==
        Finish(f, m.0, ev, (if g.1.value then GLOBAL else NONE) | (if m.1.value then NAMESPACE else NONE))
  {
  }

  /** The global pass changes no attribute, no registry id and no registry
      but the global one, so a namespace resolves after it as it would
      have before it, to a registry with the same contents. */
  lemma ResolveAfterPass(f: Facts, w: World, w': World, ns: NsArg, w1: World, n: RegId)
    requires Valid(w) && Valid(w') && ValidNs(w, ns) && GlobalReg in w'.regs
    requires OnlyRegChanged(w, w', GlobalReg)
    requires Resolve(f, w, ns) == (w1, Success(n)) && n != GlobalReg
    ensures ValidNs(w', ns)
    ensures var (w2, r2) := Resolve(f, w', ns);
      && r2 == Success(n) && n in w2.regs && w2.regs[n] == w1.regs[n]
      && w2.calls == w'.calls && w2.reported == w'.reported
  {
  }

  /** What one complete pass of `_emit_single` leaves behind, short of the
      pruned buckets. */
  ghost predicate PassOutcome(w: World, out: (World, Result<bool, Error>), r: RegId, d: seq<Obj>, ev: Event)
    requires r in w.regs
  {
    && out.1 == Success(d != [])
    && out.0.calls == w.calls + Invocations(d, ev)
    && Valid(out.0) && r in out.0.regs
    && OnlyRegChanged(w, out.0, r)
  }

  lemma EmitSinglePass(f: Facts, oracle: seq<Outcome>, w: World, r: RegId, ev: Event, scope: Scope)
    requires Valid(w) && r in w.regs
    requires AllComplete(oracle, |w.calls|)
    requires UniqueBuckets(w.regs[r])
    requires Python.WellFormed(f.h)
    requires Dispatchable(f.h, ev.cls)
    ensures PassOutcome(w, EmitSingle(f, oracle, w, r, ev, scope), r, Dispatch(f.h, w.regs[r], ev, scope), ev)
  {
    EmitSingleComplete(f, oracle, w, r, ev, scope);
  }

  lemma AllCompleteLater(oracle: seq<Outcome>, from: nat, later: nat)
    requires AllComplete(oracle, from) && from <= later
    ensures AllComplete(oracle, later)
  {
  }

  /** `emit` to a namespace whose registry is not the global one, every
      listener completing: the global registry's listeners run first, then
      those of the registry the namespace resolves to (a new, empty one
      for an object seen for the first time), each in dispatch order, and
      the flags say which of the two had any. */
  lemma EmitNamespaceComplete(f: Facts, oracle: seq<Outcome>, w: World, ev: Event, scope: string, ns: NsArg,
                              w1: World, n: RegId)
    requires Valid(w) && ValidNs(w, ns) && !ns.NoNamespace?
    requires Resolve(f, w, ns) == (w1, Success(n)) && n != GlobalReg
    requires AllComplete(oracle, |w.calls|)
    requires UniqueBuckets(w.regs[GlobalReg]) && UniqueBuckets(w1.regs[n])
    requires Python.WellFormed(f.h)
    requires Dispatchable(f.h, ev.cls)
    ensures var d1 := Dispatch(f.h, w.regs[GlobalReg], ev, ScopeTuple(scope));
      var d2 := Dispatch(f.h, w1.regs[n], ev, ScopeTuple(scope));
      var out := Emit(f, oracle, w, ev, scope, ns);
      && out.0.calls == w.calls + Invocations(d1, ev) + Invocations(d2, ev)
      && out.0.reported == w.reported
      && out.1 == Verdict(f.h, ev, d1 != [], d2 != [])
  {
    var sc := ScopeTuple(scope);
    EmitSinglePass(f, oracle, w, GlobalReg, ev, sc);
    var g := EmitSingle(f, oracle, w, GlobalReg, ev, sc);
    ResolveAfterPass(f, w, g.0, ns, w1, n);
    var (w2, r2) := Resolve(f, g.0, ns);
    AllCompleteLater(oracle, |w.calls|, |w2.calls|);
    EmitSinglePass(f, oracle, w2, n, ev, sc);
    var m := EmitSingle(f, oracle, w2, n, ev, sc);
    NamespaceVerdict(f, w, g, w2, m, n, Dispatch(f.h, w.regs[GlobalReg], ev, sc), Dispatch(f.h, w1.regs[n], ev, sc), ev);
    EmitNamespaceEq(f, oracle, w, ev, scope, ns, w2, n);
  }

  lemma NamespaceVerdict(f: Facts, w: World, g: (World, Result<bool, Error>), w2: World, m: (World, Result<bool, Error>),
                         n: RegId, d1: seq<Obj>, d2: seq<Obj>, ev: Event)
    requires GlobalReg in w.regs && n in w2.regs
    requires PassOutcome(w, g, GlobalReg, d1, ev) && PassOutcome(w2, m, n, d2, ev)
    requires w2.calls == g.0.calls && w2.reported == g.0.reported
    ensures var out := Finish(f, m.0, ev, (if g.1.value then GLOBAL else NONE) | (if m.1.value then NAMESPACE else NONE));
      && out.0.calls == w.calls + Invocations(d1, ev) + Invocations(d2, ev)
      && out.0.reported == w.reported
      && out.1 == Verdict(f.h, ev, d1 != [], d2 != [])
  {
  }
  /** A registry with no types has no supertype listeners. */
  lemma {:induction false} SuperOrderEmpty(supers: seq<Class>, j: nat)
    ensures SuperOrder(NewListenerMapping(), supers, j) == []
    decreases |supers| - j
  {
    if j < |supers| {
      SuperOrderEmpty(supers, j + 1);
      assert BucketOf(NewListenerMapping(), supers[j], EmptyScope) == [];
    }
  }

  /** A registry with no types dispatches to nobody. */
  lemma EmptyDispatch(h: Hierarchy, ev: Event, scope: Scope)
    ensures Dispatch(h, NewListenerMapping(), ev, scope) == []
  {
    SuperOrderEmpty(Supers(h, ev.cls), 0);
    ScopeOrderNone(NewListenerMapping(), ev.cls, scope, 0);
  }

  /** `emit` with an object namespace seen for the first time, every
      listener completing: only the global registry's listeners run, the
      NAMESPACE flag stays clear, and the object keeps its new registry. */
  lemma EmitFreshNamespace(f: Facts, oracle: seq<Outcome>, w: World, ev: Event, scope: string, o: Obj)
    requires Valid(w)
    requires ListenersAttrOf(w, o).NoListeners? && o !in f.unwritable
    requires AllComplete(oracle, |w.calls|)
    requires UniqueBuckets(w.regs[GlobalReg])
    requires Python.WellFormed(f.h)
    requires Dispatchable(f.h, ev.cls)
    ensures var d := Dispatch(f.h, w.regs[GlobalReg], ev, ScopeTuple(scope));
      var out := Emit(f, oracle, w, ev, scope, ObjectNs(o));
      && out.0.calls == w.calls + Invocations(d, ev)
      && out.0.reported == w.reported
      && out.1 == Verdict(f.h, ev, d != [], false)
  {
    var sc := ScopeTuple(scope);
    var (w1, r1) := Resolve(f, w, ObjectNs(o));
    ResolveCreates(f, w, o);
    EmptyDispatch(f.h, ev, sc);
    EmitNamespaceComplete(f, oracle, w, ev, scope, ObjectNs(o), w1, r1.value);
    assert Invocations([], ev) == [];
  }


  /** The world after `_exec_listeners` deleted a fire-once entry from the
      live bucket and invoked its listener, before anything it raised is
      handled. */
  function EntryRun(w: World, r: RegId, t: Class, key: Scope, entry: (Obj, ListenerOpts), ev: Event): (w': World)
    requires Valid(w) && r in w.regs
    ensures Grows(w, w')
    ensures w'.calls == w.calls + [Invocation(entry.0, ev)] && w'.reported == w.reported
  {
    var w1 := DropOnce(w, r, t, key, entry);
    w1.(calls := w1.calls + [Invocation(entry.0, ev)])
  }

  /** How one listener invocation ends: a completed listener lets the
      emission go on, a cancellation or a `BaseException` that is not an
      `Exception` ends it, and an `Exception` raised while handling an
      exception event is reported to the loop's exception handler. */
  lemma ExecEntryOutcome(f: Facts, oracle: seq<Outcome>, w: World, r: RegId, t: Class, key: Scope,
                         entry: (Obj, ListenerOpts), ev: Event)
    requires Valid(w) && r in w.regs
    ensures var out := ExecEntry(f, oracle, w, r, t, key, entry, ev);
      var w2 := EntryRun(w, r, t, key, entry, ev);
      var o := Next(oracle, |w.calls|);
      && (o == Completed ==> out == (w2, Success(())))
      && (o == Cancelled ==> out == (w2, Failure(CancelledError)))
      && (o.Raised? && !IsException(f.h, o.exc.cls) ==> out == (w2, Failure(Raise(o.exc))))
      && (o.Raised? && IsException(f.h, o.exc.cls) && IsException(f.h, ev.cls) ==>
            out.1 == Success(()) && out.0.calls == w2.calls && out.0.reported == w.reported + [o.exc])
  {
  }

  /** An `Exception` raised by a listener of an event that is not one is
      emitted with the listener as namespace: it is dropped when that
      emission returns, which means some listener received it; a
      cancellation or a bare `BaseException` from it ends the outer
      emission; any other error from it has the exception reported. */
  lemma ExecEntrySecondTier(f: Facts, oracle: seq<Outcome>, w: World, r: RegId, t: Class, key: Scope,
                            entry: (Obj, ListenerOpts), ev: Event)
    requires Valid(w) && r in w.regs
    requires Next(oracle, |w.calls|).Raised?
    requires IsException(f.h, Next(oracle, |w.calls|).exc.cls) && !IsException(f.h, ev.cls)
    ensures var out := ExecEntry(f, oracle, w, r, t, key, entry, ev);
      var w2 := EntryRun(w, r, t, key, entry, ev);
      var exc := Next(oracle, |w.calls|).exc;
      var nested := Emit(f, oracle, w2, exc, "", ObjectNs(entry.0));
      && (nested.1.Success? ==> out == (nested.0, Success(())) && ListenersFor(NewCalls(w2, nested.0), exc) != [])
      && (nested.1.Failure? && Propagates(f.h, nested.1.error) ==> out == (nested.0, Failure(nested.1.error)))
      && (nested.1.Failure? && !Propagates(f.h, nested.1.error) ==>
            out.1 == Success(()) && out.0.calls == nested.0.calls && out.0.reported == nested.0.reported + [exc])
  {
  }

  /** `emit` with an object namespace that has no `__listeners__` attribute
      and cannot be given one: the global listeners run, then the lookup of
      the namespace's registry raises TypeError. */
  lemma EmitUnwritableNamespace(f: Facts, oracle: seq<Outcome>, w: World, ev: Event, scope: string, o: Obj)
    requires Valid(w)
    requires AllComplete(oracle, |w.calls|)
    requires UniqueBuckets(w.regs[GlobalReg])
    requires Python.WellFormed(f.h)
    requires Dispatchable(f.h, ev.cls)
    requires ListenersAttrOf(w, o) == NoListeners && o in f.unwritable
    ensures var out := Emit(f, oracle, w, ev, scope, ObjectNs(o));
      && out.0.calls == w.calls + Invocations(Dispatch(f.h, w.regs[GlobalReg], ev, ScopeTuple(scope)), ev)
      && out.0.reported == w.reported
      && out.1 == Failure(TypeError)
  {
    var sc := ScopeTuple(scope);
    EmitSinglePass(f, oracle, w, GlobalReg, ev, sc);
    UnwritableEq(f, oracle, w, ev, scope, o);
  }

  lemma UnwritableEq(f: Facts, oracle: seq<Outcome>, w: World, ev: Event, scope: string, o: Obj)
    requires Valid(w)
    requires EmitSingle(f, oracle, w, GlobalReg, ev, ScopeTuple(scope)).1.Success?
    requires ListenersAttrOf(EmitSingle(f, oracle, w, GlobalReg, ev, ScopeTuple(scope)).0, o) == NoListeners
    requires o in f.unwritable
    ensures Emit(f, oracle, w, ev, scope, ObjectNs(o)) ==
      (EmitSingle(f, oracle, w, GlobalReg, ev, ScopeTuple(scope)).0, Failure(TypeError))
  {
    var g := EmitSingle(f, oracle, w, GlobalReg, ev, ScopeTuple(scope));
    assert Resolve(f, g.0, ObjectNs(o)) == (g.0, Failure(TypeError));
  }

  /** Hence an `Exception` raised by such a listener is reported to the
      loop's exception handler even when a global listener received it. */
  lemma ExecEntryUnwritableReported(f: Facts, oracle: seq<Outcome>, w: World, r: RegId, t: Class, key: Scope,
                                    entry: (Obj, ListenerOpts), ev: Event)
    requires Valid(w) && r in w.regs
    requires Next(oracle, |w.calls|).Raised?
    requires IsException(f.h, Next(oracle, |w.calls|).exc.cls) && !IsException(f.h, ev.cls)
    requires Dispatchable(f.h, Next(oracle, |w.calls|).exc.cls)
    requires AllComplete(oracle, |w.calls| + 1)
    requires UniqueBuckets(EntryRun(w, r, t, key, entry, ev).regs[GlobalReg])
    requires Python.WellFormed(f.h)
    requires ListenersAttrOf(w, entry.0) == NoListeners && entry.0 in f.unwritable
    ensures var out := ExecEntry(f, oracle, w, r, t, key, entry, ev);
      var exc := Next(oracle, |w.calls|).exc;
      var w2 := EntryRun(w, r, t, key, entry, ev);
      && out.1 == Success(())
      && out.0.calls == w2.calls + Invocations(Dispatch(f.h, w2.regs[GlobalReg], exc, EmptyScope), exc)
      && out.0.reported == w.reported + [exc]
  {
    var w2 := EntryRun(w, r, t, key, entry, ev);
    var exc := Next(oracle, |w.calls|).exc;
    assert ScopeTuple("") == EmptyScope;
    EmitUnwritableNamespace(f, oracle, w2, exc, "", entry.0);
    ExecEntrySecondTier(f, oracle, w, r, t, key, entry, ev);
    ReportedIntro(f.h, w, w2, Emit(f, oracle, w2, exc, "", ObjectNs(entry.0)), ExecEntry(f, oracle, w, r, t, key, entry, ev),
                  exc, Dispatch(f.h, w2.regs[GlobalReg], exc, EmptyScope));
  }

  lemma ReportedIntro(h: Hierarchy, w: World, w2: World, nested: (World, Result<HandleMode, Error>),
                      out: (World, Result<(), Error>), exc: Event, d: seq<Obj>)
    requires w2.reported == w.reported
    requires nested.0.calls == w2.calls + Invocations(d, exc) && nested.0.reported == w2.reported
    requires nested.1 == Failure(TypeError)
    requires nested.1.Failure? && !Propagates(h, nested.1.error) ==>
      out.1 == Success(()) && out.0.calls == nested.0.calls && out.0.reported == nested.0.reported + [exc]
    ensures out.1 == Success(())
    ensures out.0.calls == w2.calls + Invocations(d, exc)
    ensures out.0.reported == w.reported + [exc]
  {
  }
}
