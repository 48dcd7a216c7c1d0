/**
 * `emitter/_emit.py`: dispatch of an event to the listeners of its type.
 * `emit` runs the global registry and then the namespace's; in each,
 * `_emit_single` runs the empty-scope bucket of every supertype, most
 * generic first, then `_exec_listeners` runs the event's own type across
 * the prefixes of the emitted scope, shortest first. Each bucket is copied
 * before it runs; a fire-once listener still in the live bucket is deleted
 * from it before it runs. A listener that raises an `Exception` while
 * handling an event that is not one has the exception emitted in turn,
 * with the listener as namespace; one that is not re-emitted, or whose
 * re-emission fails, is reported to the loop's exception handler.
 *
 * Running a listener is not modelled: the `k`-th invocation overall has the
 * outcome `Next(oracle, k)`, and each invocation is logged in `calls`.
 * Exception events are never re-emitted, which bounds the recursion.
 */
module Emission {
  import opened Wrappers
  import opened Python
  import opened Dict
  import opened Types
  import opened Seqs
  import opened Mapping
  import opened ScopeParsing
  import opened State
  import opened Namespaces

  /** 1 for an event whose listeners' exceptions are re-emitted, 0 for an
      `Exception` event, whose listeners' exceptions are only reported. */
  function Depth(h: Hierarchy, ev: Event): nat {
    if IsException(h, ev.cls) then 0 else 1
  }

  /** `w'` is a later state than `w`: still valid, no registry gone, both
      logs extended. */
  predicate Grows(w: World, w': World) {
    && Valid(w')
    && w.regs.Keys <= w'.regs.Keys
    && w.calls <= w'.calls
    && w.reported <= w'.reported
  }

  function NewCalls(w: World, w': World): seq<Invocation>
    requires w.calls <= w'.calls
  {
    w'.calls[|w.calls|..]
  }

  /** The listeners that received `ev`, in the order they were invoked. */
  function ListenersFor(cs: seq<Invocation>, ev: Event): (ls: seq<Obj>)
    ensures |ls| <= |cs|
  {
    if cs == [] then []
    else (if cs[0].event == ev then [cs[0].listener] else []) + ListenersFor(cs[1..], ev)
  }

  /** Every invocation in `cs` received `ev`. */
  predicate OnlyOf(cs: seq<Invocation>, ev: Event) {
    forall i :: 0 <= i < |cs| ==> cs[i].event == ev
  }

  function Report(w: World, exc: Event): (w': World)
    ensures Valid(w) ==> Grows(w, w')
    ensures w'.calls == w.calls && w'.reported == w.reported + [exc]
  {
    w.(reported := w.reported + [exc])
  }

  /** A fire-once entry still in the live bucket is deleted from it. */
  function DropOnce(w: World, r: RegId, t: Class, key: Scope, entry: (Obj, ListenerOpts)): (w': World)
    requires r in w.regs
    ensures w'.regs.Keys == w.regs.Keys && w'.calls == w.calls && w'.reported == w.reported
    ensures Valid(w) ==> Valid(w')
  {
    var live := BucketOf(w.regs[r], t, key);
    if IsOnce(entry.1) && HasKey(live, entry.0)
    then WithReg(w, r, SetBucket(w.regs[r], t, key, Del(live, entry.0)))
    else w
  }

  /** The body of the inner loop of `_exec_listeners` for one snapshot entry:
      delete a fire-once listener from the live bucket if it is still there,
      run it, and handle what it raised. */
  function ExecEntry(f: Facts, oracle: seq<Outcome>, w: World, r: RegId, t: Class, key: Scope,
                     entry: (Obj, ListenerOpts), ev: Event): (res: (World, Result<(), Error>))
    requires Valid(w) && r in w.regs
    decreases Depth(f.h, ev), 0, 0
    ensures Grows(w, res.0)
    ensures ListenersFor(NewCalls(w, res.0), ev) == [entry.0]
    ensures IsException(f.h, ev.cls) ==> NewCalls(w, res.0) == [Invocation(entry.0, ev)]
  {
    var w1 := DropOnce(w, r, t, key, entry);
    var outcome := Next(oracle, |w1.calls|);
    var w2 := w1.(calls := w1.calls + [Invocation(entry.0, ev)]);
    assert NewCalls(w, w2) == [Invocation(entry.0, ev)];
    assert ListenersFor([Invocation(entry.0, ev)], ev) == [entry.0];
    match outcome
    case Completed => (w2, Success(()))
    case Cancelled => (w2, Failure(CancelledError))
    case Raised(exc) =>
      if !IsException(f.h, exc.cls) then (w2, Failure(Raise(exc)))
      else if IsException(f.h, ev.cls) then (Report(w2, exc), Success(()))
      else
        var (w3, nested) := Emit(f, oracle, w2, exc, "", ObjectNs(entry.0));
        ListenersForChain(w, w2, w3, ev);
        OnlyOfOther(NewCalls(w2, w3), exc, ev);
        if nested.Success? then (w3, Success(()))
        else if Propagates(f.h, nested.error) then (w3, Failure(nested.error))
        else (Report(w3, exc), Success(()))
  }

  /** The inner loop of `_exec_listeners` from entry `i` of the snapshot. */
  function ExecBucket(f: Facts, oracle: seq<Outcome>, w: World, r: RegId, t: Class, key: Scope,
                      snap: Bucket, i: nat, ev: Event): (res: (World, Result<(), Error>))
    requires Valid(w) && r in w.regs && i <= |snap|
    decreases Depth(f.h, ev), 1, |snap| - i
    ensures Grows(w, res.0)
    ensures res.1.Success? ==> ListenersFor(NewCalls(w, res.0), ev) == Keys(snap[i..])
    ensures IsException(f.h, ev.cls) ==> OnlyOf(NewCalls(w, res.0), ev)
  {
    if i == |snap| then
      assert NewCalls(w, w) == [];
      (w, Success(()))
    else
      var (w1, e) := ExecEntry(f, oracle, w, r, t, key, snap[i], ev);
      if e.Failure? then
        (w1, e)
      else
        var (w2, rest) := ExecBucket(f, oracle, w1, r, t, key, snap, i + 1, ev);
        ListenersForChain(w, w1, w2, ev);
        OnlyOfChain(w, w1, w2, ev);
        assert Keys(snap[i..]) == [snap[i].0] + Keys(snap[i + 1..]);
        (w2, rest)
  }

  /** The outer loop of `_exec_listeners` from step `step`; `ran` is whether
      an entry ran in an earlier step (the `listener is not None` test). */
  function ExecSteps(f: Facts, oracle: seq<Outcome>, w: World, r: RegId, t: Class, scope: Scope,
                     step: nat, ev: Event, ran: bool): (res: (World, Result<bool, Error>))
    requires Valid(w) && r in w.regs && step <= |scope| + 1
    decreases Depth(f.h, ev), 2, |scope| + 1 - step
    ensures Grows(w, res.0)
    ensures res.1.Success? ==> (res.1.value <==> ran || ListenersFor(NewCalls(w, res.0), ev) != [])
    ensures IsException(f.h, ev.cls) ==> OnlyOf(NewCalls(w, res.0), ev)
  {
    if step == |scope| + 1 then
      assert NewCalls(w, w) == [];
      (w, Success(ran))
    else
      var key := scope[..step];
      var w1 := WithReg(w, r, VivifyScope(w.regs[r], t, key));
      var snap := BucketOf(w1.regs[r], t, key);
      assert NewCalls(w, w1) == [];
      var (w2, e) := ExecBucket(f, oracle, w1, r, t, key, snap, 0, ev);
      ListenersForChain(w, w1, w2, ev);
      OnlyOfChain(w, w1, w2, ev);
      assert snap[0..] == snap;
      if e.Failure? then
        (w2, Failure(e.error))
      else
        var (w3, rest) := ExecSteps(f, oracle, w2, r, t, scope, step + 1, ev, ran || snap != []);
        ListenersForChain(w, w2, w3, ev);
        OnlyOfChain(w, w2, w3, ev);
        (w3, rest)
  }

  /** `_exec_listeners(listeners, event_instance, scope)`. */
  function ExecListeners(f: Facts, oracle: seq<Outcome>, w: World, r: RegId, t: Class, scope: Scope,
                         ev: Event): (World, Result<bool, Error>)
    requires Valid(w) && r in w.regs
    decreases Depth(f.h, ev), 2, |scope| + 2
  {
    ExecSteps(f, oracle, w, r, t, scope, 0, ev, false)
  }

  /** The supertype loop of `_emit_single` from position `j` of the reversed
      MRO without the type itself. */
  function SuperLoop(f: Facts, oracle: seq<Outcome>, w: World, r: RegId, supers: seq<Class>, j: nat,
                     ev: Event, handled: bool): (res: (World, Result<bool, Error>))
    requires Valid(w) && r in w.regs && j <= |supers|
    decreases Depth(f.h, ev), 3, |supers| - j
    ensures Grows(w, res.0)
    ensures res.1.Success? ==> (res.1.value <==> handled || ListenersFor(NewCalls(w, res.0), ev) != [])
    ensures IsException(f.h, ev.cls) ==> OnlyOf(NewCalls(w, res.0), ev)
  {
    if j == |supers| then
      assert NewCalls(w, w) == [];
      (w, Success(handled))
    else
      var t := supers[j];
      var w1 := WithReg(w, r, VivifyType(w.regs[r], t));
      assert NewCalls(w, w1) == [];
      if ScopesOf(w1.regs[r], t) == [] then
        SuperLoop(f, oracle, w1, r, supers, j + 1, ev, handled)
      else
        var w2 := WithReg(w1, r, VivifyScope(w1.regs[r], t, EmptyScope));
        assert NewCalls(w, w2) == [];
        if BucketOf(w2.regs[r], t, EmptyScope) == [] then
          SuperLoop(f, oracle, w2, r, supers, j + 1, ev, handled)
        else
          var (w3, ran) := ExecListeners(f, oracle, w2, r, t, EmptyScope, ev);
          ListenersForChain(w, w2, w3, ev);
          OnlyOfChain(w, w2, w3, ev);
          if ran.Failure? then
            (w3, ran)
          else
            var (w4, rest) := SuperLoop(f, oracle, w3, r, supers, j + 1, ev, ran.value || handled);
            ListenersForChain(w, w3, w4, ev);
            OnlyOfChain(w, w3, w4, ev);
            (w4, rest)
  }

  /** `_emit_single(listeners, event_instance, scope)` on registry `r`. */
  function EmitSingle(f: Facts, oracle: seq<Outcome>, w: World, r: RegId, ev: Event, scope: Scope)
    : (res: (World, Result<bool, Error>))
    requires Valid(w) && r in w.regs
    decreases Depth(f.h, ev), 4, 0
    ensures Grows(w, res.0)
    ensures res.1.Success? ==> (res.1.value <==> ListenersFor(NewCalls(w, res.0), ev) != [])
    ensures IsException(f.h, ev.cls) ==> OnlyOf(NewCalls(w, res.0), ev)
  {
    if IsBareBaseException(f.h, ev.cls) then
      assert NewCalls(w, w) == [];
      (w, Failure(Raise(ev)))
    else if IsMetaclass(f.h, ev.cls) || ev.cls == Object then
      assert NewCalls(w, w) == [];
      (w, Failure(ValueError))
    else
      var supers := Reverse(Mro(f.h, ev.cls)[1..]);
      var (w1, sup) := SuperLoop(f, oracle, w, r, supers, 0, ev, false);
      if sup.Failure? then
        (w1, sup)
      else
        var w2 := WithReg(w1, r, VivifyType(w1.regs[r], ev.cls));
        assert NewCalls(w1, w2) == [];
        ListenersForChain(w, w1, w2, ev);
        OnlyOfChain(w, w1, w2, ev);
        if ScopesOf(w2.regs[r], ev.cls) == [] then
          (w2, sup)
        else
          var (w3, own) := ExecListeners(f, oracle, w2, r, ev.cls, scope, ev);
          ListenersForChain(w, w2, w3, ev);
          OnlyOfChain(w, w2, w3, ev);
          if own.Failure? then (w3, own) else (w3, Success(own.value || sup.value))
  }

  /** The end of `emit`: an unhandled `Exception` event is raised. */
  function Finish(f: Facts, w: World, ev: Event, mode: HandleMode): (res: (World, Result<HandleMode, Error>))
    ensures res.0 == w
    ensures res.1.Success? ==> res.1.value == mode
    ensures res.1.Failure? <==> mode == NONE && IsException(f.h, ev.cls)
  {
    if mode == NONE && IsException(f.h, ev.cls) then (w, Failure(Raise(ev))) else (w, Success(mode))
  }

  /** `emit(event_instance, scope=scope, namespace=namespace)`. */
  function Emit(f: Facts, oracle: seq<Outcome>, w: World, ev: Event, scope: string, ns: NsArg)
    : (res: (World, Result<HandleMode, Error>))
    requires Valid(w) && ValidNs(w, ns)
    decreases Depth(f.h, ev), 5, 0
    ensures Grows(w, res.0)
    ensures res.1.Success? ==> (res.1.value != NONE <==> ListenersFor(NewCalls(w, res.0), ev) != [])
    ensures res.1.Success? && IsException(f.h, ev.cls) ==> res.1.value != NONE
    ensures IsException(f.h, ev.cls) ==> OnlyOf(NewCalls(w, res.0), ev)
  {
    var sc := ScopeTuple(scope);
    var (w1, g) := EmitSingle(f, oracle, w, GlobalReg, ev, sc);
    if g.Failure? then
      (w1, Failure(g.error))
    else
      var m1: HandleMode := if g.value then GLOBAL else NONE;
      if ns.NoNamespace? then
        Finish(f, w1, ev, m1)
      else
        var (w2, reg) := Resolve(f, w1, ns);
        assert NewCalls(w1, w2) == [];
        ListenersForChain(w, w1, w2, ev);
        OnlyOfChain(w, w1, w2, ev);
        if reg.Failure? then
          (w2, Failure(reg.error))
        else
          var (w3, n) := EmitSingle(f, oracle, w2, reg.value, ev, sc);
          ListenersForChain(w, w2, w3, ev);
          OnlyOfChain(w, w2, w3, ev);
          if n.Failure? then
            (w3, Failure(n.error))
          else
            Finish(f, w3, ev, m1 | if n.value then NAMESPACE else NONE)
  }

  /** The listeners of successive stretches of the log concatenate. */
  lemma ListenersForChain(w: World, w1: World, w2: World, ev: Event)
    requires w.calls <= w1.calls <= w2.calls
    ensures ListenersFor(NewCalls(w, w2), ev) == ListenersFor(NewCalls(w, w1), ev) + ListenersFor(NewCalls(w1, w2), ev)
  {
    assert NewCalls(w, w2) == NewCalls(w, w1) + NewCalls(w1, w2);
    ListenersForAppend(NewCalls(w, w1), NewCalls(w1, w2), ev);
  }

  lemma {:induction false} ListenersForAppend(a: seq<Invocation>, b: seq<Invocation>, ev: Event)
    ensures ListenersFor(a + b, ev) == ListenersFor(a, ev) + ListenersFor(b, ev)
  {
    if a == [] {
      assert a + b == b;
    } else {
      assert (a + b)[1..] == a[1..] + b;
      ListenersForAppend(a[1..], b, ev);
    }
  }

  lemma OnlyOfChain(w: World, w1: World, w2: World, ev: Event)
    requires w.calls <= w1.calls <= w2.calls
    ensures OnlyOf(NewCalls(w, w1), ev) && OnlyOf(NewCalls(w1, w2), ev) ==> OnlyOf(NewCalls(w, w2), ev)
  {
    assert NewCalls(w, w2) == NewCalls(w, w1) + NewCalls(w1, w2);
  }

  /** Invocations of one event hold no invocation of a different one. */
  lemma {:induction false} OnlyOfOther(cs: seq<Invocation>, e: Event, ev: Event)
    ensures OnlyOf(cs, e) && e != ev ==> ListenersFor(cs, ev) == []
  {
    if cs != [] {
      OnlyOfOther(cs[1..], e, ev);
    }
  }
}
