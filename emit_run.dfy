/**
 * `emitter/_emit.py` as the loops it is written with: the functions of
 * `_emit.py` update the shared registries and logs of a `Store` in place,
 * and each is proved to leave the state and return the result that the
 * recursive definitions of `Emission` give.
 */
module EmissionRun {
  import opened Wrappers
  import opened Python
  import opened Dict
  import opened Types
  import opened Seqs
  import opened Mapping
  import opened ScopeParsing
  import opened State
  import opened Namespaces
  import Emission

  /** The body of the inner loop of `_exec_listeners` for one entry. */
  method ExecEntry(s: Store, f: Facts, oracle: seq<Outcome>, r: RegId, t: Class, key: Scope,
                   entry: (Obj, ListenerOpts), ev: Event) returns (res: Result<(), Error>)
    requires Valid(s.world) && r in s.world.regs
    modifies s
    decreases Emission.Depth(f.h, ev), 0
    ensures (s.world, res) == Emission.ExecEntry(f, oracle, old(s.world), r, t, key, entry, ev)
  {
    s.world := Emission.DropOnce(s.world, r, t, key, entry);
    var outcome := Next(oracle, |s.world.calls|);
    s.world := s.world.(calls := s.world.calls + [Invocation(entry.0, ev)]);
    match outcome {
      case Completed =>
        res := Success(());
      case Cancelled =>
        res := Failure(CancelledError);
      case Raised(exc) =>
        if !IsException(f.h, exc.cls) {
          res := Failure(Raise(exc));
        } else if IsException(f.h, ev.cls) {
          s.world := Emission.Report(s.world, exc);
          res := Success(());
        } else {
          var nested := Emit(s, f, oracle, exc, "", ObjectNs(entry.0));
          if nested.Success? {
            res := Success(());
          } else if Propagates(f.h, nested.error) {
            res := Failure(nested.error);
          } else {
            s.world := Emission.Report(s.world, exc);
            res := Success(());
          }
        }
    }
  }

  /** The inner loop of `_exec_listeners`: run the entries of the copy
      `snap` of the bucket of `key`, in order, stopping at an error. */
  method ExecBucket(s: Store, f: Facts, oracle: seq<Outcome>, r: RegId, t: Class, key: Scope,
                    snap: Bucket, ev: Event) returns (res: Result<(), Error>)
    requires Valid(s.world) && r in s.world.regs
    modifies s
    decreases Emission.Depth(f.h, ev), 1
    ensures (s.world, res) == Emission.ExecBucket(f, oracle, old(s.world), r, t, key, snap, 0, ev)
  {
    ghost var goal := Emission.ExecBucket(f, oracle, s.world, r, t, key, snap, 0, ev);
    var i := 0;
    while i < |snap|
      invariant i <= |snap| && Valid(s.world) && r in s.world.regs
      invariant Emission.ExecBucket(f, oracle, s.world, r, t, key, snap, i, ev) == goal
    {
      ghost var here := s.world;
      var e := ExecEntry(s, f, oracle, r, t, key, snap[i], ev);
      BucketStep(f, oracle, here, r, t, key, snap, i, ev, goal, s.world, e);
      if e.Failure? {
        return e;
      }
      i := i + 1;
    }
    BucketDone(f, oracle, s.world, r, t, key, snap, ev, goal);
    res := Success(());
  }

  /** `_exec_listeners(listeners, event_instance, scope)`: for every prefix
      of the scope, shortest first, run a copy of its bucket. */
  method ExecListeners(s: Store, f: Facts, oracle: seq<Outcome>, r: RegId, t: Class, scope: Scope,
                       ev: Event) returns (res: Result<bool, Error>)
    requires Valid(s.world) && r in s.world.regs
    modifies s
    decreases Emission.Depth(f.h, ev), 2
    ensures (s.world, res) == Emission.ExecListeners(f, oracle, old(s.world), r, t, scope, ev)
  {
    ghost var goal := Emission.ExecSteps(f, oracle, s.world, r, t, scope, 0, ev, false);
    var ran := false;
    var step := 0;
    while step < |scope| + 1
      invariant step <= |scope| + 1
      invariant Valid(s.world) && r in s.world.regs
      invariant Emission.ExecSteps(f, oracle, s.world, r, t, scope, step, ev, ran) == goal
    {
      var key := scope[..step];
      ghost var before := s.world;
      s.world := WithReg(s.world, r, VivifyScope(s.world.regs[r], t, key));
      var snap := BucketOf(s.world.regs[r], t, key);
      ghost var vivified := s.world;
      var e := ExecBucket(s, f, oracle, r, t, key, snap, ev);
      var next, ran' := step + 1, ran || snap != [];
      StepsStep(f, oracle, before, r, t, scope, step, ev, ran, goal, vivified, s.world, e, next, ran');
      if e.Failure? {
        return Failure(e.error);
      }
      step, ran := next, ran';
    }
    StepsDone(f, oracle, s.world, r, t, scope, ev, ran, goal);
    res := Success(ran);
  }

  /** Running entry `i` of the copied bucket from `w` led to `w'`: the rest
      of the loop gives the same end, or the loop ends here on an error. */
  lemma BucketStep(f: Facts, oracle: seq<Outcome>, w: World, r: RegId, t: Class, key: Scope,
                   snap: Bucket, i: nat, ev: Event, goal: (World, Result<(), Error>), w': World, e: Result<(), Error>)
    requires Valid(w) && r in w.regs && i < |snap|
    requires Emission.ExecBucket(f, oracle, w, r, t, key, snap, i, ev) == goal
    requires (w', e) == Emission.ExecEntry(f, oracle, w, r, t, key, snap[i], ev)
    ensures Valid(w') && r in w'.regs
    ensures e.Failure? ==> goal == (w', e)
    ensures e.Success? ==> Emission.ExecBucket(f, oracle, w', r, t, key, snap, i + 1, ev) == goal
  {
  }

  /** The copied bucket is exhausted. */
  lemma BucketDone(f: Facts, oracle: seq<Outcome>, w: World, r: RegId, t: Class, key: Scope,
                   snap: Bucket, ev: Event, goal: (World, Result<(), Error>))
    requires Valid(w) && r in w.regs
    requires Emission.ExecBucket(f, oracle, w, r, t, key, snap, |snap|, ev) == goal
    ensures goal == (w, Success(()))
  {
  }

  /** One prefix of the scope ran from `w`, its bucket stored in `w1` and
      run to `w'`; the loop goes on from step `next` with flag `ran'`. */
  lemma StepsStep(f: Facts, oracle: seq<Outcome>, w: World, r: RegId, t: Class, scope: Scope,
                  step: nat, ev: Event, ran: bool, goal: (World, Result<bool, Error>),
                  w1: World, w': World, e: Result<(), Error>, next: nat, ran': bool)
    requires Valid(w) && r in w.regs && step < |scope| + 1
    requires Emission.ExecSteps(f, oracle, w, r, t, scope, step, ev, ran) == goal
    requires w1 == WithReg(w, r, VivifyScope(w.regs[r], t, scope[..step]))
    requires (w', e) == Emission.ExecBucket(f, oracle, w1, r, t, scope[..step], BucketOf(w1.regs[r], t, scope[..step]), 0, ev)
    requires next == step + 1 && ran' == (ran || BucketOf(w1.regs[r], t, scope[..step]) != [])
    ensures Valid(w') && r in w'.regs && next <= |scope| + 1
    ensures e.Failure? ==> goal == (w', Failure(e.error))
    ensures e.Success? ==> Emission.ExecSteps(f, oracle, w', r, t, scope, next, ev, ran') == goal
  {
  }

  /** Every prefix of the scope has run. */
  lemma StepsDone(f: Facts, oracle: seq<Outcome>, w: World, r: RegId, t: Class, scope: Scope,
                  ev: Event, ran: bool, goal: (World, Result<bool, Error>))
    requires Valid(w) && r in w.regs
    requires Emission.ExecSteps(f, oracle, w, r, t, scope, |scope| + 1, ev, ran) == goal
    ensures goal == (w, Success(ran))
  {
  }

  /** `_emit_single(listeners, event_instance, scope)` on registry `r`:
      reject what cannot be an event type, run the empty-scope bucket of
      every supertype, most generic first, then the event's own type. */
  method EmitSingle(s: Store, f: Facts, oracle: seq<Outcome>, r: RegId, ev: Event, scope: Scope)
    returns (res: Result<bool, Error>)
    requires Valid(s.world) && r in s.world.regs
    modifies s
    decreases Emission.Depth(f.h, ev), 4
    ensures (s.world, res) == Emission.EmitSingle(f, oracle, old(s.world), r, ev, scope)
  {
    if IsBareBaseException(f.h, ev.cls) {
      return Failure(Raise(ev));
    }
    if IsMetaclass(f.h, ev.cls) || ev.cls == Object {
      return Failure(ValueError);
    }
    ghost var start := s.world;
    var supers := Reverse(Mro(f.h, ev.cls)[1..]);
    ghost var goal := Emission.SuperLoop(f, oracle, s.world, r, supers, 0, ev, false);
    var handled := false;
    var j := 0;
    while j < |supers|
      invariant j <= |supers| && Valid(s.world) && r in s.world.regs
      invariant Emission.SuperLoop(f, oracle, s.world, r, supers, j, ev, handled) == goal
    {
      var t := supers[j];
      ghost var before := s.world;
      s.world := WithReg(s.world, r, VivifyType(s.world.regs[r], t));
      if ScopesOf(s.world.regs[r], t) == [] {
        SuperSkipType(f, oracle, before, r, supers, j, ev, handled, goal, s.world);
      } else {
        ghost var typed := s.world;
        s.world := WithReg(s.world, r, VivifyScope(s.world.regs[r], t, EmptyScope));
        if BucketOf(s.world.regs[r], t, EmptyScope) == [] {
          SuperSkipScope(f, oracle, before, r, supers, j, ev, handled, goal, typed, s.world);
        } else {
          ghost var scoped := s.world;
          var ran := ExecListeners(s, f, oracle, r, t, EmptyScope, ev);
          var handled' := if ran.Success? then ran.value || handled else handled;
          SuperRun(f, oracle, before, r, supers, j, ev, handled, goal, typed, scoped, s.world, ran, handled');
          if ran.Failure? {
            return ran;
          }
          handled := handled';
        }
      }
      j := j + 1;
    }
    SuperDone(f, oracle, s.world, r, supers, ev, handled, goal);
    ghost var afterSupers := s.world;
    s.world := WithReg(s.world, r, VivifyType(s.world.regs[r], ev.cls));
    if ScopesOf(s.world.regs[r], ev.cls) == [] {
      SingleNoOwn(f, oracle, start, r, ev, scope, afterSupers, handled);
      return Success(handled);
    }
    ghost var typed := s.world;
    var own := ExecListeners(s, f, oracle, r, ev.cls, scope, ev);
    SingleOwn(f, oracle, start, r, ev, scope, afterSupers, handled, s.world, own);
    if own.Failure? {
      return own;
    }
    res := Success(own.value || handled);
  }

  /** A supertype with no scope at all is skipped. */
  lemma SuperSkipType(f: Facts, oracle: seq<Outcome>, w: World, r: RegId, supers: seq<Class>, j: nat,
                      ev: Event, handled: bool, goal: (World, Result<bool, Error>), w1: World)
    requires Valid(w) && r in w.regs && j < |supers|
    requires Emission.SuperLoop(f, oracle, w, r, supers, j, ev, handled) == goal
    requires w1 == WithReg(w, r, VivifyType(w.regs[r], supers[j])) && ScopesOf(w1.regs[r], supers[j]) == []
    ensures Valid(w1) && r in w1.regs
    ensures Emission.SuperLoop(f, oracle, w1, r, supers, j + 1, ev, handled) == goal
  {
  }

  /** A supertype whose empty-scope bucket is empty is skipped. */
  lemma SuperSkipScope(f: Facts, oracle: seq<Outcome>, w: World, r: RegId, supers: seq<Class>, j: nat,
                       ev: Event, handled: bool, goal: (World, Result<bool, Error>), w1: World, w2: World)
    requires Valid(w) && r in w.regs && j < |supers|
    requires Emission.SuperLoop(f, oracle, w, r, supers, j, ev, handled) == goal
    requires w1 == WithReg(w, r, VivifyType(w.regs[r], supers[j])) && ScopesOf(w1.regs[r], supers[j]) != []
    requires w2 == WithReg(w1, r, VivifyScope(w1.regs[r], supers[j], EmptyScope))
    requires BucketOf(w2.regs[r], supers[j], EmptyScope) == []
    ensures Valid(w2) && r in w2.regs
    ensures Emission.SuperLoop(f, oracle, w2, r, supers, j + 1, ev, handled) == goal
  {
  }

  /** A supertype whose empty-scope bucket has listeners runs them. */
  lemma SuperRun(f: Facts, oracle: seq<Outcome>, w: World, r: RegId, supers: seq<Class>, j: nat,
                 ev: Event, handled: bool, goal: (World, Result<bool, Error>), w1: World, w2: World,
                 w3: World, ran: Result<bool, Error>, handled': bool)
    requires Valid(w) && r in w.regs && j < |supers|
    requires Emission.SuperLoop(f, oracle, w, r, supers, j, ev, handled) == goal
    requires w1 == WithReg(w, r, VivifyType(w.regs[r], supers[j])) && ScopesOf(w1.regs[r], supers[j]) != []
    requires w2 == WithReg(w1, r, VivifyScope(w1.regs[r], supers[j], EmptyScope))
    requires BucketOf(w2.regs[r], supers[j], EmptyScope) != []
    requires (w3, ran) == Emission.ExecListeners(f, oracle, w2, r, supers[j], EmptyScope, ev)
    requires handled' == if ran.Success? then ran.value || handled else handled
    ensures Valid(w3) && r in w3.regs
    ensures ran.Failure? ==> goal == (w3, ran)
    ensures ran.Success? ==> Emission.SuperLoop(f, oracle, w3, r, supers, j + 1, ev, handled') == goal
  {
  }

  /** Every supertype has been visited. */
  lemma SuperDone(f: Facts, oracle: seq<Outcome>, w: World, r: RegId, supers: seq<Class>,
                  ev: Event, handled: bool, goal: (World, Result<bool, Error>))
    requires Valid(w) && r in w.regs
    requires Emission.SuperLoop(f, oracle, w, r, supers, |supers|, ev, handled) == goal
    ensures goal == (w, Success(handled))
  {
  }

  /** The supertypes ran from `w` to `w1`; the event's own type has no
      scope. */
  lemma SingleNoOwn(f: Facts, oracle: seq<Outcome>, w: World, r: RegId, ev: Event, scope: Scope,
                    w1: World, handled: bool)
    requires Valid(w) && r in w.regs
    requires !IsBareBaseException(f.h, ev.cls) && !IsMetaclass(f.h, ev.cls) && ev.cls != Object
    requires (w1, Success(handled)) == Emission.SuperLoop(f, oracle, w, r, Reverse(Mro(f.h, ev.cls)[1..]), 0, ev, false)
    requires ScopesOf(WithReg(w1, r, VivifyType(w1.regs[r], ev.cls)).regs[r], ev.cls) == []
    ensures Emission.EmitSingle(f, oracle, w, r, ev, scope) ==
      (WithReg(w1, r, VivifyType(w1.regs[r], ev.cls)), Success(handled))
  {
  }

  /** The supertypes ran from `w` to `w1`; the event's own type ran from
      there to `w3`. */
  lemma SingleOwn(f: Facts, oracle: seq<Outcome>, w: World, r: RegId, ev: Event, scope: Scope,
                  w1: World, handled: bool, w3: World, own: Result<bool, Error>)
    requires Valid(w) && r in w.regs
    requires !IsBareBaseException(f.h, ev.cls) && !IsMetaclass(f.h, ev.cls) && ev.cls != Object
    requires (w1, Success(handled)) == Emission.SuperLoop(f, oracle, w, r, Reverse(Mro(f.h, ev.cls)[1..]), 0, ev, false)
    requires Valid(w1) && r in w1.regs
    requires ScopesOf(WithReg(w1, r, VivifyType(w1.regs[r], ev.cls)).regs[r], ev.cls) != []
    requires (w3, own) == Emission.ExecListeners(f, oracle, WithReg(w1, r, VivifyType(w1.regs[r], ev.cls)), r, ev.cls, scope, ev)
    ensures Emission.EmitSingle(f, oracle, w, r, ev, scope) ==
      if own.Failure? then (w3, own) else (w3, Success(own.value || handled))
  {
  }

  /** `emit(event_instance, scope=, namespace=)`: the global registry's
      pass, then the namespace's; an unhandled `Exception` is raised. */
  method Emit(s: Store, f: Facts, oracle: seq<Outcome>, ev: Event, scope: string, ns: NsArg)
    returns (res: Result<HandleMode, Error>)
    requires Valid(s.world) && ValidNs(s.world, ns)
    modifies s
    decreases Emission.Depth(f.h, ev), 5
    ensures (s.world, res) == Emission.Emit(f, oracle, old(s.world), ev, scope, ns)
  {
    ghost var start := s.world;
    var sc := ScopeTuple(scope);
    var g := EmitSingle(s, f, oracle, GlobalReg, ev, sc);
    if g.Failure? {
      return Failure(g.error);
    }
    var handled: HandleMode := if g.value then GLOBAL else NONE;
    if ns.NoNamespace? {
      return Emission.Finish(f, s.world, ev, handled).1;
    }
    ghost var global := s.world;
    var resolved;
    s.world, resolved := Resolve(f, s.world, ns).0, Resolve(f, s.world, ns).1;
    if resolved.Failure? {
      return Failure(resolved.error);
    }
    ghost var w2 := s.world;
    var n := EmitSingle(s, f, oracle, resolved.value, ev, sc);
    EmitTail(f, oracle, start, ev, scope, ns, global, g.value, w2, resolved.value, s.world, n);
    if n.Failure? {
      return Failure(n.error);
    }
    res := Emission.Finish(f, s.world, ev, handled | if n.value then NAMESPACE else NONE).1;
  }

  /** `emit`'s namespace pass, from the world after the global pass. */
  lemma EmitTail(f: Facts, oracle: seq<Outcome>, w: World, ev: Event, scope: string, ns: NsArg,
                 w1: World, global: bool, w2: World, reg: RegId, w3: World, n: Result<bool, Error>)
    requires Valid(w) && ValidNs(w, ns) && !ns.NoNamespace?
    requires (w1, Success(global)) == Emission.EmitSingle(f, oracle, w, GlobalReg, ev, ScopeTuple(scope))
    requires Valid(w1) && ValidNs(w1, ns)
    requires (w2, Success(reg)) == Resolve(f, w1, ns)
    requires Valid(w2) && reg in w2.regs
    requires (w3, n) == Emission.EmitSingle(f, oracle, w2, reg, ev, ScopeTuple(scope))
    ensures Emission.Emit(f, oracle, w, ev, scope, ns) ==
      if n.Failure? then (w3, Failure(n.error))
      else Emission.Finish(f, w3, ev, (if global then GLOBAL else NONE) | if n.value then NAMESPACE else NONE)
  {
    var mode := (if global then GLOBAL else NONE) | if n.Success? && n.value then NAMESPACE else NONE;
    var fin := Emission.Finish(f, w3, ev, mode);
    EmitTailCases(f, oracle, w, ev, scope, ns, w1, global, w2, reg, w3, n, mode, fin);
  }

  lemma EmitTailCases(f: Facts, oracle: seq<Outcome>, w: World, ev: Event, scope: string, ns: NsArg,
                      w1: World, global: bool, w2: World, reg: RegId, w3: World, n: Result<bool, Error>,
                      mode: HandleMode, fin: (World, Result<HandleMode, Error>))
    requires Valid(w) && ValidNs(w, ns) && !ns.NoNamespace?
    requires (w1, Success(global)) == Emission.EmitSingle(f, oracle, w, GlobalReg, ev, ScopeTuple(scope))
    requires Valid(w1) && ValidNs(w1, ns)
    requires (w2, Success(reg)) == Resolve(f, w1, ns)
    requires Valid(w2) && reg in w2.regs
    requires (w3, n) == Emission.EmitSingle(f, oracle, w2, reg, ev, ScopeTuple(scope))
    requires mode == (if global then GLOBAL else NONE) | if n.Success? && n.value then NAMESPACE else NONE
    requires fin == Emission.Finish(f, w3, ev, mode)
    ensures Emission.Emit(f, oracle, w, ev, scope, ns) == if n.Failure? then (w3, Failure(n.error)) else fin
  {
  }
}
