/**
 * `emitter/_on.py`: `on(event_type, listener, once=, loop=, scope=,
 * namespace=)`. The event type is checked, then the listener; the options
 * are built, the listener is bound to its loop, the registry is selected,
 * and the listener is stored under `registry[event_type][scope]`.
 */
module Registration {
  import opened Wrappers
  import opened Python
  import opened Dict
  import opened Types
  import opened Mapping
  import opened ScopeParsing
  import opened State
  import opened Namespaces
  import opened LoopBinding

  /** The `event_type` argument: a class, or some object that is not one. */
  datatype TypeArg = ClassArg(cls: Class) | NotAClass

  /** The keyword arguments of `on`. */
  datatype OnArgs = OnArgs(eventType: TypeArg, once: bool, loop: Option<Loop>, scope: string, ns: NsArg)

  /** What `on` returns: the listener, or (called without one) the decorator
      that registers its argument with the same keyword arguments. */
  datatype OnReturn = Registered(listener: Obj) | Decorator(args: OnArgs)

  /** The checks on `event_type`, in order: `object` itself, a
      `BaseException` that is not an `Exception` (where a non-class fails in
      `issubclass` with TypeError), a metaclass. */
  function CheckType(h: Hierarchy, t: TypeArg): (r: Result<Class, Error>)
    ensures r.Success? <==> t.ClassArg? && t.cls != Object && !IsBareBaseException(h, t.cls) && !IsMetaclass(h, t.cls)
    ensures r.Success? ==> r.value == t.cls
    ensures t == NotAClass ==> r == Failure(TypeError)
    ensures r.Failure? && t.ClassArg? ==> r == Failure(ValueError)
  {
    match t
    case NotAClass => Failure(TypeError)
    case ClassArg(c) =>
      if c == Object then Failure(ValueError)
      else if IsBareBaseException(h, c) then Failure(ValueError)
      else if IsMetaclass(h, c) then Failure(ValueError)
      else Success(c)
  }

  /** The loop `on` binds: the one given, else the running loop for a
      coroutine function (RuntimeError when no loop runs), else none. */
  function ChooseLoop(f: Facts, l: Obj, loop: Option<Loop>, running: Option<Loop>): (r: Result<Option<Loop>, Error>)
    ensures loop.Some? ==> r == Success(loop)
    ensures loop.None? && l !in f.coroutines ==> r == Success(None)
    ensures loop.None? && l in f.coroutines ==> r == if running.Some? then Success(running) else Failure(RuntimeError)
  {
    if loop.None? && l in f.coroutines then
      if running.Some? then Success(running) else Failure(RuntimeError)
    else Success(loop)
  }

  /** `on(...)` with `listener` given or not; `running` is the loop
      `get_running_loop()` finds, if any. */
  function On(f: Facts, w: World, args: OnArgs, listener: Option<Obj>, running: Option<Loop>)
    : (res: (World, Result<OnReturn, Error>))
    requires Valid(w) && ValidNs(w, args.ns)
    ensures Valid(res.0)
    ensures res.1.Failure? ==> forall r :: r in w.regs ==> r in res.0.regs && res.0.regs[r] == w.regs[r]
  {
    match CheckType(f.h, args.eventType)
    case Failure(e) => (w, Failure(e))
    case Success(t) =>
      if listener.None? then (w, Success(Decorator(args)))
      else
        var l := listener.value;
        var (w2, reg) := Prepare(f, w, args, l, running);
        if reg.Failure? then (w2, Failure(reg.error))
        else
          var r := reg.value;
          (WithReg(w2, r, Insert(w2.regs[r], t, ScopeTuple(args.scope), l, BuildOpts(args.once))),
           Success(Registered(l)))
  }

  /** The steps of `on` between the decorator test and the insertion: the
      callable check, the loop binding and the choice of registry. */
  function Prepare(f: Facts, w: World, args: OnArgs, l: Obj, running: Option<Loop>)
    : (res: (World, Result<RegId, Error>))
    requires Valid(w) && ValidNs(w, args.ns)
    ensures Valid(res.0)
    ensures forall r :: r in w.regs ==> r in res.0.regs && res.0.regs[r] == w.regs[r]
    ensures res.1.Success? ==>
      && res.1.value == Target(w, args.ns)
      && res.1.value in res.0.regs
      && res.0.regs[res.1.value] == OldReg(w, args.ns)
  {
    if l !in f.callable then (w, Failure(ValueError))
    else
      match ChooseLoop(f, l, args.loop, running)
      case Failure(e) => (w, Failure(e))
      case Success(loop) =>
        var (w1, bound) := RetrieveLoop(f, w, l, loop);
        if bound.Failure? then (w1, Failure(bound.error))
        else if bound.value != loop then (w1, Failure(TypeError))
        else if args.ns.NoNamespace? then (w1, Success(GlobalReg))
        else Resolve(f, w1, args.ns)
  }

  /** Calling the decorator `on(event_type, **kwargs)` returned. */
  function ApplyDecorator(f: Facts, w: World, d: OnReturn, cb: Obj, running: Option<Loop>)
    : (res: (World, Result<OnReturn, Error>))
    requires Valid(w) && d.Decorator? && ValidNs(w, d.args.ns)
  {
    On(f, w, d.args, Some(cb), running)
  }

  /** The registry a successful `on` writes to: the global one without a
      namespace, a registry given as such, the one attached to the object,
      or else the next fresh one, which the object receives. */
  function Target(w: World, ns: NsArg): RegId {
    match ns
    case NoNamespace => GlobalReg
    case RegistryNs(r) => r
    case ObjectNs(o) => if ListenersAttrOf(w, o).Holds? then ListenersAttrOf(w, o).reg else w.nextReg
  }

  /** That registry before the insertion: an existing one, or a new empty
      one. */
  function OldReg(w: World, ns: NsArg): Registry {
    var r := Target(w, ns);
    if r in w.regs then w.regs[r] else NewListenerMapping()
  }

  /** An event type that fails the checks is refused before the listener is
      looked at, and nothing changes: `object`, a bare `BaseException`
      subclass and a metaclass with ValueError, a non-class with TypeError. */
  lemma OnRejectsType(f: Facts, w: World, args: OnArgs, listener: Option<Obj>, running: Option<Loop>)
    requires Valid(w) && ValidNs(w, args.ns)
    requires CheckType(f.h, args.eventType).Failure?
    ensures On(f, w, args, listener, running) ==
      (w, Failure(if args.eventType.NotAClass? then TypeError else ValueError))
  {
  }

  /** Without a listener `on` changes nothing and returns a decorator, and
      calling the decorator is calling `on` with that listener. */
  lemma DecoratorForm(f: Facts, w: World, args: OnArgs, cb: Obj, running: Option<Loop>)
    requires Valid(w) && ValidNs(w, args.ns)
    requires CheckType(f.h, args.eventType).Success?
    ensures var (w1, d) := On(f, w, args, None, running);
      && w1 == w && d == Success(Decorator(args))
      && ApplyDecorator(f, w1, d.value, cb, running) == On(f, w, args, Some(cb), running)
  {
  }

  /** A listener that is not callable is refused with ValueError and nothing
      is inserted. */
  lemma OnRejectsListener(f: Facts, w: World, args: OnArgs, l: Obj, running: Option<Loop>)
    requires Valid(w) && ValidNs(w, args.ns)
    requires CheckType(f.h, args.eventType).Success? && l !in f.callable
    ensures On(f, w, args, Some(l), running) == (w, Failure(ValueError))
  {
  }

  /** A listener already bound to a live loop other than the one asked for
      is refused with TypeError before anything is inserted. */
  lemma OnLoopConflict(f: Facts, w: World, args: OnArgs, l: Obj, running: Option<Loop>)
    requires Valid(w) && ValidNs(w, args.ns)
    requires CheckType(f.h, args.eventType).Success? && l in f.callable
    requires LoopAttrOf(w, l).WeakRef? && LoopAttrOf(w, l).target !in f.collected
    requires ChooseLoop(f, l, args.loop, running).Success?
    requires ChooseLoop(f, l, args.loop, running).value != Some(LoopAttrOf(w, l).target)
    ensures On(f, w, args, Some(l), running) == (w, Failure(TypeError))
  {
  }

  /** A coroutine function registered without a loop while no loop runs:
      RuntimeError, nothing inserted. */
  lemma OnNoRunningLoop(f: Facts, w: World, args: OnArgs, l: Obj)
    requires Valid(w) && ValidNs(w, args.ns)
    requires CheckType(f.h, args.eventType).Success? && l in f.callable
    requires args.loop.None? && l in f.coroutines
    ensures On(f, w, args, Some(l), None) == (w, Failure(RuntimeError))
  {
  }

  /** A successful `on` returns the listener itself, stored with `ONCE`
      exactly when `once` was asked, under the scope tuple of `scope` of the
      event type in the selected registry; every other bucket of that
      registry, and every other registry, is unchanged. */
  lemma OnInserts(f: Facts, w: World, args: OnArgs, l: Obj, running: Option<Loop>)
    requires Valid(w) && ValidNs(w, args.ns)
    requires On(f, w, args, Some(l), running).1.Success?
    ensures var (w', res) := On(f, w, args, Some(l), running);
      var r := Target(w, args.ns);
      var t := args.eventType.cls;
      var s := ScopeTuple(args.scope);
      && res.value == Registered(l)
      && r in w'.regs
      && Find(BucketOf(w'.regs[r], t, s), l) == Some(BuildOpts(args.once))
      && (IsOnce(Find(BucketOf(w'.regs[r], t, s), l).value) <==> args.once)
      && (forall l' :: l' != l ==> Find(BucketOf(w'.regs[r], t, s), l') == Find(BucketOf(OldReg(w, args.ns), t, s), l'))
      && (forall t', s' :: (t' != t || s' != s) ==> BucketOf(w'.regs[r], t', s') == BucketOf(OldReg(w, args.ns), t', s'))
      && (forall r' :: r' in w.regs && r' != r ==> r' in w'.regs && w'.regs[r'] == w.regs[r'])
  {
    var t := args.eventType.cls;
    var s := ScopeTuple(args.scope);
    OnShape(f, w, args, l, running);
    InsertFind(OldReg(w, args.ns), t, s, l, BuildOpts(args.once));
  }

  /** A successful `on` is the insertion into the selected registry. */
  lemma OnShape(f: Facts, w: World, args: OnArgs, l: Obj, running: Option<Loop>)
    requires Valid(w) && ValidNs(w, args.ns)
    requires On(f, w, args, Some(l), running).1.Success?
    ensures args.eventType.ClassArg?
    ensures var (w', res) := On(f, w, args, Some(l), running);
      var r := Target(w, args.ns);
      && res.value == Registered(l)
      && r in w'.regs
      && w'.regs[r] == Insert(OldReg(w, args.ns), args.eventType.cls, ScopeTuple(args.scope), l, BuildOpts(args.once))
      && (forall r' :: r' in w.regs && r' != r ==> r' in w'.regs && w'.regs[r'] == w.regs[r'])
  {
    var (w2, reg) := Prepare(f, w, args, l, running);
    assert reg.Success?;
  }

  /** Registering a listener again in the same bucket only overwrites its
      options: it keeps its place and no duplicate appears. A new listener
      goes last. */
  lemma OnOverwriteKeepsPlace(f: Facts, w: World, args: OnArgs, l: Obj, running: Option<Loop>)
    requires Valid(w) && ValidNs(w, args.ns)
    requires On(f, w, args, Some(l), running).1.Success?
    requires Mapping.WellFormed(OldReg(w, args.ns))
    ensures var (w', _) := On(f, w, args, Some(l), running);
      var r := Target(w, args.ns);
      var s := ScopeTuple(args.scope);
      var before := BucketOf(OldReg(w, args.ns), args.eventType.cls, s);
      var after := BucketOf(w'.regs[r], args.eventType.cls, s);
      && Keys(after) == (if HasKey(before, l) then Keys(before) else Keys(before) + [l])
      && UniqueKeys(after)
  {
    var t := args.eventType.cls;
    var s := ScopeTuple(args.scope);
    var reg := OldReg(w, args.ns);
    var opts := BuildOpts(args.once);
    OnInserts(f, w, args, l, running);
    PutKeys(BucketOf(reg, t, s), l, opts);
    BucketOfUnique(reg, t, s);
    PutUnique(BucketOf(reg, t, s), l, opts);
  }
}
