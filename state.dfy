/**
 * The state the emitter's operations share: the global registry, the
 * registries attached to namespaces, the `__listeners__` and `__loop__`
 * attributes of objects, and two logs that stand for the effects the model
 * does not execute: the listener invocations, in order, and the exceptions
 * passed to the event loop's exception handler.
 *
 * Registries are Python objects compared by identity, so they live in an
 * arena indexed by `RegId`; `GlobalReg` is the module-level registry.
 */
module State {
  import opened Python
  import opened Types
  import opened Mapping

  type RegId = nat
  const GlobalReg: RegId := 0

  /** An object's `__listeners__` attribute: absent or `None`, a registry, or
      some other value. */
  datatype ListenersAttr = NoListeners | Holds(reg: RegId) | Incompatible

  /** An object's `__loop__` attribute: absent, `None`, a loop, a weak
      reference to a loop, or some other value. */
  datatype LoopAttr = Absent | NoneValue | LoopValue(loop: Loop) | WeakRef(target: Loop) | OtherValue

  /** The `namespace` argument: `None`, a registry passed as such, or any
      other object. */
  datatype NsArg = NoNamespace | RegistryNs(reg: RegId) | ObjectNs(obj: Obj)

  /** What awaiting one listener did, as far as the emitter can tell.
      `Completed` covers a listener whose own future was cancelled, which
      the bridge absorbs; `Cancelled` is the emission itself being cancelled
      while it waits; `Raised` is an exception the listener raised. */
  datatype Outcome = Completed | Raised(exc: Event) | Cancelled

  /** One listener invocation: the listener and the event it received. */
  datatype Invocation = Invocation(listener: Obj, event: Event)

  /** The facts about the program the emitter cannot change: the class
      hierarchy, which objects are callable, which are coroutine functions,
      which refuse new attributes, and which event loops have been garbage
      collected. */
  datatype Facts = Facts(
    h: Hierarchy,
    callable: set<Obj>,
    coroutines: set<Obj>,
    unwritable: set<Obj>,
    collected: set<Loop>)

  datatype World = World(
    regs: map<RegId, Registry>,
    nextReg: RegId,
    attrs: map<Obj, ListenersAttr>,
    loops: map<Obj, LoopAttr>,
    calls: seq<Invocation>,
    reported: seq<Event>)

  /** The global registry exists, every registry id was handed out, and every
      attached registry exists. */
  predicate Valid(w: World) {
    && GlobalReg in w.regs
    && (forall r :: r in w.regs ==> r < w.nextReg)
    && (forall o :: o in w.attrs && w.attrs[o].Holds? ==> w.attrs[o].reg in w.regs)
  }

  /** A namespace argument that names an existing registry, if it names one. */
  predicate ValidNs(w: World, ns: NsArg) {
    ns.RegistryNs? ==> ns.reg in w.regs
  }

  /** The start state: an empty global registry and nothing else. */
  function Initial(): (w: World)
    ensures Valid(w)
    ensures w.regs == map[GlobalReg := NewListenerMapping()]
  {
    World(map[GlobalReg := NewListenerMapping()], GlobalReg + 1, map[], map[], [], [])
  }

  /** The module-level state the operations update in place: the global
      registry, the namespaces' registries and attributes, and the logs. */
  class Store {
    var world: World

    constructor()
      ensures world == Initial()
    {
      world := Initial();
    }
  }

  function ListenersAttrOf(w: World, o: Obj): ListenersAttr {
    if o in w.attrs then w.attrs[o] else NoListeners
  }

  function LoopAttrOf(w: World, o: Obj): LoopAttr {
    if o in w.loops then w.loops[o] else Absent
  }

  /** The outcome of the `k`-th listener invocation; invocations the oracle
      does not cover complete normally. */
  function Next(oracle: seq<Outcome>, k: nat): Outcome {
    if k < |oracle| then oracle[k] else Completed
  }

  /** Replaces one registry. */
  function WithReg(w: World, r: RegId, reg: Registry): (w': World)
    requires r in w.regs
    ensures w'.regs.Keys == w.regs.Keys
    ensures Valid(w) ==> Valid(w')
  {
    w.(regs := w.regs[r := reg])
  }

  /** Invocations of `ls` with event `ev`, in order. */
  function Invocations(ls: seq<Obj>, ev: Event): (r: seq<Invocation>)
    ensures |r| == |ls|
  {
    if ls == [] then [] else [Invocation(ls[0], ev)] + Invocations(ls[1..], ev)
  }
}
