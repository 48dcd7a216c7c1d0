/**
 * `emitter/_helpers/_namespace.py`: an older resolution of a namespace's
 * registry that keeps registries in a module-level side table keyed by the
 * namespace, instead of attaching them to it. An explicit `__listeners__`
 * attribute holding a registry still wins; any other attribute value is
 * ignored. A loop-bound wrapper resolves through the listener it wraps.
 */
module NamespaceTable {
  import opened Wrappers
  import opened Python
  import State

  /** The `namespace` argument: `None`, a registry, a `BoundLoopListenerWrapper`
      around a listener, or any other object. */
  datatype Namespace = NoneNs | RegistryNs(reg: State.RegId) | WrapperNs(listener: Obj) | ObjectNs(obj: Obj)

  /** The object whose registry a namespace denotes, once a wrapper is
      unwrapped. */
  function Owner(ns: Namespace): (o: Obj)
    requires ns.WrapperNs? || ns.ObjectNs?
    ensures ns.WrapperNs? ==> o == ns.listener
    ensures ns.ObjectNs? ==> o == ns.obj
  {
    if ns.WrapperNs? then ns.listener else ns.obj
  }

  /** The side table `_GLOBAL_LISTENERS`, with the next fresh registry id.
      Its keys are held weakly: an object that cannot be weakly referenced
      is never a key, and storing one is a TypeError. Entries are never
      dropped, since garbage collection is not modelled. */
  class SideTable {
    var table: map<Obj, State.RegId>
    var next: State.RegId

    /** Every registry in the table was handed out before `next`. */
    ghost predicate Valid()
      reads this
    {
      forall o :: o in table ==> table[o] < next
    }

    constructor (first: State.RegId)
      ensures Valid()
      ensures table == map[] && next == first
    {
      table := map[];
      next := first;
    }

    /** `retrieve_listeners_from_namespace(namespace)`, given the
        `__listeners__` attributes of the objects and the objects that
        cannot be weakly referenced (numbers, strings, lists and the like). */
    method Resolve(ns: Namespace, attrs: map<Obj, State.ListenersAttr>, unweakrefable: set<Obj>)
      returns (r: Result<State.RegId, Error>)
      requires Valid()
      modifies this
      ensures Valid()
      ensures ns.NoneNs? ==> r == Failure(ValueError) && table == old(table) && next == old(next)
      ensures ns.RegistryNs? ==> r == Success(ns.reg) && table == old(table) && next == old(next)
      ensures ns.WrapperNs? || ns.ObjectNs? ==>
        var o := Owner(ns);
        if o in attrs && attrs[o].Holds? then
          r == Success(attrs[o].reg) && table == old(table) && next == old(next)
        else if o in unweakrefable then
          r == Failure(TypeError) && table == old(table) && next == old(next)
        else if o in old(table) then
          r == Success(old(table)[o]) && table == old(table) && next == old(next)
        else
          r == Success(old(next)) && table == old(table)[o := old(next)] && next == old(next) + 1
    {
      if ns.NoneNs? {
        return Failure(ValueError);
      } else if ns.RegistryNs? {
        return Success(ns.reg);
      }
      var o := Owner(ns);
      if o in attrs && attrs[o].Holds? {
        return Success(attrs[o].reg);
      }
      if o in unweakrefable {
        // the membership test answers False, and the store raises
        return Failure(TypeError);
      }
      if o in table {
        return Success(table[o]);
      }
      table := table[o := next];
      r := Success(next);
      next := next + 1;
    }
  }

  /** Repeated resolution of the same object returns the same registry when
      no attribute is attached: the first call stores it, the second finds
      it; an incompatible attribute is ignored, never a TypeError. */
  method ResolveTwice(t: SideTable, o: Obj, attrs: map<Obj, State.ListenersAttr>, unweakrefable: set<Obj>)
      returns (first: Result<State.RegId, Error>, second: Result<State.RegId, Error>)
    requires t.Valid()
    requires o !in attrs || !attrs[o].Holds?
    requires o !in unweakrefable
    modifies t
    ensures first.Success? && second == first
    ensures o in t.table && t.table[o] == first.value
  {
    first := t.Resolve(ObjectNs(o), attrs, unweakrefable);
    second := t.Resolve(WrapperNs(o), attrs, unweakrefable);
  }

  /** An object that cannot be weakly referenced and has no attached
      registry is a TypeError on every resolution, and the table stays as
      it was. */
  method ResolveUnweakrefable(t: SideTable, o: Obj, attrs: map<Obj, State.ListenersAttr>, unweakrefable: set<Obj>)
      returns (first: Result<State.RegId, Error>, second: Result<State.RegId, Error>)
    requires t.Valid()
    requires o !in attrs || !attrs[o].Holds?
    requires o in unweakrefable
    modifies t
    ensures first == Failure(TypeError) && second == Failure(TypeError)
    ensures t.table == old(t.table) && t.next == old(t.next)
  {
    first := t.Resolve(ObjectNs(o), attrs, unweakrefable);
    second := t.Resolve(ObjectNs(o), attrs, unweakrefable);
  }
}
