/**
 * `emitter/_helpers/retrieve_listeners_from_namespace.py`: finds the
 * registry of a namespace object through its `__listeners__` attribute,
 * attaching a new empty registry on first use. This is the resolution
 * `on`, `emit`, `remove` and `retrieve` perform when given a namespace.
 */
module Namespaces {
  import opened Wrappers
  import opened Python
  import opened Mapping
  import opened State

  /** `retrieve_listeners_from_namespace(namespace)`: the world after the
      call and the registry found or the error raised. */
  function Resolve(f: Facts, w: World, ns: NsArg): (res: (World, Result<RegId, Error>))
    requires Valid(w) && ValidNs(w, ns)
    ensures Valid(res.0)
    ensures res.1.Success? ==> res.1.value in res.0.regs
    ensures w.regs.Keys <= res.0.regs.Keys
    ensures forall r :: r in w.regs ==> res.0.regs[r] == w.regs[r]
    ensures res.0.loops == w.loops && res.0.calls == w.calls && res.0.reported == w.reported
  {
    match ns
    case NoNamespace => (w, Failure(ValueError))
    case RegistryNs(r) => (w, Success(r))
    case ObjectNs(o) =>
      match ListenersAttrOf(w, o)
      case Holds(r) => (w, Success(r))
      case Incompatible => (w, Failure(TypeError))
      case NoListeners =>
        if o in f.unwritable then (w, Failure(TypeError))
        else
          var r := w.nextReg;
          (w.(regs := w.regs[r := NewListenerMapping()], nextReg := r + 1, attrs := w.attrs[o := Holds(r)]),
           Success(r))
  }

  /** A `None` namespace is a ValueError; a registry is returned as it is;
      a registry already attached is returned and nothing changes. */
  lemma ResolveExisting(f: Facts, w: World, ns: NsArg)
    requires Valid(w) && ValidNs(w, ns)
    ensures ns.NoNamespace? ==> Resolve(f, w, ns) == (w, Failure(ValueError))
    ensures ns.RegistryNs? ==> Resolve(f, w, ns) == (w, Success(ns.reg))
    ensures ns.ObjectNs? && ListenersAttrOf(w, ns.obj).Holds? ==>
      Resolve(f, w, ns) == (w, Success(ListenersAttrOf(w, ns.obj).reg))
  {
  }

  /** An incompatible attribute, or an object that refuses the attribute, is
      a TypeError and nothing is attached. */
  lemma ResolveTypeError(f: Facts, w: World, o: Obj)
    requires Valid(w)
    ensures ListenersAttrOf(w, o).Incompatible? ==> Resolve(f, w, ObjectNs(o)) == (w, Failure(TypeError))
    ensures ListenersAttrOf(w, o).NoListeners? && o in f.unwritable ==>
      Resolve(f, w, ObjectNs(o)) == (w, Failure(TypeError))
  {
  }

  /** Without an attribute, a new empty registry distinct from every existing
      one is attached, and a second call returns that same registry with no
      further change. */
  lemma ResolveCreates(f: Facts, w: World, o: Obj)
    requires Valid(w)
    requires ListenersAttrOf(w, o).NoListeners? && o !in f.unwritable
    ensures var (w1, r1) := Resolve(f, w, ObjectNs(o));
      && r1.Success?
      && r1.value !in w.regs
      && w1.regs == w.regs[r1.value := map[]]
      && ListenersAttrOf(w1, o) == Holds(r1.value)
      && Resolve(f, w1, ObjectNs(o)) == (w1, r1)
  {
  }
}
