/**
 * `emitter/_types.py`: the listener option flags, the handle-mode flags
 * `emit` returns, the shapes of scopes and listener buckets, and the
 * `Listeners` container with its two auto-vivifying maps.
 */
module Types {
  import opened Wrappers
  import opened Python
  import opened Dict

  /** `ListenerOpts`, an `enum.Flag`: `NOP = 0`, `ONCE = auto()` (the first
      `auto()` value of a Flag is 1). `@unique` rules out aliases. */
  type ListenerOpts = bv8
  const NOP: ListenerOpts := 0
  const ONCE: ListenerOpts := 1

  /** `opts & ListenerOpts.ONCE` taken as a truth value. */
  predicate IsOnce(opts: ListenerOpts) {
    opts & ONCE != 0
  }

  /** `bool(opts)`: a Flag is falsy exactly when its value is 0. */
  predicate Truthy(opts: ListenerOpts) {
    opts != 0
  }

  /** The options `on` builds: start from `NOP`, OR in `ONCE` when asked. */
  function BuildOpts(once: bool): (opts: ListenerOpts)
    ensures IsOnce(opts) <==> once
    ensures Truthy(opts) <==> once
    ensures opts == NOP || opts == ONCE
  {
    var opts := NOP;
    if once then opts | ONCE else opts
  }

  /** `HandleMode`, the flags `emit` returns: which registries handled the
      event. `NONE = 0` means none did. */
  type HandleMode = bv8
  const NONE: HandleMode := 0
  const GLOBAL: HandleMode := 1
  const NAMESPACE: HandleMode := 2

  /** A scope: the tuple of strings listeners are registered under. `()` is
      the empty scope. */
  type Scope = seq<string>
  const EmptyScope: Scope := []

  /** The insertion-ordered map listener -> options of one scope of one
      event type. */
  type Bucket = seq<(Obj, ListenerOpts)>

  /** The listeners of a bucket, in insertion order. */
  function ListenersOf(b: Bucket): seq<Obj> {
    Keys(b)
  }

  /** `Listeners`: two `defaultdict(BestDict)` maps, one keyed by scope and
      one keyed by event type. */
  class Listeners {
    var scope: seq<(Scope, Bucket)>
    var types: seq<(Class, Bucket)>

    /** Both maps start empty. */
    constructor ()
      ensures scope == [] && types == []
    {
      scope := [];
      types := [];
    }

    /** `self.scope[key]`: a missing key reads as a new empty bucket, which
        is stored. */
    method ScopeBucket(key: Scope) returns (b: Bucket)
      modifies this`scope
      ensures b == Find(old(scope), key).GetOr([])
      ensures scope == Vivify(old(scope), key, [])
      ensures HasKey(scope, key)
    {
      var found := Find(scope, key);
      if found.None? {
        scope := scope + [(key, [])];
        assert Keys(scope) == Keys(old(scope)) + [key];
      }
      b := found.GetOr([]);
    }

    /** `self.types[key]`: a missing key reads as a new empty bucket, which
        is stored. */
    method TypeBucket(key: Class) returns (b: Bucket)
      modifies this`types
      ensures b == Find(old(types), key).GetOr([])
      ensures types == Vivify(old(types), key, [])
      ensures HasKey(types, key)
    {
      var found := Find(types, key);
      if found.None? {
        types := types + [(key, [])];
        assert Keys(types) == Keys(old(types)) + [key];
      }
      b := found.GetOr([]);
    }
  }
}
