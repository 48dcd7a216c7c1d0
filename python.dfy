/**
 * The host-language entities the emitter works over: classes and their
 * method resolution order, event instances, opaque objects (listeners and
 * namespaces), event loops, the exceptions the emitter raises, and
 * `str.split(".")`.
 */
module Python {
  import Seqs

  /** A class. The builtins the emitter tests for are named; every other
      class (including the emitter's own error classes) is `Named`. */
  datatype Class = Object | TypeClass | BaseException | Exception | Named(name: string)

  /** The class hierarchy: `cls.mro()` for every class the caller knows about. */
  datatype Hierarchy = Hierarchy(mro: map<Class, seq<Class>>)

  /** `cls.mro()`: the class itself first, `object` last. A class the
      hierarchy does not list derives directly from `object`. */
  function Mro(h: Hierarchy, c: Class): (r: seq<Class>)
    ensures |r| >= 1
  {
    if c in h.mro && |h.mro[c]| >= 1 then h.mro[c]
    else if c == Object then [Object]
    else [c, Object]
  }

  /** A hierarchy as Python builds it: each MRO starts with its class, ends
      with `object` and names no class twice. */
  ghost predicate WellFormed(h: Hierarchy) {
    forall c :: c in h.mro ==>
      && |h.mro[c]| >= 1
      && h.mro[c][0] == c
      && h.mro[c][|h.mro[c]| - 1] == Object
      && forall i, j :: 0 <= i < j < |h.mro[c]| ==> h.mro[c][i] != h.mro[c][j]
  }

  /** `issubclass(c, base)`. */
  predicate IsSubclass(h: Hierarchy, c: Class, base: Class) {
    base in Mro(h, c)
  }

  /** An `Exception` subclass: the recoverable error category. */
  predicate IsException(h: Hierarchy, c: Class) {
    IsSubclass(h, c, Exception)
  }

  /** A `BaseException` subclass that is not an `Exception` (KeyboardInterrupt,
      SystemExit, ...): never dispatched. */
  predicate IsBareBaseException(h: Hierarchy, c: Class) {
    IsSubclass(h, c, BaseException) && !IsSubclass(h, c, Exception)
  }

  /** A metaclass: `issubclass(c, type)`. */
  predicate IsMetaclass(h: Hierarchy, c: Class) {
    IsSubclass(h, c, TypeClass)
  }

  /** An event instance: its class and its identity. */
  datatype Event = Event(cls: Class, id: nat)

  /** Any other Python object: a listener, a namespace, a wrapper. */
  datatype Obj = Obj(id: nat)

  /** An asyncio event loop, by identity. */
  datatype Loop = Loop(id: nat)

  /** What an operation raises. `Raise(e)` raises an event instance (or an
      exception a listener raised); the others are the builtin and emitter
      exceptions named after them. */
  datatype Error =
    | ValueError
    | TypeError
    | KeyError
    | AttributeError
    | AssertionError
    | RuntimeError
    | RecursionError
    | ListenerMissingEventLoopError
    | ListenerStoppedEventLoopError
    | CancelledError
    | Raise(event: Event)

  /** Whether `except Exception` lets the error through: cancellation and
      bare `BaseException` instances propagate, everything else is caught. */
  predicate Propagates(h: Hierarchy, e: Error) {
    e == CancelledError || (e.Raise? && !IsException(h, e.event.cls))
  }

  /** `s.split(".")`: the pieces between dots, empty pieces included. */
  function Split(s: string): (r: seq<string>)
    ensures |r| >= 1
    ensures forall i :: 0 <= i < |r| ==> '.' !in r[i]
  {
    if s == [] then [[]]
    else if s[0] == '.' then [[]] + Split(s[1..])
    else
      var rest := Split(s[1..]);
      [[s[0]] + rest[0]] + rest[1..]
  }

  /** `".".join(pieces)`. */
  function Join(pieces: seq<string>): string {
    if pieces == [] then []
    else if |pieces| == 1 then pieces[0]
    else pieces[0] + "." + Join(pieces[1..])
  }

  /** Splitting and joining are inverse: joining the pieces gives back the text. */
  lemma {:induction false} JoinSplit(s: string)
    ensures Join(Split(s)) == s
  {
    if s == [] {
    } else if s[0] == '.' {
      JoinSplit(s[1..]);
      assert Split(s) == [[]] + Split(s[1..]);
      assert s == [] + "." + s[1..];
    } else {
      JoinSplit(s[1..]);
      var rest := Split(s[1..]);
      if |rest| == 1 {
        assert Split(s) == [[s[0]] + rest[0]];
      } else {
        assert Split(s)[1..] == rest[1..];
        assert Join(Split(s)) == [s[0]] + rest[0] + "." + Join(rest[1..]);
        assert Join(rest) == rest[0] + "." + Join(rest[1..]);
      }
    }
  }

  /** ... and splitting a join of dot-free pieces gives back the pieces. */
  lemma {:induction false} SplitJoin(pieces: seq<string>)
    requires |pieces| >= 1
    requires forall i :: 0 <= i < |pieces| ==> '.' !in pieces[i]
    ensures Split(Join(pieces)) == pieces
  {
    if |pieces| == 1 {
      SplitNoDot(pieces[0]);
    } else {
      SplitJoin(pieces[1..]);
      SplitDot(pieces[0], Join(pieces[1..]));
      SplitNoDot(pieces[0]);
      assert [pieces[0]] + pieces[1..] == pieces;
    }
  }

  /** A dot-free text splits into itself. */
  lemma {:induction false} SplitNoDot(s: string)
    requires '.' !in s
    ensures Split(s) == [s]
  {
    if s != [] {
      SplitNoDot(s[1..]);
      assert [s[0]] + s[1..] == s;
    }
  }

  /** One step of `Split` on a non-empty text. */
  lemma SplitUnfold(s: string)
    requires s != []
    ensures Split(s) ==
      if s[0] == '.' then [[]] + Split(s[1..]) else [[s[0]] + Split(s[1..])[0]] + Split(s[1..])[1..]
  {
  }

  /** A dot between two texts separates their pieces. */
  lemma {:induction false} SplitDot(a: string, b: string)
    ensures Split(a + "." + b) == Split(a) + Split(b)
  {
    var s := a + "." + b;
    if a == [] {
      assert s[0] == '.' && s[1..] == b;
      SplitUnfold(s);
      assert Split(a) == [[]];
    } else {
      SplitDot(a[1..], b);
      var tail := Split(a[1..]);
      assert s[0] == a[0] && s[1..] == a[1..] + "." + b;
      SplitUnfold(s);
      SplitUnfold(a);
      if a[0] == '.' {
        Seqs.ConcatAssoc([[]], tail, Split(b));
      } else {
        Seqs.HeadAppend(tail, Split(b));
        Seqs.ConcatAssoc([[a[0]] + tail[0]], tail[1..], Split(b));
      }
    }
  }
}
