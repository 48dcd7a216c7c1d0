/**
 * `emitter/_helpers/retrieve_loop_from_listener.py`: the sticky binding of
 * a listener to an event loop through a weak reference stored in its
 * `__loop__` attribute. `on` uses it to bind and to detect a listener bound
 * to another loop. Garbage collection of a loop is the `collected` fact.
 */
module LoopBinding {
  import opened Wrappers
  import opened Python
  import opened State

  /** `retrieve_loop_from_listener(listener, loop)`: the world after the call
      and the listener's loop, or the error raised. */
  function RetrieveLoop(f: Facts, w: World, l: Obj, loop: Option<Loop>): (res: (World, Result<Option<Loop>, Error>))
    ensures res.0.regs == w.regs && res.0.nextReg == w.nextReg && res.0.attrs == w.attrs
    ensures res.0.calls == w.calls && res.0.reported == w.reported
    ensures forall o :: o != l ==> LoopAttrOf(res.0, o) == LoopAttrOf(w, o)
    ensures LoopAttrOf(res.0, l) != LoopAttrOf(w, l) ==>
      (LoopAttrOf(w, l).Absent? || LoopAttrOf(w, l).NoneValue?) && loop.Some? &&
      LoopAttrOf(res.0, l) == WeakRef(loop.value) && res.1 == Success(loop)
  {
    match LoopAttrOf(w, l)
    case WeakRef(t) =>
      if t in f.collected then (w, Failure(ListenerMissingEventLoopError)) else (w, Success(Some(t)))
    case Absent =>
      BindOrNone(f, w, l, loop)
    case NoneValue =>
      BindOrNone(f, w, l, loop)
    case LoopValue(bound) => (w, Success(Some(bound)))
    case OtherValue => (w, Failure(ValueError))
  }

  /** The branch for an unset attribute: bind the given loop, if any. */
  function BindOrNone(f: Facts, w: World, l: Obj, loop: Option<Loop>): (res: (World, Result<Option<Loop>, Error>))
    ensures loop.None? ==> res == (w, Success(None))
    ensures loop.Some? && l in f.unwritable ==> res == (w, Failure(AttributeError))
  {
    if loop.None? then (w, Success(None))
    else if l in f.unwritable then (w, Failure(AttributeError))
    else (w.(loops := w.loops[l := WeakRef(loop.value)]), Success(loop))
  }

  /** An unbound writable listener given a loop is bound to it, the loop is
      returned, and every later call returns that loop whatever loop it is
      given, until the loop is collected. */
  lemma BindSticks(f: Facts, w: World, l: Obj, loop: Loop, other: Option<Loop>)
    requires LoopAttrOf(w, l).Absent? || LoopAttrOf(w, l).NoneValue?
    requires l !in f.unwritable
    ensures var (w1, r1) := RetrieveLoop(f, w, l, Some(loop));
      && r1 == Success(Some(loop))
      && LoopAttrOf(w1, l) == WeakRef(loop)
      && (loop !in f.collected ==> RetrieveLoop(f, w1, l, other) == (w1, Success(Some(loop))))
      && (loop in f.collected ==> RetrieveLoop(f, w1, l, other) == (w1, Failure(ListenerMissingEventLoopError)))
  {
  }

  /** An unbound listener with no loop given: None, nothing stored. An
      unwritable one that needs binding: AttributeError, nothing stored. */
  lemma UnboundCases(f: Facts, w: World, l: Obj, loop: Option<Loop>)
    requires LoopAttrOf(w, l).Absent? || LoopAttrOf(w, l).NoneValue?
    ensures loop.None? ==> RetrieveLoop(f, w, l, loop) == (w, Success(None))
    ensures loop.Some? && l in f.unwritable ==> RetrieveLoop(f, w, l, loop) == (w, Failure(AttributeError))
  {
  }

  /** A listener bound to a live loop yields that loop whatever loop is
      requested, and nothing changes; so a different requested loop comes
      back as the bound one, which is how `on` detects the conflict. */
  lemma BoundIgnoresArgument(f: Facts, w: World, l: Obj, loop: Option<Loop>)
    requires LoopAttrOf(w, l).WeakRef? && LoopAttrOf(w, l).target !in f.collected
    ensures RetrieveLoop(f, w, l, loop) == (w, Success(Some(LoopAttrOf(w, l).target)))
    ensures loop != Some(LoopAttrOf(w, l).target) ==> RetrieveLoop(f, w, l, loop).1 != Success(loop)
  {
  }

  /** A value that is neither unset, a loop nor a weak reference is a
      ValueError. */
  lemma OtherValueRejected(f: Facts, w: World, l: Obj, loop: Option<Loop>)
    requires LoopAttrOf(w, l).OtherValue?
    ensures RetrieveLoop(f, w, l, loop) == (w, Failure(ValueError))
  {
  }
}
