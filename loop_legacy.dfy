/**
 * `emitter/_helpers/loop.py`: an older loop binding that stores the loop
 * itself in `__loop__` and, when it cannot, hands back a wrapper object
 * that carries the loop and forwards calls to the listener.
 */
module LoopLegacy {
  import opened Wrappers
  import opened Python
  import opened State
  import opened LoopCheck

  /** The callable `bound_loop_to_listener` returns: the listener itself, or
      a `BoundLoopListenerWrapper(loop, listener)`. */
  datatype Callback = Plain(listener: Obj) | Wrapped(loop: Loop, listener: Obj)

  /** The listener a call of the callback reaches: the wrapper forwards its
      argument to the listener it wraps and returns its result. */
  function Target(cb: Callback): (l: Obj)
    ensures l == cb.listener
  {
    match cb
    case Plain(l) => l
    case Wrapped(_, l) => l
  }

  /** The `__loop__` attribute of the callback, given the listener's. */
  function CallbackLoop(cb: Callback, listenerAttr: LoopAttr): LoopAttr {
    if cb.Wrapped? then LoopValue(cb.loop) else listenerAttr
  }

  /** `bound_loop_to_listener(listener, loop)`: the listener's `__loop__`
      attribute afterwards, and the callable returned or the error raised.
      `writable` says whether the listener accepts a new attribute. */
  function BindLoopToListener(attr: LoopAttr, writable: bool, l: Obj, loop: Loop): (res: (LoopAttr, Result<Callback, Error>))
    ensures res.0 != attr ==> attr.Absent? && writable && res.0 == LoopValue(loop)
    ensures res.1.Success? ==> Target(res.1.value) == l
    ensures res.1 == Failure(ValueError) <==> attr.LoopValue? && attr.loop != loop
    ensures res.1.Success? ==> CallbackLoop(res.1.value, res.0) == LoopValue(loop)
  {
    match attr
    case LoopValue(bound) =>
      if bound != loop then (attr, Failure(ValueError)) else (attr, Success(Plain(l)))
    case Absent =>
      if writable then (LoopValue(loop), Success(Plain(l))) else (attr, Success(Wrapped(loop, l)))
    case _ => (attr, Success(Wrapped(loop, l)))
  }

  /** A writable listener without the attribute gets it and is returned
      itself; an unwritable one, or one whose attribute is not a loop, is
      wrapped and keeps its attribute. */
  lemma BindShapes(attr: LoopAttr, writable: bool, l: Obj, loop: Loop)
    ensures attr.Absent? && writable ==> BindLoopToListener(attr, writable, l, loop) == (LoopValue(loop), Success(Plain(l)))
    ensures (attr.Absent? && !writable) || attr.NoneValue? || attr.WeakRef? || attr.OtherValue? ==>
      BindLoopToListener(attr, writable, l, loop) == (attr, Success(Wrapped(loop, l)))
  {
  }

  /** Binding is idempotent: binding the loop again returns the listener
      itself and changes nothing. */
  lemma BindIdempotent(attr: LoopAttr, writable: bool, l: Obj, loop: Loop)
    requires BindLoopToListener(attr, writable, l, loop).1 == Success(Plain(l))
    ensures var a1 := BindLoopToListener(attr, writable, l, loop).0;
      BindLoopToListener(a1, writable, l, loop) == (a1, Success(Plain(l)))
  {
  }

  /** Whatever `bound_loop_to_listener` returns carries the loop, so the
      check before running it yields that loop while it runs and
      ListenerStoppedEventLoopError once it stopped. */
  lemma BindThenCheck(attr: LoopAttr, writable: bool, l: Obj, loop: Loop, running: set<Loop>)
    requires BindLoopToListener(attr, writable, l, loop).1.Success?
    ensures var (a1, cb) := BindLoopToListener(attr, writable, l, loop);
      CheckLoop(CallbackLoop(cb.value, a1), running) ==
        if loop in running then Success(Some(loop)) else Failure(ListenerStoppedEventLoopError)
  {
  }
}
