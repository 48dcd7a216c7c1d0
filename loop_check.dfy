/**
 * `emitter/_helpers/_loop.py` (and the identical `retrieve_loop_from_listener`
 * of `emitter/_helpers/loop.py`): classifies a listener's `__loop__`
 * attribute when the listener is about to run. Whether a loop is running is
 * the `running` set.
 */
module LoopCheck {
  import opened Wrappers
  import opened Python
  import opened State

  /** `retrieve_loop_from_listener(listener)`. */
  function CheckLoop(attr: LoopAttr, running: set<Loop>): (r: Result<Option<Loop>, Error>)
    ensures r == Success(None) <==> attr.Absent? || attr.NoneValue?
    ensures r.Success? && r.value.Some? <==> attr.LoopValue? && attr.loop in running
    ensures r.Success? && r.value.Some? ==> r.value.value == attr.loop
    ensures r == Failure(ListenerStoppedEventLoopError) <==> attr.LoopValue? && attr.loop !in running
    ensures r == Failure(ValueError) <==> attr.WeakRef? || attr.OtherValue?
  {
    match attr
    case LoopValue(l) => if l in running then Success(Some(l)) else Failure(ListenerStoppedEventLoopError)
    case Absent => Success(None)
    case NoneValue => Success(None)
    case _ => Failure(ValueError)
  }
}
