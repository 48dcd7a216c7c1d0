/**
 * `emitter/_on.py` as a procedure on the `Store`: the checks are those of
 * `Registration.On`, and the registration is the in-place assignment
 * `listeners[event_type][scope][listener] = opts` on the selected registry.
 */
module RegistrationRun {
  import opened Wrappers
  import opened Python
  import opened Types
  import opened Mapping
  import opened ScopeParsing
  import opened State
  import Registration

  /** `on(event_type, listener, once=, loop=, scope=, namespace=)`; `running`
      is the loop `get_running_loop()` would return. */
  method On(s: Store, f: Facts, args: Registration.OnArgs, listener: Option<Obj>, running: Option<Loop>)
    returns (res: Result<Registration.OnReturn, Error>)
    requires Valid(s.world) && ValidNs(s.world, args.ns)
    modifies s
    ensures (s.world, res) == Registration.On(f, old(s.world), args, listener, running)
  {
    var checked := Registration.CheckType(f.h, args.eventType);
    if checked.Failure? {
      return Failure(checked.error);
    }
    if listener.None? {
      return Success(Registration.Decorator(args));
    }
    var l := listener.value;
    var opts := BuildOpts(args.once);
    var prepared := Registration.Prepare(f, s.world, args, l, running);
    s.world := prepared.0;
    if prepared.1.Failure? {
      return Failure(prepared.1.error);
    }
    var r := prepared.1.value;
    s.world := WithReg(s.world, r, Insert(s.world.regs[r], checked.value, ScopeTuple(args.scope), l, opts));
    res := Success(Registration.Registered(l));
  }
}
