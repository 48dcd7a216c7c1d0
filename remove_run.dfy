/**
 * `emitter/_remove.py` as the loop it is written with, updating the
 * registries of a `Store` in place. The loop runs over a copy of the
 * filtered (scope, bucket) pairs, the evidently intended iteration (see
 * `Removal`), and is proved to leave the registry and return the flag that
 * `Removal.Remove` gives.
 */
module RemovalRun {
  import opened Wrappers
  import opened Python
  import opened Dict
  import opened Types
  import opened Mapping
  import opened LimitScope
  import opened State
  import opened Namespaces
  import Removal

  /** `remove(event_type, listener, scope=, namespace=)`. */
  method Remove(s: Store, f: Facts, t: Option<Class>, listener: Option<Obj>, scope: Option<string>, ns: NsArg)
    returns (res: Result<bool, Error>)
    requires Valid(s.world) && ValidNs(s.world, ns)
    modifies s
    ensures (s.world, res) == Removal.Remove(f, old(s.world), t, listener, scope, ns)
  {
    ghost var start := s.world;
    var r := GlobalReg;
    if !ns.NoNamespace? {
      var resolved;
      s.world, resolved := Resolve(f, s.world, ns).0, Resolve(f, s.world, ns).1;
      if resolved.Failure? {
        return Failure(resolved.error);
      }
      r := resolved.value;
    }
    ghost var selected := s.world;
    RemoveSelects(f, start, t, listener, scope, ns, selected, r);
    res := RemoveIn(s, r, t, listener, scope);
  }

  /** The body of `remove` once the registry `r` is selected. */
  method RemoveIn(s: Store, r: RegId, t: Option<Class>, listener: Option<Obj>, scope: Option<string>)
    returns (res: Result<bool, Error>)
    requires Valid(s.world) && r in s.world.regs
    modifies s
    ensures s.world == WithReg(old(s.world), r, Removal.RemoveIn(old(s.world).regs[r], t, listener, scope).0)
    ensures res == Removal.RemoveIn(old(s.world).regs[r], t, listener, scope).1
  {
    var reg := s.world.regs[r];
    if reg == map[] {
      s.world := WithReg(s.world, r, reg);
      return Success(true);
    }
    if t.None? {
      if listener.None? && scope.None? {
        s.world := WithReg(s.world, r, map[]);
        return Success(true);
      }
      s.world := WithReg(s.world, r, reg);
      return Failure(ValueError);
    }
    var c := t.value;
    if listener.None? && scope.None? {
      if c !in reg {
        s.world := WithReg(s.world, r, reg);
        return Failure(KeyError);
      }
      s.world := WithReg(s.world, r, reg - {c});
      return Success(true);
    }
    reg := VivifyType(reg, c);
    var todo := Limit(scope, reg[c]);
    ghost var goal := Removal.Sweep(reg[c], todo, listener, false);
    var live := reg[c];
    var removal := false;
    var k := 0;
    while k < |todo|
      invariant k <= |todo| && s.world == old(s.world)
      invariant Removal.Sweep(live, todo[k..], listener, removal) == goal
    {
      var key := todo[k].0;
      var live', removal' := live, removal;
      if listener.Some? {
        var bucket := Find(live, key).GetOr([]);
        removal' := Removal.PopTruthy(bucket, listener.value) || removal;
        bucket := Del(bucket, listener.value);
        if bucket != [] {
          live' := Put(live, key, bucket);
        } else {
          live' := Del(live, key);
        }
      } else {
        live' := Del(live, key);
      }
      SweepStep(live, todo, k, listener, removal, goal, live', removal');
      live, removal, k := live', removal', k + 1;
    }
    assert todo[k..] == [];
    if live != [] {
      s.world := WithReg(s.world, r, reg[c := live]);
    } else {
      s.world := WithReg(s.world, r, reg - {c});
    }
    res := Success(removal);
  }

  /** One pass of the loop body is one `Removal.Step`. */
  lemma SweepStep(live: ScopeMap, todo: seq<(Scope, Bucket)>, k: nat, listener: Option<Obj>, removal: bool,
                  goal: (ScopeMap, bool), live': ScopeMap, removal': bool)
    requires k < |todo|
    requires Removal.Sweep(live, todo[k..], listener, removal) == goal
    requires var step := Removal.Step(live, todo[k].0, listener, removal); live' == step.0 && removal' == step.2
    ensures Removal.Sweep(live', todo[k + 1..], listener, removal') == goal
  {
    assert todo[k..][1..] == todo[k + 1..];
  }

  /** `Removal.Remove` is `Removal.RemoveIn` on the selected registry. */
  lemma RemoveSelects(f: Facts, w: World, t: Option<Class>, listener: Option<Obj>, scope: Option<string>,
                      ns: NsArg, w1: World, r: RegId)
    requires Valid(w) && ValidNs(w, ns)
    requires ns.NoNamespace? ==> w1 == w && r == GlobalReg
    requires !ns.NoNamespace? ==> Resolve(f, w, ns) == (w1, Success(r))
    ensures r in w1.regs
    ensures Removal.Remove(f, w, t, listener, scope, ns) ==
      (WithReg(w1, r, Removal.RemoveIn(w1.regs[r], t, listener, scope).0), Removal.RemoveIn(w1.regs[r], t, listener, scope).1)
  {
  }
}
