/**
 * The dispatch rules of `emitter/_emit.py` when every listener completes:
 * which listeners run, in which order, and what is left in the registry.
 * Supertype empty-scope buckets run first in reversed MRO order, then the
 * event type's buckets for each prefix of the scope, shortest first, each
 * in insertion order; every fire-once entry of a bucket that ran is gone
 * afterwards, and no other bucket changes.
 */
module EmissionOrder {
  import opened Wrappers
  import opened Python
  import opened Dict
  import opened Types
  import opened Seqs
  import opened Mapping
  import opened State
  import opened Emission

  /** Every invocation from the `from`-th on completes. */
  predicate AllComplete(oracle: seq<Outcome>, from: nat) {
    forall k :: from <= k < |oracle| ==> oracle[k] == Completed
  }

  /** The entries that are not fire-once, in order. */
  function KeepPersistent(b: Bucket): (r: Bucket)
    ensures |r| <= |b|
  {
    if b == [] then []
    else (if IsOnce(b[0].1) then [] else [b[0]]) + KeepPersistent(b[1..])
  }

  lemma {:induction false} KeepPersistentAppend(a: Bucket, b: Bucket)
    ensures KeepPersistent(a + b) == KeepPersistent(a) + KeepPersistent(b)
  {
    if a == [] {
      assert a + b == b;
    } else {
      Seqs.HeadAppend(a, b);
      KeepPersistentAppend(a[1..], b);
      Seqs.ConcatAssoc(if IsOnce(a[0].1) then [] else [a[0]], KeepPersistent(a[1..]), KeepPersistent(b));
    }
  }

  lemma KeysIn(b: Bucket, k: Obj)
    ensures HasKey(b, k) <==> exists e :: e in b && e.0 == k
  {
    if HasKey(b, k) {
      var i :| 0 <= i < |Keys(b)| && Keys(b)[i] == k;
      assert b[i] in b;
    }
  }

  /** A key of a duplicate-free snapshot occurs nowhere else in it, nor in
      what is kept of the entries before it. */
  lemma KeyOnlyAt(snap: Bucket, i: nat)
    requires UniqueKeys(snap) && i < |snap|
    ensures !HasKey(KeepPersistent(snap[..i]), snap[i].0)
    ensures !HasKey(snap[i + 1..], snap[i].0)
  {
    var k := snap[i].0;
    var kept := KeepPersistent(snap[..i]);
    if HasKey(kept, k) {
      var j :| 0 <= j < |kept| && Keys(kept)[j] == k;
      KeepPersistentFrom(snap[..i], j);
      assert false;
    }
  }

  /** Every kept entry is an entry of the bucket. */
  lemma {:induction false} KeepPersistentFrom(b: Bucket, j: nat)
    requires j < |KeepPersistent(b)|
    ensures exists m :: 0 <= m < |b| && b[m] == KeepPersistent(b)[j]
  {
    if IsOnce(b[0].1) {
      KeepPersistentFrom(b[1..], j);
      var m :| 0 <= m < |b[1..]| && b[1..][m] == KeepPersistent(b[1..])[j];
      assert b[m + 1] == KeepPersistent(b)[j];
    } else if j > 0 {
      KeepPersistentFrom(b[1..], j - 1);
      var m :| 0 <= m < |b[1..]| && b[1..][m] == KeepPersistent(b[1..])[j - 1];
      assert b[m + 1] == KeepPersistent(b)[j];
    }
  }

  /** Keeping the entries up to and including `i`. */
  lemma KeepOneMore(snap: Bucket, i: nat)
    requires i < |snap|
    ensures KeepPersistent(snap[..i + 1]) ==
      KeepPersistent(snap[..i]) + if IsOnce(snap[i].1) then [] else [snap[i]]
  {
    assert snap[..i + 1] == snap[..i] + [snap[i]];
    KeepPersistentAppend(snap[..i], [snap[i]]);
  }

  /** The live bucket holds entry `i`'s listener while entry `i` runs. */
  lemma LiveHasKey(snap: Bucket, i: nat)
    requires i < |snap|
    ensures HasKey(KeepPersistent(snap[..i]) + snap[i..], snap[i].0)
  {
    var live := KeepPersistent(snap[..i]) + snap[i..];
    var n := |KeepPersistent(snap[..i])|;
    assert live[n] == snap[i];
    assert Keys(live)[n] == snap[i].0;
  }

  /** Deleting a fire-once entry `i` from the live bucket. */
  lemma DeleteOnceStep(snap: Bucket, i: nat)
    requires UniqueKeys(snap) && i < |snap| && IsOnce(snap[i].1)
    ensures Del(KeepPersistent(snap[..i]) + snap[i..], snap[i].0) == KeepPersistent(snap[..i + 1]) + snap[i + 1..]
  {
    KeyOnlyAt(snap, i);
    KeepOneMore(snap, i);
    assert snap[i..] == [snap[i]] + snap[i + 1..];
    DeleteBetween(KeepPersistent(snap[..i]), snap[i], snap[i + 1..]);
  }

  /** Deleting the key of the one entry that holds it. */
  lemma DeleteBetween(kept: Bucket, e: (Obj, ListenerOpts), rest: Bucket)
    requires !HasKey(kept, e.0) && !HasKey(rest, e.0)
    ensures Del(kept + ([e] + rest), e.0) == kept + rest
  {
    calc {
      Del(kept + ([e] + rest), e.0);
      { DelAppend(kept, [e] + rest, e.0); }
      Del(kept, e.0) + Del([e] + rest, e.0);
      { DelAbsent(kept, e.0); assert ([e] + rest)[1..] == rest; }
      kept + Del(rest, e.0);
      { DelAbsent(rest, e.0); }
      kept + rest;
    }
  }

  /** A persistent entry `i` stays. */
  lemma KeepStep(snap: Bucket, i: nat)
    requires i < |snap| && !IsOnce(snap[i].1)
    ensures KeepPersistent(snap[..i]) + snap[i..] == KeepPersistent(snap[..i + 1]) + snap[i + 1..]
  {
    KeepOneMore(snap, i);
    assert snap[i..] == [snap[i]] + snap[i + 1..];
  }

  /** An entry whose listener completes: the fire-once deletion, then the
      logged invocation, and nothing else. */
  lemma ExecEntryCompleted(f: Facts, oracle: seq<Outcome>, w: World, r: RegId, t: Class, key: Scope,
                           entry: (Obj, ListenerOpts), ev: Event)
    requires Valid(w) && r in w.regs
    requires Next(oracle, |w.calls|) == Completed
    ensures var w1 := DropOnce(w, r, t, key, entry);
      ExecEntry(f, oracle, w, r, t, key, entry, ev) == (w1.(calls := w1.calls + [Invocation(entry.0, ev)]), Success(()))
  {
  }

  /** `w'` differs from `w` at most in the buckets of type `t` of registry
      `r` and in the invocation log. */
  ghost predicate OnlyTypeChanged(w: World, w': World, r: RegId, t: Class)
    requires r in w.regs && r in w'.regs
  {
    && w'.regs.Keys == w.regs.Keys
    && (forall r' :: r' in w.regs && r' != r ==> w'.regs[r'] == w.regs[r'])
    && (forall t' :: t' != t ==> ScopesOf(w'.regs[r], t') == ScopesOf(w.regs[r], t'))
    && w'.reported == w.reported
    && w'.nextReg == w.nextReg && w'.attrs == w.attrs && w'.loops == w.loops
  }

  /** Composition of two confined changes. */
  lemma OnlyTypeChangedTrans(w: World, w1: World, w2: World, r: RegId, t: Class)
    requires r in w.regs && r in w1.regs && r in w2.regs
    requires OnlyTypeChanged(w, w1, r, t) && OnlyTypeChanged(w1, w2, r, t)
    ensures OnlyTypeChanged(w, w2, r, t)
  {
  }

  /** The fire-once deletion of entry `i` keeps the live bucket in step with
      the snapshot and touches nothing else. */
  lemma DropOnceStep(w: World, r: RegId, t: Class, key: Scope, snap: Bucket, i: nat)
    requires r in w.regs && i < |snap| && UniqueKeys(snap)
    requires BucketOf(w.regs[r], t, key) == KeepPersistent(snap[..i]) + snap[i..]
    ensures var w1 := DropOnce(w, r, t, key, snap[i]);
      && OnlyTypeChanged(w, w1, r, t)
      && (forall s' :: s' != key ==> BucketOf(w1.regs[r], t, s') == BucketOf(w.regs[r], t, s'))
      && BucketOf(w1.regs[r], t, key) == KeepPersistent(snap[..i + 1]) + snap[i + 1..]
  {
    LiveHasKey(snap, i);
    if IsOnce(snap[i].1) {
      DeleteOnceStep(snap, i);
    } else {
      KeepStep(snap, i);
    }
  }

  /** The invocations of a snapshot suffix: its first entry, then the rest. */
  lemma InvocationsCons(snap: Bucket, i: nat, ev: Event)
    requires i < |snap|
    ensures Invocations(Keys(snap[i..]), ev) == [Invocation(snap[i].0, ev)] + Invocations(Keys(snap[i + 1..]), ev)
  {
    var ks := Keys(snap[i..]);
    assert ks[0] == snap[i].0;
    assert ks[1..] == Keys(snap[i + 1..]);
  }

  /** The inner loop after an entry that did not raise. */
  lemma ExecBucketUnfold(f: Facts, oracle: seq<Outcome>, w: World, r: RegId, t: Class,
                         key: Scope, snap: Bucket, i: nat, ev: Event)
    requires Valid(w) && r in w.regs && i < |snap|
    requires ExecEntry(f, oracle, w, r, t, key, snap[i], ev).1.Success?
    ensures var w1 := ExecEntry(f, oracle, w, r, t, key, snap[i], ev).0;
      r in w1.regs && ExecBucket(f, oracle, w, r, t, key, snap, i, ev) == ExecBucket(f, oracle, w1, r, t, key, snap, i + 1, ev)
  {
  }

  /** One bucket, every listener completing: each snapshot entry runs, in
      order, and the live bucket ends as the snapshot without its fire-once
      entries. */
  lemma {:induction false} ExecBucketComplete(f: Facts, oracle: seq<Outcome>, w: World, r: RegId, t: Class,
                                              key: Scope, snap: Bucket, i: nat, ev: Event)
    requires Valid(w) && r in w.regs && i <= |snap|
    requires AllComplete(oracle, |w.calls|)
    requires UniqueKeys(snap)
    requires BucketOf(w.regs[r], t, key) == KeepPersistent(snap[..i]) + snap[i..]
    ensures var (w', res) := ExecBucket(f, oracle, w, r, t, key, snap, i, ev);
      && res.Success?
      && w'.calls == w.calls + Invocations(Keys(snap[i..]), ev)
      && r in w'.regs
      && OnlyTypeChanged(w, w', r, t)
      && (forall s' :: s' != key ==> BucketOf(w'.regs[r], t, s') == BucketOf(w.regs[r], t, s'))
      && BucketOf(w'.regs[r], t, key) == KeepPersistent(snap)
    decreases |snap| - i
  {
    if i == |snap| {
      assert snap[..i] == snap;
      assert snap[i..] == [];
    } else {
      var e := snap[i];
      var w1 := DropOnce(w, r, t, key, e);
      var w2 := w1.(calls := w1.calls + [Invocation(e.0, ev)]);
      assert Valid(w2) && r in w2.regs && AllComplete(oracle, |w2.calls|);
      assert ExecBucket(f, oracle, w, r, t, key, snap, i, ev) == ExecBucket(f, oracle, w2, r, t, key, snap, i + 1, ev) by {
        ExecEntryCompleted(f, oracle, w, r, t, key, e, ev);
        ExecBucketUnfold(f, oracle, w, r, t, key, snap, i, ev);
      }
      assert OnlyTypeChanged(w, w2, r, t)
        && (forall s' :: s' != key ==> BucketOf(w2.regs[r], t, s') == BucketOf(w.regs[r], t, s'))
        && BucketOf(w2.regs[r], t, key) == KeepPersistent(snap[..i + 1]) + snap[i + 1..] by {
        DropOnceStep(w, r, t, key, snap, i);
      }
      ExecBucketComplete(f, oracle, w2, r, t, key, snap, i + 1, ev);
      var w' := ExecBucket(f, oracle, w2, r, t, key, snap, i + 1, ev).0;
      assert OnlyTypeChanged(w, w', r, t) by {
        OnlyTypeChangedTrans(w, w2, w', r, t);
      }
      InvocationsCons(snap, i, ev);
      var rest := Invocations(Keys(snap[i + 1..]), ev);
      assert w2.calls == w.calls + [Invocation(e.0, ev)];
      assert w'.calls == w2.calls + rest;
      Seqs.ConcatAssoc(w.calls, [Invocation(e.0, ev)], rest);
    }
  }

  /** The listeners of the buckets of type `t` for the prefixes of `scope`
      from length `step` on, shortest first, each in insertion order. */
  function ScopeOrder(reg: Registry, t: Class, scope: Scope, step: nat): seq<Obj>
    decreases |scope| + 1 - step
  {
    if step > |scope| then [] else Keys(BucketOf(reg, t, scope[..step])) + ScopeOrder(reg, t, scope, step + 1)
  }

  /** The listeners of the empty-scope buckets of `supers[j..]`, in that
      order. */
  function SuperOrder(reg: Registry, supers: seq<Class>, j: nat): seq<Obj>
    decreases |supers| - j
  {
    if j >= |supers| then [] else Keys(BucketOf(reg, supers[j], EmptyScope)) + SuperOrder(reg, supers, j + 1)
  }

  /** The reference dispatch order of `_emit_single` for an event emitted with
      scope tuple `scope`: the supertypes' empty-scope buckets, most generic
      first, then the event type's bucket for each prefix of the scope,
      shortest first. */
  function Dispatch(h: Hierarchy, reg: Registry, ev: Event, scope: Scope): seq<Obj> {
    SuperOrder(reg, Supers(h, ev.cls), 0) + ScopeOrder(reg, ev.cls, scope, 0)
  }

  /** The supertypes of a class, most generic first: `reversed(mro()[1:])`. */
  function Supers(h: Hierarchy, c: Class): seq<Class> {
    Reverse(Mro(h, c)[1..])
  }

  lemma {:induction false} InvocationsAppend(a: seq<Obj>, b: seq<Obj>, ev: Event)
    ensures Invocations(a + b, ev) == Invocations(a, ev) + Invocations(b, ev)
  {
    if a == [] {
      assert a + b == b;
    } else {
      assert (a + b)[1..] == a[1..] + b;
      InvocationsAppend(a[1..], b, ev);
    }
  }

  lemma {:induction false} KeepPersistentUnique(b: Bucket)
    requires UniqueKeys(b)
    ensures UniqueKeys(KeepPersistent(b))
  {
    if b != [] {
      KeepPersistentUnique(b[1..]);
      if !IsOnce(b[0].1) {
        var k := KeepPersistent(b[1..]);
        forall j | 0 <= j < |k| ensures k[j].0 != b[0].0 {
          KeepPersistentFrom(b[1..], j);
        }
      }
    }
  }

  lemma {:induction false} ScopeOrderFrame(reg1: Registry, reg2: Registry, t: Class, scope: Scope, step: nat)
    requires forall k :: step <= k <= |scope| ==> BucketOf(reg1, t, scope[..k]) == BucketOf(reg2, t, scope[..k])
    ensures ScopeOrder(reg1, t, scope, step) == ScopeOrder(reg2, t, scope, step)
    decreases |scope| + 1 - step
  {
    if step <= |scope| {
      ScopeOrderFrame(reg1, reg2, t, scope, step + 1);
    }
  }

  /** Reading a bucket into existence changes no bucket and no other type. */
  lemma VivifyScopeStep(w: World, r: RegId, t: Class, key: Scope)
    requires r in w.regs
    ensures var w1 := WithReg(w, r, VivifyScope(w.regs[r], t, key));
      && OnlyTypeChanged(w, w1, r, t)
      && w1.calls == w.calls
      && (forall t', s' :: BucketOf(w1.regs[r], t', s') == BucketOf(w.regs[r], t', s'))
  {
  }

  /** One scope step after its bucket ran without error. */
  lemma ExecStepsUnfold(f: Facts, oracle: seq<Outcome>, w: World, r: RegId, t: Class,
                        scope: Scope, step: nat, ev: Event, ran: bool)
    requires Valid(w) && r in w.regs && step <= |scope|
    requires var w1 := WithReg(w, r, VivifyScope(w.regs[r], t, scope[..step]));
      ExecBucket(f, oracle, w1, r, t, scope[..step], BucketOf(w1.regs[r], t, scope[..step]), 0, ev).1.Success?
    ensures var w1 := WithReg(w, r, VivifyScope(w.regs[r], t, scope[..step]));
      var snap := BucketOf(w1.regs[r], t, scope[..step]);
      var w2 := ExecBucket(f, oracle, w1, r, t, scope[..step], snap, 0, ev).0;
      && r in w2.regs
  {
  }

  /** A bucket that ran keeps its listeners distinct. */
  lemma BucketRunUnique(reg: Registry, reg2: Registry, t: Class, key: Scope)
    requires forall s :: UniqueKeys(BucketOf(reg, t, s))
    requires forall s' :: s' != key ==> BucketOf(reg2, t, s') == BucketOf(reg, t, s')
    requires BucketOf(reg2, t, key) == KeepPersistent(BucketOf(reg, t, key))
    ensures forall s :: UniqueKeys(BucketOf(reg2, t, s))
  {
    KeepPersistentUnique(BucketOf(reg, t, key));
  }

  /** Running the bucket of prefix `step` leaves the longer prefixes alone. */
  lemma LaterPrefixesUntouched(reg: Registry, reg2: Registry, t: Class, scope: Scope, step: nat)
    requires step <= |scope|
    requires forall s' :: s' != scope[..step] ==> BucketOf(reg2, t, s') == BucketOf(reg, t, s')
    ensures ScopeOrder(reg2, t, scope, step + 1) == ScopeOrder(reg, t, scope, step + 1)
  {
    forall k | step + 1 <= k <= |scope| ensures BucketOf(reg2, t, scope[..k]) == BucketOf(reg, t, scope[..k]) {
      assert |scope[..k]| != |scope[..step]|;
    }
    ScopeOrderFrame(reg2, reg, t, scope, step + 1);
  }

  /** `reg'` is `reg` with the buckets of type `t` for the prefixes of
      `scope` of length `step` or more stripped of their fire-once entries,
      and every other bucket of `t` as it was. */
  ghost predicate PrunedFrom(reg: Registry, reg': Registry, t: Class, scope: Scope, step: nat) {
    forall s' :: BucketOf(reg', t, s') ==
      if s' <= scope && step <= |s'| then KeepPersistent(BucketOf(reg, t, s'))
      else BucketOf(reg, t, s')
  }

  /** The bucket of prefix `step` followed by the longer prefixes: every
      prefix from `step` on ends without its fire-once entries. */
  lemma StepBucketsCompose(reg: Registry, reg2: Registry, reg3: Registry, t: Class, scope: Scope, step: nat)
    requires step <= |scope|
    requires forall s' :: s' != scope[..step] ==> BucketOf(reg2, t, s') == BucketOf(reg, t, s')
    requires BucketOf(reg2, t, scope[..step]) == KeepPersistent(BucketOf(reg, t, scope[..step]))
    requires PrunedFrom(reg2, reg3, t, scope, step + 1)
    ensures PrunedFrom(reg, reg3, t, scope, step)
  {
    forall s' ensures BucketOf(reg3, t, s') ==
                if s' <= scope && step <= |s'| then KeepPersistent(BucketOf(reg, t, s'))
                else BucketOf(reg, t, s') {
      if s' <= scope && |s'| == step {
        assert s' == scope[..step];
      } else if s' <= scope && step + 1 <= |s'| {
        assert s' != scope[..step];
      } else {
        assert !(s' <= scope && step <= |s'|);
        assert s' != scope[..step];
      }
    }
  }

  /** The world after the bucket of scope prefix `step` ran. */
  function HeadRun(f: Facts, oracle: seq<Outcome>, w: World, r: RegId, t: Class,
                   scope: Scope, step: nat, ev: Event): World
    requires Valid(w) && r in w.regs && step <= |scope|
  {
    var w1 := WithReg(w, r, VivifyScope(w.regs[r], t, scope[..step]));
    ExecBucket(f, oracle, w1, r, t, scope[..step], BucketOf(w1.regs[r], t, scope[..step]), 0, ev).0
  }

  /** The first scope step, every listener completing: its bucket runs as
      it was, loses its fire-once entries, and the remaining steps see the
      longer prefixes untouched. */
  lemma ExecStepsHead(f: Facts, oracle: seq<Outcome>, w: World, r: RegId, t: Class,
                      scope: Scope, step: nat, ev: Event)
    requires Valid(w) && r in w.regs && step <= |scope|
    requires AllComplete(oracle, |w.calls|)
    requires forall s :: UniqueKeys(BucketOf(w.regs[r], t, s))
    ensures var w2 := HeadRun(f, oracle, w, r, t, scope, step, ev);
      && Valid(w2) && r in w2.regs && AllComplete(oracle, |w2.calls|)
      && (forall s :: UniqueKeys(BucketOf(w2.regs[r], t, s)))
      && HeadStep(w, w2, r, t, scope, step, ev)
  {
    var key := scope[..step];
    var w1 := WithReg(w, r, VivifyScope(w.regs[r], t, key));
    VivifyScopeStep(w, r, t, key);
    var snap := BucketOf(w1.regs[r], t, key);
    assert snap[..0] == [] && snap[0..] == snap;
    ExecBucketComplete(f, oracle, w1, r, t, key, snap, 0, ev);
    var w2 := ExecBucket(f, oracle, w1, r, t, key, snap, 0, ev).0;
    BucketRunUnique(w.regs[r], w2.regs[r], t, key);
    LaterPrefixesUntouched(w.regs[r], w2.regs[r], t, scope, step);
    OnlyTypeChangedTrans(w, w1, w2, r, t);
  }

  /** The scope steps from `step` continue, after the first bucket, with
      the steps from `step + 1`. */
  lemma ExecStepsHeadEq(f: Facts, oracle: seq<Outcome>, w: World, r: RegId, t: Class,
                        scope: Scope, step: nat, ev: Event, ran: bool)
    requires Valid(w) && r in w.regs && step <= |scope|
    requires AllComplete(oracle, |w.calls|)
    requires forall s :: UniqueKeys(BucketOf(w.regs[r], t, s))
    ensures var w2 := HeadRun(f, oracle, w, r, t, scope, step, ev);
      && Valid(w2) && r in w2.regs
      && ExecSteps(f, oracle, w, r, t, scope, step, ev, ran) ==
         ExecSteps(f, oracle, w2, r, t, scope, step + 1, ev, ran || BucketOf(w.regs[r], t, scope[..step]) != [])
  {
    var key := scope[..step];
    var w1 := WithReg(w, r, VivifyScope(w.regs[r], t, key));
    VivifyScopeStep(w, r, t, key);
    var snap := BucketOf(w1.regs[r], t, key);
    assert snap[..0] == [] && snap[0..] == snap;
    ExecBucketComplete(f, oracle, w1, r, t, key, snap, 0, ev);
    ExecStepsUnfold(f, oracle, w, r, t, scope, step, ev, ran);
  }

  /** What the scope steps from `step` on achieve when every listener
      completes: `out` is their final world and result. */
  ghost predicate StepsOutcome(w: World, out: (World, Result<bool, Error>), r: RegId, t: Class,
                               scope: Scope, step: nat, ev: Event, ran: bool)
    requires r in w.regs
  {
    && out.1 == Success(ran || ScopeOrder(w.regs[r], t, scope, step) != [])
    && out.0.calls == w.calls + Invocations(ScopeOrder(w.regs[r], t, scope, step), ev)
    && r in out.0.regs
    && OnlyTypeChanged(w, out.0, r, t)
    && PrunedFrom(w.regs[r], out.0.regs[r], t, scope, step)
  }

  /** What running the bucket of scope prefix `step` did, taking `w` to
      `w2`, when every listener completed: it called the bucket's listeners
      as they were, dropped its fire-once entries and touched no other
      bucket or registered type. */
  ghost predicate HeadStep(w: World, w2: World, r: RegId, t: Class, scope: Scope, step: nat, ev: Event)
    requires r in w.regs && step <= |scope|
  {
    var snap := BucketOf(w.regs[r], t, scope[..step]);
    && r in w2.regs
    && w2.calls == w.calls + Invocations(Keys(snap), ev)
    && OnlyTypeChanged(w, w2, r, t)
    && ScopeOrder(w2.regs[r], t, scope, step + 1) == ScopeOrder(w.regs[r], t, scope, step + 1)
    && (forall s' :: s' != scope[..step] ==> BucketOf(w2.regs[r], t, s') == BucketOf(w.regs[r], t, s'))
    && BucketOf(w2.regs[r], t, scope[..step]) == KeepPersistent(snap)
  }

  /** The first scope step followed by the remaining ones. */
  lemma ExecStepsCombine(w: World, w2: World, out: (World, Result<bool, Error>), r: RegId, t: Class,
                         scope: Scope, step: nat, ev: Event, ran: bool)
    requires r in w.regs && r in w2.regs && step <= |scope|
    requires HeadStep(w, w2, r, t, scope, step, ev)
    requires StepsOutcome(w2, out, r, t, scope, step + 1, ev, ran || BucketOf(w.regs[r], t, scope[..step]) != [])
    ensures StepsOutcome(w, out, r, t, scope, step, ev, ran)
  {
    var snap := BucketOf(w.regs[r], t, scope[..step]);
    var rest := ScopeOrder(w.regs[r], t, scope, step + 1);
    var w3 := out.0;
    assert ScopeOrder(w.regs[r], t, scope, step) == Keys(snap) + rest;
    OnlyTypeChangedTrans(w, w2, w3, r, t);
    InvocationsAppend(Keys(snap), rest, ev);
    Seqs.ConcatAssoc(w.calls, Invocations(Keys(snap), ev), Invocations(rest, ev));
    StepBucketsCompose(w.regs[r], w2.regs[r], w3.regs[r], t, scope, step);
  }

  /** The scope steps of `_exec_listeners`, every listener completing: the
      buckets of the scope prefixes run shortest first, each as it was when
      the steps began, and each ends without its fire-once entries. */
  lemma {:induction false} ExecStepsComplete(f: Facts, oracle: seq<Outcome>, w: World, r: RegId, t: Class,
                                             scope: Scope, step: nat, ev: Event, ran: bool)
    requires Valid(w) && r in w.regs && step <= |scope| + 1
    requires AllComplete(oracle, |w.calls|)
    requires forall s :: UniqueKeys(BucketOf(w.regs[r], t, s))
    ensures StepsOutcome(w, ExecSteps(f, oracle, w, r, t, scope, step, ev, ran), r, t, scope, step, ev, ran)
    decreases |scope| + 1 - step
  {
    if step <= |scope| {
      var snap := BucketOf(w.regs[r], t, scope[..step]);
      ExecStepsHead(f, oracle, w, r, t, scope, step, ev);
      var w2 := HeadRun(f, oracle, w, r, t, scope, step, ev);
      ExecStepsComplete(f, oracle, w2, r, t, scope, step + 1, ev, ran || snap != []);
      ExecStepsCombine(w, w2, ExecSteps(f, oracle, w2, r, t, scope, step + 1, ev, ran || snap != []), r, t, scope, step, ev, ran);
      ExecStepsHeadEq(f, oracle, w, r, t, scope, step, ev, ran);
    } else {
      ExecStepsDone(f, oracle, w, r, t, scope, step, ev, ran);
    }
  }

  /** Past the last scope step nothing runs and nothing changes. */
  lemma ExecStepsDone(f: Facts, oracle: seq<Outcome>, w: World, r: RegId, t: Class,
                      scope: Scope, step: nat, ev: Event, ran: bool)
    requires Valid(w) && r in w.regs && step == |scope| + 1
    ensures StepsOutcome(w, ExecSteps(f, oracle, w, r, t, scope, step, ev, ran), r, t, scope, step, ev, ran)
  {
    assert ExecSteps(f, oracle, w, r, t, scope, step, ev, ran) == (w, Success(ran));
    assert ScopeOrder(w.regs[r], t, scope, step) == [];
    assert w.calls + Invocations([], ev) == w.calls;
  }
}
