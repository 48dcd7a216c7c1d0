/**
 * `emitter/_context.py`: the listener context. A context has an id, a set
 * of ids that starts as just its own, and, while entered, the token that
 * `CONTEXT.set` returned, which remembers the context that was current
 * before. Entering makes it current and adds its id; `add` inserts an id
 * into the context and, through the tokens, into every context that was
 * current before it; exiting restores the previous current context.
 *
 * The `contextvars` variable `CONTEXT` is the object `Slot`; a token is a
 * value holding the variable's previous value (`None` for `Token.MISSING`).
 * `add` recurses along the chain of previous contexts, which can loop back
 * on itself when a context is entered twice: the interpreter's recursion
 * limit is the `frames` argument, and running out of it is a
 * `RecursionError`.
 */
module Contexts {
  import opened Wrappers
  import opened Python

  /** A UUID. */
  type Uuid = nat

  /** CPython's default recursion limit, the budget a fresh `add` runs with. */
  const RecursionLimit: nat := 1000

  /** A `contextvars.Token`: the value the variable held before `set`,
      `None` standing for `Token.MISSING`. */
  datatype Token = Token(previous: Option<Context>)

  /** What `x in ctx` accepts: a UUID, or a context standing for its id. */
  datatype Item = IdItem(u: Uuid) | ContextItem(c: Context)

  /** The context variable `CONTEXT`. */
  class Slot {
    var current: Option<Context>

    /** `ContextVar("emitter")`: no value yet. */
    constructor()
      ensures current == None
    {
      current := None;
    }
  }

  class Context {
    const id: Uuid
    var ids: set<Uuid>
    var token: Option<Token>

    /** `context(custom_index)`: the id is the custom index if given, else
        the fresh UUID `uuid4()` drew, passed in as `drawn`. */
    constructor(customIndex: Option<Uuid>, drawn: Uuid)
      ensures id == (if customIndex.Some? then customIndex.value else drawn)
      ensures ids == {id} && token == None
    {
      id := if customIndex.Some? then customIndex.value else drawn;
      ids := {if customIndex.Some? then customIndex.value else drawn};
      token := None;
    }

    /** `item in ctx`: a context is looked up by its id. */
    predicate Contains(item: Item)
      reads this
    {
      (if item.ContextItem? then item.c.id else item.u) in ids
    }

    /** `ctx.add(other)` with `frames` interpreter frames left: assert the
        context is entered, add the id, and recurse into the previous
        context if there is one. */
    method Add(other: Uuid, ghost all: set<Context>, frames: nat) returns (r: Result<(), Error>)
      requires this in all && Closed(TokensOf(all))
      modifies set c | c in all :: c`ids
      ensures TokensOf(all) == old(TokensOf(all))
      ensures r == Walk(old(TokensOf(all)), this, frames).1
      ensures forall c :: c in all ==>
        c.ids == old(c.ids) + (if c in Walk(old(TokensOf(all)), this, frames).0 then {other} else {})
      decreases frames
    {
      if frames == 0 {
        return Failure(RecursionError);
      }
      if token.None? {
        return Failure(AssertionError);
      }
      ids := ids + {other};
      var previous := token.value.previous;
      if previous.None? {
        return Success(());
      }
      r := previous.value.Add(other, all, frames - 1);
    }

    /** `ctx.__enter__()`: make the context current, keeping the previous
        value in the token, then add the context's own id. */
    method Enter(slot: Slot, ghost all: set<Context>) returns (r: Result<(), Error>)
      requires this in all && Closed(TokensOf(all)) && (slot.current.Some? ==> slot.current.value in all)
      modifies slot, this, set c | c in all :: c`ids
      ensures slot.current == Some(this) && token == Some(Token(old(slot.current)))
      ensures TokensOf(all) == old(TokensOf(all))[this := Some(Token(old(slot.current)))]
      ensures Closed(TokensOf(all)) && r == Walk(TokensOf(all), this, RecursionLimit).1
      ensures forall c :: c in all ==>
        c.ids == old(c.ids) + (if c in Walk(TokensOf(all), this, RecursionLimit).0 then {id} else {})
      ensures Contains(ContextItem(this))
    {
      token := Some(Token(slot.current));
      slot.current := Some(this);
      r := Add(id, all, RecursionLimit);
      WalkStartsHere(TokensOf(all), this, RecursionLimit);
    }

    /** `ctx.__exit__(...)`: restore the variable to its value before the
        matching `__enter__` and forget the token; a second exit does
        nothing. Exceptions are never suppressed. */
    method Exit(slot: Slot) returns (suppress: bool)
      modifies slot, this
      ensures old(token).Some? ==> slot.current == old(token).value.previous
      ensures old(token).None? ==> slot.current == old(slot.current)
      ensures token == None && ids == old(ids)
      ensures !suppress
    {
      if token.Some? {
        slot.current := token.value.previous;
        token := None;
      }
      return false;
    }
  }

  /** The token of each context of a set of contexts. */
  type Tokens = map<Context, Option<Token>>

  ghost function TokensOf(all: set<Context>): (t: Tokens)
    reads all`token
    ensures t.Keys == all
  {
    map c | c in all :: c.token
  }

  /** Every context that remembers a previous context remembers one that
      is also in the map. */
  predicate Closed(t: Tokens) {
    forall c :: c in t && t[c].Some? && t[c].value.previous.Some? ==> t[c].value.previous.value in t
  }

  /** The contexts `add` visits from `c` with `frames` frames left, in
      order, and how it ends. */
  function Walk(t: Tokens, c: Context, frames: nat): (res: (seq<Context>, Result<(), Error>))
    requires c in t && Closed(t)
    ensures forall d :: d in res.0 ==> d in t
    decreases frames
  {
    if frames == 0 then ([], Failure(RecursionError))
    else if t[c].None? then ([], Failure(AssertionError))
    else if t[c].value.previous.None? then ([c], Success(()))
    else
      var (rest, r) := Walk(t, t[c].value.previous.value, frames - 1);
      ([c] + rest, r)
  }

  /** An entered context with frames to spare is visited first: `add`
      always reaches its own id set. */
  lemma WalkStartsHere(t: Tokens, c: Context, frames: nat)
    requires c in t && Closed(t) && t[c].Some? && frames > 0
    ensures |Walk(t, c, frames).0| > 0 && Walk(t, c, frames).0[0] == c
  {
  }

  /** `cs` is the chain of previously-current contexts from `cs[0]`: all
      entered, each remembering the next, the last remembering none. */
  predicate IsChain(t: Tokens, cs: seq<Context>) {
    && |cs| > 0
    && (forall i :: 0 <= i < |cs| ==> cs[i] in t && t[cs[i]].Some?)
    && (forall i :: 0 <= i < |cs| - 1 ==> t[cs[i]].value.previous == Some(cs[i + 1]))
    && t[cs[|cs| - 1]].value.previous.None?
  }

  /** `add` succeeds exactly when the chain from the context is entered all
      the way down and fits in the frames, and then it visits that chain. */
  lemma {:induction false} WalkSucceeds(t: Tokens, c: Context, frames: nat, cs: seq<Context>)
    requires c in t && Closed(t)
    ensures Walk(t, c, frames) == (cs, Success(())) <==> IsChain(t, cs) && cs[0] == c && |cs| <= frames
  {
    if frames > 0 && t[c].Some? && t[c].value.previous.Some? {
      var p := t[c].value.previous.value;
      if |cs| > 0 {
        WalkSucceeds(t, p, frames - 1, cs[1..]);
        if IsChain(t, cs) && cs[0] == c && |cs| <= frames {
          assert |cs| > 1;
          assert IsChain(t, cs[1..]) by {
            forall i | 0 <= i < |cs[1..]| - 1
              ensures t[cs[1..][i]].value.previous == Some(cs[1..][i + 1])
            {
              assert cs[1..][i] == cs[i + 1];
            }
          }
          assert t[cs[0]].value.previous == Some(cs[1]);
          assert cs == [c] + cs[1..];
        }
        if Walk(t, c, frames) == (cs, Success(())) {
          assert cs == [c] + cs[1..];
          assert IsChain(t, cs) by {
            forall i | 0 <= i < |cs| - 1
              ensures t[cs[i]].value.previous == Some(cs[i + 1])
            {
              if i > 0 {
                assert cs[i] == cs[1..][i - 1];
              }
            }
          }
        }
      }
    } else if frames > 0 && t[c].Some? && |cs| > 1 && cs[0] == c {
      assert Walk(t, c, frames).0 == [c];
      assert t[cs[0]].value.previous != Some(cs[1]);
    } else if |cs| == 1 {
      assert cs == [cs[0]];
    }
  }

  /** A context entered while it was already current remembers itself, and
      `add` on it recurses until the frames run out. */
  lemma {:induction false} WalkSelfLoop(t: Tokens, c: Context, frames: nat)
    requires c in t && Closed(t) && t[c] == Some(Token(Some(c)))
    ensures Walk(t, c, frames).1 == Failure(RecursionError)
    ensures |Walk(t, c, frames).0| == frames
  {
    if frames > 0 {
      WalkSelfLoop(t, c, frames - 1);
    }
  }

  /** A context on the chain that has been exited stops `add` with an
      AssertionError, after the contexts before it got the id. */
  lemma {:induction false} WalkStopsAtExited(t: Tokens, cs: seq<Context>, frames: nat)
    requires |cs| > 1 && |cs| <= frames && cs[0] in t && Closed(t)
    requires forall i :: 0 <= i < |cs| ==> cs[i] in t
    requires forall i :: 0 <= i < |cs| - 1 ==> t[cs[i]] == Some(Token(Some(cs[i + 1])))
    requires t[cs[|cs| - 1]].None?
    ensures Walk(t, cs[0], frames) == (cs[..|cs| - 1], Failure(AssertionError))
  {
    if |cs| > 2 {
      WalkStopsAtExited(t, cs[1..], frames - 1);
      assert cs[..|cs| - 1] == [cs[0]] + cs[1..][..|cs[1..]| - 1];
    } else {
      assert cs[..|cs| - 1] == [cs[0]];
    }
  }

  /** At import: enter a fresh base context unless one is current. */
  method InitModule(slot: Slot, drawn: Uuid) returns (base: Option<Context>)
    modifies slot
    ensures old(slot.current).Some? ==> base.None? && slot.current == old(slot.current)
    ensures old(slot.current).None? ==>
      base.Some? && fresh(base.value) && slot.current == base &&
      base.value.id == drawn && base.value.ids == {drawn} && base.value.token == Some(Token(None))
  {
    if slot.current.Some? {
      return None;
    }
    var c := new Context(None, drawn);
    var r := c.Enter(slot, {c});
    return Some(c);
  }
}
