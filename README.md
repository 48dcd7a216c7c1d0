# Emitter: listener registry and dispatch rules, in Dafny

This project models the core of the Python package `emitter` (HeavenVolkoff/Emitter).
`emitter` is a type-directed event emitter. Listeners are registered with `on` under an event
type, a dotted scope and a namespace. `emit` dispatches an event instance to the listeners of
its type and its supertypes. `remove` and `retrieve` edit and list registries, and `context`
tracks nested listener contexts. The model states what each of these does to the listener
registries and proves it.

## Structure

- **Registry** (`Types`, `Mapping`, `Dict`): `event type -> scope tuple -> listener -> ListenerOpts`.
  - The type level is a `map`.
  - The two ordered levels are sequences of pairs, because `dict` keeps insertion order.
  - Reads of the two `defaultdict` levels store an empty entry. This is modelled as
    `VivifyType`/`VivifyScope`, because `remove` and `retrieve` can observe it.
- **World** (`State`): the registries, kept in a table of registry ids where id 0 is the global
  registry. It also holds the `__listeners__` and `__loop__` attributes of objects, the log of
  listener invocations, and the log of exceptions reported to the event loop's exception handler.
  - `Facts` holds what the emitter cannot change: the class hierarchy (`mro()`), which objects are
    callable, which are coroutine functions, which refuse new attributes, and which loops were
    garbage collected.
  - `Store` is the mutable holder of a `World` that the procedures update in place.
- **Listener outcomes**: running a listener is not modelled. The k-th invocation overall ends
  with `Next(oracle, k)`, which is one of:
  - `Completed`. This includes a listener whose own future was cancelled, because the bridge
    absorbs that.
  - `Raised(exception)`.
  - `Cancelled`: the emission itself was cancelled while it waited.
- **Emission** (`Emission`): `emit`, `_emit_single` and `_exec_listeners` are mutually
  recursive functions over the world.
  - Recursion is bounded because exception events are never re-emitted.
  - `EmissionRun` has the same operations as methods with the loops of the source. They
    update a `Store`, and each is proved to end in the state and result of its function.
  - `EmissionOrder` and `EmissionDispatch` prove the dispatch order and the fire-once deletion
    when every listener completes.
  - `EmissionOutcomes` proves the error rules and the flags `emit` returns.
- **Registration** (`Registration`, `RegistrationRun`), **removal** (`Removal`, `RemovalRun`),
  **retrieval** (`Retrieval`), **scope parsing and filtering** (`ScopeParsing`, `LimitScope`),
  **namespaces** (`Namespaces`, `NamespaceTable`), **loop binding** (`LoopBinding`, `LoopCheck`,
  `LoopLegacy`) and **contexts** (`Contexts`) follow the source file by file.

The repository holds several snapshots of some helpers. Each is modelled as written, except
for the type of registry the namespace resolver creates and accepts (see `Namespaces.Resolve`
under "## Left out"):

- `on`, `emit`, `remove` and `retrieve` resolve namespaces with
  `_helpers/retrieve_listeners_from_namespace.py` and bind loops with
  `_helpers/retrieve_loop_from_listener.py`. Those are the versions whose signatures match the
  calls.
- The side-table resolver `_helpers/_namespace.py`, the older binder `_helpers/loop.py` and the
  classifier `_helpers/_loop.py` are modelled standalone.

Where the prose description of the package and the code disagree, the model follows the code:

- `remove` returns the OR of `bool(popped options)`, not "whether any removal occurred".
- An incompatible `__listeners__` attribute is a TypeError in the attribute resolver, but is
  ignored in the side-table resolver.

`EmptyScope` is `()`. The `HandleMode` flags are `NONE = 0`, `GLOBAL = 1` and `NAMESPACE = 2`;
they are taken from how `emit` uses them, because `_types.py` does not define them.

## Model

| member | source | states |
|---|---|---|
| Types.BuildOpts | emitter/_on.py:95-97 | the options have `ONCE` set exactly when `once` was asked, are truthy exactly then, and are `NOP` or `ONCE` |
| Types.Listeners.constructor | emitter/_types.py:38-44 | a new `Listeners` has both its scope map and its type map empty |
| Types.Listeners.ScopeBucket | emitter/_types.py:39-41 | reading a scope returns its bucket or a new empty one, and a missing scope is stored last |
| Types.Listeners.TypeBucket | emitter/_types.py:42-44 | reading a type returns its bucket or a new empty one, and a missing type is stored last |
| Mapping.NewListenerMapping | emitter/_helpers/new_listener_mapping.py:26-37 | a new mapping has no scopes for any type and an empty bucket for every type and scope |
| Mapping.VivifyType | emitter/_helpers/new_listener_mapping.py:26-27 | reading a type stores it, adds only that key and changes no type's scopes |
| Mapping.VivifyScope | emitter/_helpers/new_listener_mapping.py:26-36 | reading a type and scope stores both and changes no bucket's contents |
| Mapping.SetBucket | emitter/_on.py:114 | assigning a bucket changes that bucket and no other |
| Mapping.InsertFind | emitter/_on.py:114 | after the insertion the listener has the given options in its bucket; every other listener of the bucket and every other bucket is unchanged |
| Mapping.InsertPosition | emitter/_on.py:114 | re-inserting a listener overwrites its options in place; a new listener is appended last |
| Mapping.InsertWellFormed | emitter/_on.py:114 | insertion never puts a listener twice into one bucket |
| Python.JoinSplit | emitter/_helpers/_parse_scope.py:7 | joining the pieces of `s.split(".")` with dots gives back `s` |
| Python.SplitJoin | emitter/_helpers/_parse_scope.py:7 | splitting a dot-join of dot-free pieces gives back the pieces |
| ScopeParsing.NonEmpty | emitter/_helpers/_parse_scope.py:8 | `filter(bool, xs)` keeps exactly the non-empty strings, and none of the result is empty |
| ScopeParsing.ParseScopeSegments | emitter/_helpers/_parse_scope.py:6-8 | no parsed segment is empty, and no segment parsed from text contains a dot |
| ScopeParsing.ParseIdempotent | emitter/_helpers/_parse_scope.py:5-8 | parsing a parsed scope again leaves it unchanged |
| ScopeParsing.ParseSegments | emitter/_helpers/_parse_scope.py:6-8 | a tuple keeps its non-empty elements in order and loses only the empty ones |
| ScopeParsing.ParseEmptyText | emitter/_helpers/_parse_scope.py:6-8 | `""` parses to the empty scope |
| ScopeParsing.ParseExtraDots | emitter/_helpers/_parse_scope.py:6-8 | leading, trailing and doubled dots do not change the parse |
| ScopeParsing.NormalisationKeepsEmpty | emitter/_helpers/limit_scope.py:15 | the normalisation `tuple(scope.split("."))` keeps empty segments where parsing drops them |
| ScopeParsing.ParseOfTuple | emitter/_helpers/limit_scope.py:15 | the normalisation and the parse agree once empty segments are dropped |
| LimitScope.Within | emitter/_helpers/limit_scope.py:16-18 | the filter keeps exactly the pairs whose scope is `<=` the bound, and never adds any |
| LimitScope.LimitContents | emitter/_helpers/limit_scope.py:14-20 | a `None` or empty scope returns the input; otherwise exactly the pairs whose scope tuple is lexicographically `<=` the normalised scope survive |
| LimitScope.LimitSubsequence | emitter/_helpers/limit_scope.py:16-18 | the output is an order-preserving subsequence of the input |
| LimitScope.LimitAppend | emitter/_helpers/limit_scope.py:16-18 | filtering distributes over concatenation |
| LimitScope.LimitCons | emitter/_helpers/limit_scope.py:16-18 | the first pair survives exactly when its scope passes |
| LimitScope.PrefixPasses | emitter/_helpers/limit_scope.py:16-18 | every prefix of the requested scope passes, `()` included |
| LimitScope.NonPrefixPasses | emitter/_helpers/limit_scope.py:15-18 | `("a", "b")` passes for `"a.c"` although it is not a prefix |
| LimitScope.StrLtTotal | emitter/_helpers/limit_scope.py:17 | string `<` is total: equal, smaller or greater |
| LimitScope.StrLtTransitive | emitter/_helpers/limit_scope.py:17 | string `<` is transitive |
| LimitScope.StrLtIrreflexive | emitter/_helpers/limit_scope.py:17 | no string is `<` itself |
| LimitScope.ScopeLeReflexive | emitter/_helpers/limit_scope.py:17 | every scope is `<=` itself |
| LimitScope.ScopeLeAntisymmetric | emitter/_helpers/limit_scope.py:17 | two scopes `<=` each other are equal |
| LimitScope.ScopeLeTransitive | emitter/_helpers/limit_scope.py:17 | tuple `<=` is transitive |
| LimitScope.ScopeLeTotal | emitter/_helpers/limit_scope.py:17 | any two scopes are comparable |
| Registration.CheckType | emitter/_on.py:76-83 | an event type passes exactly when it is a class other than `object`, not a bare `BaseException` subclass and not a metaclass; a non-class is a TypeError and any other rejection a ValueError |
| Registration.ChooseLoop | emitter/_on.py:99-101 | the loop given wins; a coroutine function without one takes the running loop, or RuntimeError when none runs; anything else gets none |
| Registration.On | emitter/_on.py:76-116 | `on` keeps the world valid, and a failing `on` leaves every existing registry unchanged |
| Registration.Prepare | emitter/_on.py:91-111 | the checks before the insertion change no registry, and on success they select the target registry, creating it when needed |
| Registration.OnRejectsType | emitter/_on.py:76-83 | a rejected event type fails with TypeError for a non-class and ValueError otherwise, with nothing changed |
| Registration.DecoratorForm | emitter/_on.py:85-89 | without a listener `on` changes nothing and returns a decorator; applying it is `on` with that listener |
| Registration.OnRejectsListener | emitter/_on.py:91-92 | a non-callable listener is a ValueError with nothing changed |
| Registration.OnLoopConflict | emitter/_on.py:103-105 | a listener bound to a live loop other than the requested one is a TypeError with nothing inserted |
| Registration.OnNoRunningLoop | emitter/_on.py:99-101 | a coroutine function registered without a loop while no loop runs is a RuntimeError with nothing changed |
| Registration.OnInserts | emitter/_on.py:94-116 | a successful `on` returns the listener, stored with `ONCE` exactly when asked under the normalised scope of its type in the selected registry; every other listener, bucket and registry is unchanged |
| Registration.OnShape | emitter/_on.py:107-116 | a successful `on` is exactly the insertion into the selected registry |
| Registration.OnOverwriteKeepsPlace | emitter/_on.py:114 | re-registering keeps the listener's place with no duplicate; a new listener goes last |
| RegistrationRun.On | emitter/_on.py:76-116 | the in-place procedure ends in the state and result of `Registration.On` |
| Emission.ExecEntry | emitter/_emit.py:119-152 | one snapshot entry only appends to the logs and invokes its listener with the event exactly once; an exception event's entry invokes nothing else |
| Emission.ExecBucket | emitter/_emit.py:119-152 | a bucket run that ends normally invokes the snapshot's listeners for the event in snapshot order |
| Emission.ExecSteps | emitter/_emit.py:113-156 | `_exec_listeners` returns true exactly when some listener received the event, including ones that raised |
| Emission.SuperLoop | emitter/_emit.py:185-192 | the supertype loop's flag is true exactly when a listener received the event or it was already set |
| Emission.EmitSingle | emitter/_emit.py:159-199 | `_emit_single` returns true exactly when some listener received the event; an exception event reaches no other event |
| Emission.Finish | emitter/_emit.py:238-244 | the flags are returned, and the event is raised exactly when no flag is set and it is an `Exception` |
| Emission.Emit | emitter/_emit.py:202-244 | the returned flags are non-zero exactly when some listener received the event, and a handled `Exception` event always has a flag set |
| EmissionOrder.ExecEntryCompleted | emitter/_emit.py:120-128 | a completing entry deletes its fire-once listener from the live bucket if still there, logs one invocation and does nothing else |
| EmissionOrder.ExecBucketComplete | emitter/_emit.py:116-128 | with every listener completing, the snapshot runs in order, and the live bucket ends as the snapshot without its fire-once entries; no other bucket changes |
| EmissionOrder.ExecStepsComplete | emitter/_emit.py:113-156 | with every listener completing, the buckets of the scope prefixes run shortest first, each as it was when the steps began, and each loses its fire-once entries |
| EmissionDispatch.SuperLoopComplete | emitter/_emit.py:185-192 | with every listener completing, the empty-scope buckets of the supertypes run most generic first and lose their fire-once entries |
| EmissionDispatch.OwnRunComplete | emitter/_emit.py:194-197 | with every listener completing, the event type's own scope steps run their buckets and prune them |
| EmissionDispatch.EmitSingleComplete | emitter/_emit.py:159-199 | with every listener completing, exactly the listeners of `Dispatch` run, in that order and each once: supertypes' empty-scope buckets in reversed MRO, then the type's buckets for each scope prefix. The result says whether any ran, and exactly the visited buckets lose their fire-once entries |
| EmissionDispatch.EmptyScopeOrder | emitter/_emit.py:113-115 | running a type with the empty scope runs exactly its empty-scope bucket |
| EmissionDispatch.MroShape | emitter/_emit.py:182-185 | an MRO starts with the class and names no class twice |
| EmissionDispatch.SupersDistinct | emitter/_emit.py:182-185 | the supertypes visited are distinct and exclude the event type |
| EmissionOutcomes.EmitRejects | emitter/_emit.py:165-177 | a bare `BaseException` event is re-raised; a metaclass instance or `object()` is a ValueError; nothing runs and nothing changes |
| EmissionOutcomes.VerdictFlags | emitter/_emit.py:227-244 | `GLOBAL` is set exactly when the global registry ran a listener and `NAMESPACE` exactly when the namespace's did; an unhandled `Exception` event is raised |
| EmissionOutcomes.EmitGlobalComplete | emitter/_emit.py:202-244 | without a namespace and with every listener completing, the global dispatch order runs and the result is the verdict |
| EmissionOutcomes.EmitNamespaceComplete | emitter/_emit.py:227-244 | with any namespace (a registry or an object) whose resolved registry is not the global one, and every listener completing: the global dispatch runs, then the dispatch of the registry the namespace resolves to, and the flags tell them apart |
| EmissionOutcomes.ResolveAfterPass | emitter/_emit.py:230-236 | the namespace, resolved after the global pass, yields the registry, with the same contents, that it would have yielded before |
| EmissionOutcomes.EmptyDispatch | emitter/_emit.py:159-199 | a registry with no types dispatches to no listener |
| EmissionOutcomes.EmitFreshNamespace | emitter/_emit.py:227-244 | with an object namespace seen for the first time, only the global listeners run and the `NAMESPACE` flag stays clear |
| EmissionOutcomes.EmitSinglePass | emitter/_emit.py:159-199 | with every listener completing, one pass logs the dispatch order and returns whether it was non-empty |
| EmissionOutcomes.EmitNamespaceEq | emitter/_emit.py:230-236 | for any namespace, resolved after the global pass: when both passes succeed, the flags of `emit` are the OR of the two passes |
| EmissionOutcomes.EntryRun | emitter/_emit.py:120-128 | before error handling, an entry has logged exactly its own invocation and reported nothing |
| EmissionOutcomes.ExecEntryOutcome | emitter/_emit.py:127-152 | a completing listener lets the emission continue; a cancellation or a bare `BaseException` ends it; an `Exception` raised while handling an exception event is reported and the emission continues |
| EmissionOutcomes.ExecEntrySecondTier | emitter/_emit.py:131-143 | an `Exception` from a listener of a non-exception event is emitted with that listener as namespace. It is dropped when that emission returns, cancellation or a bare `BaseException` from it propagates, and any other failure has the exception reported |
| EmissionOutcomes.EmitUnwritableNamespace | emitter/_emit.py:233-235 | a namespace that cannot take a registry fails with TypeError after the global listeners ran |
| EmissionOutcomes.ExecEntryUnwritableReported | emitter/_emit.py:131-152 | an exception whose listener cannot be a namespace is reported even after global listeners received it |
| EmissionRun.ExecEntry | emitter/_emit.py:119-152 | the in-place entry step ends in the state and result of `Emission.ExecEntry` |
| EmissionRun.ExecBucket | emitter/_emit.py:119-152 | the loop over a bucket snapshot ends in the state and result of `Emission.ExecBucket` |
| EmissionRun.ExecListeners | emitter/_emit.py:106-156 | the two nested loops of `_exec_listeners` end in the state and result of `Emission.ExecListeners` |
| EmissionRun.EmitSingle | emitter/_emit.py:159-199 | the supertype loop and the own-type run end in the state and result of `Emission.EmitSingle` |
| EmissionRun.Emit | emitter/_emit.py:202-244 | `emit` ends in the state and result of `Emission.Emit` |
| Removal.Remove | emitter/_remove.py:70-109 | `remove` keeps the world valid |
| Removal.RemoveWithoutType | emitter/_remove.py:75-84 | an empty registry gives True with no change; without an event type everything is cleared, or a ValueError when a listener or scope is given |
| Removal.RemoveWholeType | emitter/_remove.py:102-107 | with only an event type, its entry is deleted and True returned; an absent type is a KeyError |
| Removal.SweepPrunes | emitter/_remove.py:86-101 | the loop over a copy of the filtered pairs leaves the pruned scope map and returns whether some passing bucket held the listener with options other than `NOP` |
| Removal.PruneFind | emitter/_remove.py:88-97 | a passing bucket loses the listener and goes when emptied or when no listener is given; every other bucket stays as it was |
| Removal.PruneUnique | emitter/_remove.py:88-97 | pruning keeps scopes unique and adds none |
| Removal.RemoveListener | emitter/_remove.py:86-109 | the listener leaves every passing bucket of the type, and every other listener, bucket and type stays. The type goes when no bucket is left, and the result is whether a passing bucket held it truthily |
| Removal.RemoveScope | emitter/_remove.py:86-109 | removing by scope alone empties every passing bucket, keeps the others, deletes the type when none is left, and returns False |
| Removal.RemoveNopReportsFalse | emitter/_remove.py:91 | removing a listener registered with `NOP` reports False although it was removed |
| Removal.RemoveAsWrittenRaises | emitter/_remove.py:88-97 | the loop over the live view fails with RuntimeError after the first deletion, where the intended loop succeeds |
| Removal.AsWrittenAgrees | emitter/_remove.py:88-97 | whenever the loop over the live view succeeds, it agrees with the intended loop |
| RemovalRun.Remove | emitter/_remove.py:70-109 | the in-place procedure ends in the state and result of `Removal.Remove` |
| RemovalRun.RemoveIn | emitter/_remove.py:75-109 | the loop over the copy of the filtered pairs updates the selected registry as `Removal.RemoveIn` does and returns its result |
| RemovalRun.RemoveSelects | emitter/_remove.py:70-73 | `remove` acts on the global registry without a namespace, else on the namespace's |
| Retrieval.Retrieve | emitter/_retrieve.py:26-41 | `retrieve` keeps the world valid |
| Retrieval.FlattenListed | emitter/_retrieve.py:31-41 | filtering the flattened (scope, listener) pairs and projecting lists the listeners of the passing buckets |
| Retrieval.ListedHas | emitter/_retrieve.py:31-40 | a listener is listed exactly when some passing bucket holds it |
| Retrieval.RetrieveContents | emitter/_retrieve.py:31-41 | the result is the passing buckets' listeners in bucket order, then insertion order; a listener appears exactly when a passing bucket holds it; the only change is the empty entry stored for an unseen type |
| Retrieval.RetrieveUnscoped | emitter/_retrieve.py:31-41 | without a scope every listener of every bucket is returned |
| Retrieval.RetrieveKeepsDuplicates | emitter/_retrieve.py:31-40 | a listener in two passing buckets is returned twice |
| Retrieval.RetrieveSelects | emitter/_retrieve.py:26-41 | the global registry is read without a namespace; otherwise the registry that the namespace, registry or object, resolves to is read. The result lists that registry's passing buckets |
| Retrieval.RetrieveFreshNamespace | emitter/_retrieve.py:26-41 | an object namespace seen for the first time gets a new registry attached and lists nothing |
| Contexts.Slot.constructor | emitter/_context.py:10 | the context variable starts with no value |
| Contexts.Context.constructor | emitter/_context.py:21-26 | the id is the custom index if given, else the drawn UUID; the id set is exactly `{id}` and there is no token |
| Contexts.Context.Add | emitter/_context.py:45-58 | `add` inserts the id into this context and every previous context along the token chain, and changes no token. Its result is the chain walk's: AssertionError at an exited context, RecursionError when the frames run out |
| Contexts.Context.Enter | emitter/_context.py:35-40 | entering makes the context current, records the previous one in its token, adds its own id along the chain, and leaves the context containing itself |
| Contexts.Context.Exit | emitter/_context.py:28-33 | exiting restores the previous current context and clears the token; a second exit changes nothing; ids are kept and nothing is suppressed |
| Contexts.WalkStartsHere | emitter/_context.py:52-54 | an entered context with frames to spare gets the id first |
| Contexts.WalkSucceeds | emitter/_context.py:45-58 | `add` succeeds exactly when the chain from the context is entered all the way down and fits in the frames; it then visits exactly that chain |
| Contexts.WalkSelfLoop | emitter/_context.py:45-58 | a context entered while already current makes `add` recurse until RecursionError |
| Contexts.WalkStopsAtExited | emitter/_context.py:52-58 | an exited context on the chain stops `add` with AssertionError, after the contexts before it got the id |
| Contexts.InitModule | emitter/_context.py:61-63 | at import a fresh base context is entered when none is current; otherwise nothing changes |
| Namespaces.Resolve | emitter/_helpers/retrieve_listeners_from_namespace.py:8-33 | resolution returns an existing registry, keeps every registry, and changes no loop or log |
| Namespaces.ResolveExisting | emitter/_helpers/retrieve_listeners_from_namespace.py:9-16 | `None` is a ValueError; a registry or an attached registry is returned unchanged |
| Namespaces.ResolveTypeError | emitter/_helpers/retrieve_listeners_from_namespace.py:16-31 | an incompatible attribute or an unwritable object is a TypeError with nothing attached |
| Namespaces.ResolveCreates | emitter/_helpers/retrieve_listeners_from_namespace.py:24-33 | a fresh empty registry is attached, and a second call returns it with no change |
| NamespaceTable.Owner | emitter/_helpers/_namespace.py:16-17 | a wrapper resolves to the listener it wraps |
| NamespaceTable.SideTable.constructor | emitter/_helpers/_namespace.py:8 | the side table starts empty |
| NamespaceTable.SideTable.Resolve | emitter/_helpers/_namespace.py:11-27 | `None` is a ValueError; a registry passes through; an attached registry wins; an object that cannot be weakly referenced is a TypeError, with the table unchanged; otherwise the table entry is returned, or a new one is stored |
| NamespaceTable.ResolveTwice | emitter/_helpers/_namespace.py:19-25 | for a weakly referenceable object without an attached registry, two resolutions return the same registry, and an incompatible attribute is ignored |
| NamespaceTable.ResolveUnweakrefable | emitter/_helpers/_namespace.py:20-25 | an object that cannot be weakly referenced is a TypeError on every resolution, and the table does not change |
| LoopBinding.RetrieveLoop | emitter/_helpers/retrieve_loop_from_listener.py:10-41 | only the listener's `__loop__` can change, only from unset to a weak reference to the given loop, and then that loop is returned |
| LoopBinding.BindOrNone | emitter/_helpers/retrieve_loop_from_listener.py:25-32 | without a loop nothing is stored; an unwritable listener is an AttributeError |
| LoopBinding.BindSticks | emitter/_helpers/retrieve_loop_from_listener.py:16-27 | once bound, every call returns that loop whatever loop it is given, until the loop is collected, which is ListenerMissingEventLoopError |
| LoopBinding.UnboundCases | emitter/_helpers/retrieve_loop_from_listener.py:25-39 | unbound with no loop gives None and stores nothing; unbound and unwritable with a loop gives AttributeError |
| LoopBinding.BoundIgnoresArgument | emitter/_helpers/retrieve_loop_from_listener.py:16-39 | a listener bound to a live loop returns that loop, so a different requested loop is never returned |
| LoopBinding.OtherValueRejected | emitter/_helpers/retrieve_loop_from_listener.py:33-41 | any other `__loop__` value is a ValueError |
| LoopCheck.CheckLoop | emitter/_helpers/_loop.py:10-26 | unset gives None, a running loop is returned, a stopped one is ListenerStoppedEventLoopError, and anything else is a ValueError; `_helpers/loop.py:56-72` is the same function |
| LoopLegacy.Target | emitter/_helpers/loop.py:25-31 | the wrapper forwards to the listener it wraps |
| LoopLegacy.BindLoopToListener | emitter/_helpers/loop.py:34-53 | only a writable listener without `__loop__` gets the attribute; a different loop is a ValueError; the result always reaches the listener and carries the loop |
| LoopLegacy.BindShapes | emitter/_helpers/loop.py:45-53 | a writable unbound listener is returned itself; an unwritable one, or one whose attribute is not a loop, is wrapped |
| LoopLegacy.BindIdempotent | emitter/_helpers/loop.py:37-44 | binding the same loop again returns the listener unchanged |
| LoopLegacy.BindThenCheck | emitter/_helpers/loop.py:34-72 | a bound result yields its loop while the loop runs and ListenerStoppedEventLoopError once it stops |

## Left out

- Running a listener: the cross-loop bridge `_exec_listener` / `_exec_listener_thread_safe`
  (`emitter/_emit.py:18-103`), with its futures, `ensure_future` and `call_soon_threadsafe`
  across threads, is an outcome per invocation. A stale listener loop appears as a `Raised`
  outcome.
- The loop's exception handler is an append-only log of reported exceptions; the `future` and
  message it receives are not modelled.
- `exc.__context__ = inner_exc` (`emitter/_emit.py:140-141`) is not modelled: exception chaining
  changes no registry and no result.
- Concurrency: emissions are sequential. Listeners that change registries while they run are
  not modelled, because listener bodies are outcomes. The bucket snapshot and the check that a
  fire-once entry is still live are modelled.
- `if listener:` in `remove` (`emitter/_remove.py:89`) takes listeners as truthy. A listener
  whose `__bool__` is false is not modelled.
- Identity of new mappings: `new_listener_mapping` returns a value, so "each call returns an
  independent object" is not stated. Independence of registries is the fresh registry id that
  the namespace resolvers hand out.
- Namespaces.Resolve: `_helpers/retrieve_listeners_from_namespace.py:12-24` tests for, and
  creates, an instance of the class `Listeners` (`emitter/_types.py:35-44`). That class has
  only the slots `scope` and `types` and cannot be indexed by an event type. So with an object
  namespace, the snapshot fails with TypeError:
  - `on` at `emitter/_on.py:114`;
  - `emit` at `emitter/_emit.py:187`, including the re-emission of a listener's error at
    `emitter/_emit.py:131-143`;
  - `retrieve` at `emitter/_retrieve.py:37`.
  - `remove` at `emitter/_remove.py:81-107`, where it clears, indexes or
    deletes from the registry.
  The model instead attaches, and accepts, the nested mapping that
  `_helpers/new_listener_mapping.py:5-37` builds. The package documents that mapping as the way
  to give a namespace its registry, and every other module indexes that mapping. Those TypeErrors
  are therefore not modelled.
- Weak references: the side table of `_helpers/_namespace.py` never drops entries, and a
  collected loop is membership in `Facts.collected`. Garbage collection itself is not modelled.
  A namespace that cannot be weakly referenced is modelled: it is a TypeError there.
- Event-loop state: `is_running()` is membership in a set of running loops, and
  `get_running_loop()` is a parameter.
- The UUID drawn by `uuid4()` is a parameter of the context constructor.
- Contexts.Context.Add: Python's recursion depth is the `frames` budget, started at the default
  limit of 1000 by `Enter`. Frames already used by the caller are not counted.
- Python values in general: classes are given by their `mro()` lists in `Facts`, and every
  listener, namespace and event is an opaque object identified by a number.
- `emitter/_wait.py`, `emitter/__init__.py`, `emitter/errors.py`, `emitter/error.py`,
  `emitter/_helpers/get_running_loop.py`, `emitter/_helpers/contextvars.py` and
  `docs/generate.py` are not part of this model. They are, in order: a future-awaiting helper
  from another snapshot, re-exports, exception declarations, interpreter polyfills, and
  documentation I/O.

## Findings

| source | as written | input that shows it | evidently intended | confidence | as-written member | corrected member |
|---|---|---|---|---|---|---|
| emitter/_remove.py:88-97 | deletes `listeners[event_type][listeners_scope]` while iterating the live `items()` view of that same dict, so CPython raises RuntimeError ("dictionary changed size during iteration") at the next iteration step | a registry `{T: {(): {L: NOP}}}` and `remove(T, L)`: the only bucket is emptied and deleted, and then the iteration fails, leaving `T` with no scopes | iterate over a copy of the filtered pairs: every passing bucket loses the listener or goes, an emptied type is deleted, and the flag is returned | not executed | Removal.RemoveAsWrittenRaises | Removal.SweepPrunes |
