# ResolvingContainer, modelled in Dafny

A model of `ResolvingContainer`, a Swift type-keyed object registry. A caller
registers a producer for a type `T`, then asks the container to `resolve`
`T`. Each registration (an `Item`) has a fixed stance:

- `.resolution` runs the producer on every `resolve`;
- `.instantiation` runs it once, caches the result, and hands out that cached
  instance until `discard` empties it.

`unregister` removes one type and `unregisterAll` removes every type.

The model is functional. The container state is a `map<TypeKey, Item>` plus
a counter `nextId`. Every operation is a pure transition that returns the
new state and, where the Swift method returns `T?`, an `Option<Value>`.
Running a producer is modelled as drawing `Value(nextId, T)` and advancing
the counter. So `nextId` counts producer invocations, and every value
produced is distinct from every value produced before it. A `Value` carries
the type it was produced as. Swift's `x as? T` then becomes a comparison
of that tag with the requested type key.

Files:

- `optional.dfy`: `Option`.
- `items.dfy`: `TypeKey`, `Value`, `Stance`, `Item`, and `Item.resolve`/`Item.discard`.
- `container.dfy`: the container state, the validity invariant, and the six public operations.
- `traces.dfy`: sequences of calls, with inductive lemmas over whole sequences.
- `scenarios.dfy`: short call sequences from the test suite, and a loop that resolves `n` times.

The container's public surface is small:

- An item has exactly two stances, `.resolution` and `.instantiation`
  (ResolvingContainer.swift:38-41).
- `unregister` returns nothing; it only removes the key
  (ResolvingContainer.swift:98-100).

Two details of the code are kept:

- An instantiation item caches the produced value before the `as? T`
  narrowing.
- `discard` clears the cache before narrowing.

So if narrowing failed, the cache would still be filled or cleared.
`Traces.NarrowingNeverFails` shows that narrowing cannot fail in any
container reached from `init`.

## Model

| member | source | states |
|---|---|---|
| Items.Resolve | ResolvingContainer/ResolvingContainer.swift:53-61 | A resolution item runs the producer once per call and never caches. An instantiation item runs the producer only while its cache is empty. It then caches exactly the value just produced, and afterwards returns the cached instance. The result always has the requested type. On a well-keyed item, narrowing succeeds exactly for the item's own type. |
| Items.Discard | ResolvingContainer/ResolvingContainer.swift:63-72 | Never runs the producer. A resolution item returns nothing and is unchanged. An instantiation item is left empty and returns exactly the value it held. |
| Container.Init | ResolvingContainer/ResolvingContainer.swift:79-82 | A new container has an empty registry and is valid. |
| Container.RegisterResolver | ResolvingContainer/ResolvingContainer.swift:86-88 | Installs an empty resolution item under `T`'s key, replacing any earlier item. Does not run the producer. Leaves every other key unchanged and keeps the container valid. |
| Container.RegisterInstance | ResolvingContainer/ResolvingContainer.swift:92-94 | Installs an empty instantiation item under `T`'s key, replacing any earlier item. The autoclosure is not evaluated (the counter is unchanged). Every other key is unchanged. |
| Container.Unregister | ResolvingContainer/ResolvingContainer.swift:98-100 | Removes exactly `T`'s key. Every other item and its cache is kept. Unregistering an absent key changes nothing. |
| Container.UnregisterAll | ResolvingContainer/ResolvingContainer.swift:103-105 | Afterwards no key is registered. |
| Container.Resolve | ResolvingContainer/ResolvingContainer.swift:110-117 | An unregistered type yields nothing and changes nothing. A resolution item yields a value never handed out before and its cache stays empty. A filled instantiation item returns its instance without running the producer. An empty one runs the producer once and caches a value never handed out before. Other keys are unchanged. In a valid container, the result is present exactly when the type is registered. |
| Container.Discard | ResolvingContainer/ResolvingContainer.swift:122-129 | Never runs a producer. With nothing registered, or with a resolution item, it returns nothing and changes nothing. An instantiation item is emptied but stays registered. The value returned is exactly the one that was cached. |
| Traces.RunPreservesValid | ResolvingContainer/ResolvingContainer.swift:84-129 | Every sequence of calls keeps each item filed under its producer's own type and never lowers the producer counter. |
| Traces.NarrowingNeverFails | ResolvingContainer/ResolvingContainer.swift:86-94 | Both `register` forms key the item by the producer's type. So in any container reached from `init`, every registered type resolves to an instance, and the `as? T` narrowing never fails. |
| Traces.AbsentUntilRegistered | ResolvingContainer/ResolvingContainer.swift:98-100 | After `unregister(T)`, `resolve(T)` returns nothing through any calls that do not register `T` again. |
| Traces.ApplyKeepsReleased | ResolvingContainer/ResolvingContainer.swift:57-72 | No call puts a value that has been handed out and released back into any cache. |
| Traces.ReleasedNeverReturns | ResolvingContainer/ResolvingContainer.swift:57-72 | Once a value has been handed out and is cached nowhere, no later `resolve` or `discard` returns it, after any sequence of calls. |
| Traces.DiscardReleases | ResolvingContainer/ResolvingContainer.swift:119-129 | The value a successful `discard` returns is never resolved or discarded again, whatever calls follow. |
| Traces.SingletonStable | ResolvingContainer/ResolvingContainer.swift:57-59 | An instantiation item holding `v` keeps returning `v` without running its producer. This holds through any calls that do not re-register, unregister or discard its type. |
| Scenarios.ResolutionNeverShares | ResolvingContainer/ResolvingContainer.swift:55-56 | Two successive resolves of a resolution item return two distinct values, and the registry is unchanged. |
| Scenarios.InstantiationCachesFirst | ResolvingContainer/ResolvingContainer.swift:57-59 | The first resolve of an empty instantiation item fills its cache with the returned value. The second returns the identical value and changes nothing. |
| Scenarios.RegisterReplaces | ResolvingContainer/ResolvingContainer.swift:86-94 | Re-registering a type drops the old item's cached value. The next resolve produces a different value. |
| Scenarios.DiscardThenResolve | ResolvingContainer/ResolvingContainer.swift:63-72 | Discarding a filled instantiation item returns its value. The next resolve produces a different value, and a second discard returns nothing. |
| Scenarios.UnregisterThenResolve | ResolvingContainer/ResolvingContainer.swift:98-100 | After `unregister(T)`, `T` resolves to nothing and every other type resolves as before. |
| Scenarios.UnregisterAllThenResolve | ResolvingContainer/ResolvingContainer.swift:103-105 | After `unregisterAll()`, no type resolves. |
| Scenarios.InstanceTestScenario | ResolvingContainerTests/ResolvingContainerTests.swift:53-93 | Register an instance, then resolve twice: both return the identical value. Discarding returns that value, and the next resolve returns a different one. |
| Scenarios.ResolveRepeatedly | ResolvingContainer/ResolvingContainer.swift:53-61 | `n` resolves of a resolution item give `n` pairwise distinct values. `n` resolves of an instantiation item give one value `n` times, and that value is the cached one if the item was already filled. The producer of an instantiation item runs at most once, and the item ends up holding the value returned. |

## Left out

- The `sync` wrapper and `DispatchQueue.isRunning` (ResolvingContainer.swift:131-151). They provide serial-queue mutual exclusion and re-entrancy. Every operation is modelled as one atomic step.
- Producers that call back into the container while they run (re-entrancy) are not modelled. A producer is one atomic draw from the counter.
- The `qos` initializer parameter. It only affects scheduling priority.
- The producer closure itself. It is assumed to build a new object on each call, as `{ TestValue() }` in the tests does. A closure that returns one shared object, or a value type without identity, is not modelled.
- Swift's runtime type identity and subtyping in `as? T`. A type is an abstract `TypeKey`, and narrowing is equality of keys.
- `Package.swift` and the Quick/Nimble test harness. The tests appear only as the scenarios they check.
