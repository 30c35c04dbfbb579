/** The `ResolvingContainer` class: a registry from type keys to items. The
    serial-queue wrapper is left out; every operation is one atomic state
    transition. */
module Container {
  import opened Optional
  import opened Items

  /** `registry` is the container's dictionary; `nextId` counts every
      producer invocation so far and is the identity of the next object a
      producer makes. */
  datatype State = State(registry: map<TypeKey, Item>, nextId: nat)

  /** The state after an operation and what the operation returned. */
  datatype Step = Step(state: State, result: Option<Value>)

  /** Every item is filed under the key of the type its producer makes, and
      is well keyed there. */
  ghost predicate Valid(s: State)
  {
    forall k :: k in s.registry ==> WellKeyed(s.registry[k], k, s.nextId)
  }

  /** The two registries agree on every key except `t`. */
  ghost predicate SameExcept(m: map<TypeKey, Item>, m': map<TypeKey, Item>, t: TypeKey)
  {
    forall k :: k != t ==> (k in m <==> k in m') && (k in m ==> m[k] == m'[k])
  }

  /** `v` has been handed out by some producer before. */
  ghost predicate Issued(s: State, v: Value)
  {
    v.id < s.nextId
  }

  /** `v` is cached by some item. */
  ghost predicate Held(s: State, v: Value)
  {
    exists k :: k in s.registry && s.registry[k].instance == Some(v)
  }

  /** `init`: an empty registry. */
  function Init(): (s: State)
    ensures s.registry == map[]
    ensures Valid(s)
  {
    State(map[], 0)
  }

  /** Files a fresh item for `t`, dropping whatever was there. */
  function Install(s: State, t: TypeKey, stance: Stance): State
  {
    s.(registry := s.registry[t := Item(stance, t, None)])
  }

  /** `register(resolver:)`. */
  function RegisterResolver(s: State, t: TypeKey): (s': State)
    // a resolution item with nothing cached now answers for `t`, whatever was there before
    ensures t in s'.registry && s'.registry[t].stance == Resolution
    ensures s'.registry[t].declaredType == t && s'.registry[t].instance.None?
    // every other registration is untouched
    ensures SameExcept(s.registry, s'.registry, t)
    // the producer is not invoked
    ensures s'.nextId == s.nextId
    ensures Valid(s) ==> Valid(s')
  {
    Install(s, t, Resolution)
  }

  /** `register(instance:)`: the autoclosure is stored, not evaluated. */
  function RegisterInstance(s: State, t: TypeKey): (s': State)
    ensures t in s'.registry && s'.registry[t].stance == Instantiation
    ensures s'.registry[t].declaredType == t && s'.registry[t].instance.None?
    ensures SameExcept(s.registry, s'.registry, t)
    ensures s'.nextId == s.nextId
    ensures Valid(s) ==> Valid(s')
  {
    Install(s, t, Instantiation)
  }

  /** `unregister(_:)`. Returns nothing. */
  function Unregister(s: State, t: TypeKey): (s': State)
    ensures t !in s'.registry
    ensures SameExcept(s.registry, s'.registry, t)
    ensures s'.nextId == s.nextId
    // removing an absent key changes nothing
    ensures t !in s.registry ==> s' == s
    ensures Valid(s) ==> Valid(s')
  {
    s.(registry := s.registry - {t})
  }

  /** `unregisterAll()`. */
  function UnregisterAll(s: State): (s': State)
    ensures forall t :: t !in s'.registry
    ensures s'.nextId == s.nextId
    ensures Valid(s')
  {
    s.(registry := map[])
  }

  /** `resolve(_:)`: looks `t` up and asks its item for an instance of `t`. */
  function Resolve(s: State, t: TypeKey): (r: Step)
    // an unregistered type resolves to nothing and changes nothing
    ensures t !in s.registry ==> r.result.None? && r.state == s
    // the set of registered keys never changes, nor does any other item
    ensures r.state.registry.Keys == s.registry.Keys
    ensures SameExcept(s.registry, r.state.registry, t)
    ensures t in s.registry ==> r.state.registry[t].stance == s.registry[t].stance
    // a resolution item is left as it was, but every call produces a value never handed out before
    ensures t in s.registry && s.registry[t].stance == Resolution ==>
              r.state.registry == s.registry && r.state.nextId == s.nextId + 1
    ensures t in s.registry && s.registry[t].stance == Resolution && r.result.Some? ==>
              !Issued(s, r.result.value) && Issued(r.state, r.result.value)
    // an instantiation item that already holds a value returns it without invoking the producer
    ensures t in s.registry && s.registry[t].stance == Instantiation && s.registry[t].instance.Some? ==>
              r.state == s && (Valid(s) ==> r.result == s.registry[t].instance)
    // an instantiation item that holds nothing runs the producer once and caches a value never handed out before
    ensures t in s.registry && s.registry[t].stance == Instantiation && s.registry[t].instance.None? ==>
              && r.state.nextId == s.nextId + 1
              && r.state.registry[t].instance.Some?
              && !Issued(s, r.state.registry[t].instance.value)
    // an instantiation item is filled, and the result is what it now holds
    ensures t in s.registry && s.registry[t].stance == Instantiation ==>
              r.state.registry[t].instance.Some? && (r.result.Some? ==> r.result == r.state.registry[t].instance)
    ensures r.result.Some? ==> r.result.value.ty == t
    // in a valid container narrowing never fails for a registered type
    ensures Valid(s) ==> Valid(r.state) && (r.result.Some? <==> t in s.registry)
  {
    if t !in s.registry then
      Step(s, None)
    else
      var o := Items.Resolve(s.registry[t], s.nextId, t);
      Step(State(s.registry[t := o.item], o.nextId), o.result)
  }

  /** `discard(_:)`: empties `t`'s cache and returns what it held. Never
      invokes a producer. */
  function Discard(s: State, t: TypeKey): (r: Step)
    ensures r.state.nextId == s.nextId
    ensures r.state.registry.Keys == s.registry.Keys
    ensures SameExcept(s.registry, r.state.registry, t)
    // nothing registered, or a resolution item: nothing returned, nothing changed
    ensures t !in s.registry ==> r.result.None? && r.state == s
    ensures t in s.registry && s.registry[t].stance == Resolution ==> r.result.None? && r.state == s
    // an instantiation item is left registered but empty
    ensures t in s.registry ==> r.state.registry[t].stance == s.registry[t].stance
    ensures t in s.registry && s.registry[t].stance == Instantiation ==> r.state.registry[t].instance.None?
    // what is returned is exactly what was cached
    ensures r.result.Some? ==> t in s.registry && s.registry[t].instance == r.result
    ensures Valid(s) && t in s.registry && s.registry[t].instance.Some? ==> r.result == s.registry[t].instance
    ensures Valid(s) ==> Valid(r.state)
  {
    if t !in s.registry then
      Step(s, None)
    else
      var o := Items.Discard(s.registry[t], s.nextId, t);
      Step(State(s.registry[t := o.item], o.nextId), o.result)
  }

}
