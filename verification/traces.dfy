/** Sequences of container operations, and the properties that hold across
    whole sequences of calls rather than one call. */
module Traces {
  import opened Optional
  import opened Items
  import Container

  /** One public call on the container. */
  datatype Op =
    | RegisterResolver(t: TypeKey)
    | RegisterInstance(t: TypeKey)
    | Unregister(t: TypeKey)
    | UnregisterAll
    | Resolve(t: TypeKey)
    | Discard(t: TypeKey)

  /** Performs one call. */
  function Apply(s: Container.State, op: Op): Container.Step
  {
    match op
    case RegisterResolver(t) => Container.Step(Container.RegisterResolver(s, t), None)
    case RegisterInstance(t) => Container.Step(Container.RegisterInstance(s, t), None)
    case Unregister(t) => Container.Step(Container.Unregister(s, t), None)
    case UnregisterAll => Container.Step(Container.UnregisterAll(s), None)
    case Resolve(t) => Container.Resolve(s, t)
    case Discard(t) => Container.Discard(s, t)
  }

  /** Performs the calls in order and returns the final state. */
  function Run(s: Container.State, ops: seq<Op>): Container.State
    decreases |ops|
  {
    if |ops| == 0 then s else Run(Apply(s, ops[0]).state, ops[1..])
  }

  /** `op` installs a new item for `t`. */
  predicate Registers(op: Op, t: TypeKey)
  {
    op == RegisterResolver(t) || op == RegisterInstance(t)
  }

  /** `op` can replace, remove or empty the item for `t`. */
  predicate Disturbs(op: Op, t: TypeKey)
  {
    Registers(op, t) || op == Unregister(t) || op == UnregisterAll || op == Discard(t)
  }

  /** `v` was handed out and no item caches it any more. */
  ghost predicate Released(s: Container.State, v: Value)
  {
    Container.Issued(s, v) && !Container.Held(s, v)
  }

  /** One call keeps the container valid and never lowers the counter. */
  lemma ApplyPreservesValid(s: Container.State, op: Op)
    requires Container.Valid(s)
    ensures Container.Valid(Apply(s, op).state)
    ensures Apply(s, op).state.nextId >= s.nextId
  {
  }

  /** Every sequence of calls keeps the container valid and never lowers the
      counter, so the producer's values stay distinct from all earlier ones. */
  lemma {:induction false} RunPreservesValid(s: Container.State, ops: seq<Op>)
    requires Container.Valid(s)
    ensures Container.Valid(Run(s, ops))
    ensures Run(s, ops).nextId >= s.nextId
    decreases |ops|
  {
    if |ops| > 0 {
      ApplyPreservesValid(s, ops[0]);
      RunPreservesValid(Apply(s, ops[0]).state, ops[1..]);
    }
  }

  /** Because both `register` forms file the item under the producer's own
      type, narrowing never fails: in any container reached from `init`,
      every registered type resolves to an instance. */
  lemma NarrowingNeverFails(ops: seq<Op>, t: TypeKey)
    requires t in Run(Container.Init(), ops).registry
    ensures Container.Resolve(Run(Container.Init(), ops), t).result.Some?
  {
    RunPreservesValid(Container.Init(), ops);
  }

  /** Once `t` is unregistered, `resolve` for `t` returns nothing until some
      call registers `t` again. */
  lemma {:induction false} AbsentUntilRegistered(s: Container.State, t: TypeKey, ops: seq<Op>)
    requires t !in s.registry
    requires forall i :: 0 <= i < |ops| ==> !Registers(ops[i], t)
    ensures t !in Run(s, ops).registry
    ensures Container.Resolve(Run(s, ops), t) == Container.Step(Run(s, ops), None)
    decreases |ops|
  {
    if |ops| > 0 {
      assert !Registers(ops[0], t);
      AbsentUntilRegistered(Apply(s, ops[0]).state, t, ops[1..]);
    }
  }

  /** No call puts a released value back into a cache: whatever a call
      newly caches is a value it has just produced. */
  lemma ApplyKeepsReleased(s: Container.State, op: Op, v: Value)
    requires Container.Valid(s) && Released(s, v)
    ensures Released(Apply(s, op).state, v)
  {
    var s' := Apply(s, op).state;
    forall k | k in s'.registry
      ensures s'.registry[k].instance != Some(v)
    {
      if k in s.registry && s'.registry[k] != s.registry[k] {
        assert s'.registry[k].instance.Some? ==> s'.registry[k].instance.value.id == s.nextId;
      }
    }
  }

  /** A value that was handed out and is cached nowhere is never returned
      again by any later `resolve` or `discard`. */
  lemma {:induction false} ReleasedNeverReturns(s: Container.State, v: Value, ops: seq<Op>, t: TypeKey)
    requires Container.Valid(s) && Released(s, v)
    ensures Released(Run(s, ops), v)
    ensures Container.Resolve(Run(s, ops), t).result != Some(v)
    ensures Container.Discard(Run(s, ops), t).result != Some(v)
    decreases |ops|
  {
    if |ops| > 0 {
      ApplyKeepsReleased(s, ops[0], v);
      ApplyPreservesValid(s, ops[0]);
      ReleasedNeverReturns(Apply(s, ops[0]).state, v, ops[1..], t);
    } else {
      if t in s.registry && s.registry[t].stance == Instantiation && s.registry[t].instance.None? {
        assert Container.Resolve(s, t).state.registry[t].instance.value.id == s.nextId;
      }
    }
  }

  /** The value a successful `discard` returns is released: it is never
      resolved or discarded again, whatever calls follow. */
  lemma DiscardReleases(s: Container.State, t: TypeKey, ops: seq<Op>, u: TypeKey)
    requires Container.Valid(s)
    requires Container.Discard(s, t).result.Some?
    ensures Container.Resolve(Run(Container.Discard(s, t).state, ops), u).result != Container.Discard(s, t).result
    ensures Container.Discard(Run(Container.Discard(s, t).state, ops), u).result != Container.Discard(s, t).result
  {
    var r := Container.Discard(s, t);
    var v := r.result.value;
    assert Released(r.state, v);
    ReleasedNeverReturns(r.state, v, ops, u);
  }

  /** An instantiation item that holds `v` keeps returning `v` through any
      calls that do not re-register, unregister or discard its type. */
  lemma {:induction false} SingletonStable(s: Container.State, t: TypeKey, v: Value, ops: seq<Op>)
    requires Container.Valid(s)
    requires t in s.registry && s.registry[t].stance == Instantiation && s.registry[t].instance == Some(v)
    requires forall i :: 0 <= i < |ops| ==> !Disturbs(ops[i], t)
    ensures t in Run(s, ops).registry && Run(s, ops).registry[t] == s.registry[t]
    ensures Container.Resolve(Run(s, ops), t) == Container.Step(Run(s, ops), Some(v))
    decreases |ops|
  {
    if |ops| > 0 {
      assert !Disturbs(ops[0], t);
      ApplyPreservesValid(s, ops[0]);
      SingletonStable(Apply(s, ops[0]).state, t, v, ops[1..]);
    }
  }

}
