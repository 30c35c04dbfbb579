/** Properties of short call sequences on one type: the lifecycle of a
    resolution item and of an instantiation item as the container's test
    suite exercises them. */
module Scenarios {
  import opened Optional
  import Items
  import opened Container

  /** A resolution item hands out a new value on every `resolve` and keeps
      nothing: two successive resolves give two distinct values. */
  lemma ResolutionNeverShares(s: State, t: Items.TypeKey)
    requires Valid(s) && t in s.registry && s.registry[t].stance == Items.Resolution
    ensures var r1 := Resolve(s, t); var r2 := Resolve(r1.state, t);
            && r1.result.Some? && r2.result.Some?
            && r1.result != r2.result
            && r2.state.registry == s.registry
  {
  }

  /** An instantiation item with nothing cached is filled by the first
      `resolve`; the second returns the identical value and changes nothing. */
  lemma InstantiationCachesFirst(s: State, t: Items.TypeKey)
    requires Valid(s) && t in s.registry && s.registry[t].stance == Items.Instantiation
    requires s.registry[t].instance.None?
    ensures var r1 := Resolve(s, t); var r2 := Resolve(r1.state, t);
            && r1.result.Some?
            && r1.state.registry[t].instance == r1.result
            && r2 == Step(r1.state, r1.result)
  {
  }

  /** Re-registering a type drops the previous item and its cached value:
      the next `resolve` produces a new value rather than the old one. */
  lemma RegisterReplaces(s: State, t: Items.TypeKey)
    requires Valid(s) && t in s.registry && s.registry[t].instance.Some?
    ensures var r := Resolve(RegisterInstance(s, t), t);
            r.result.Some? && r.result != s.registry[t].instance
    ensures var r := Resolve(RegisterResolver(s, t), t);
            r.result.Some? && r.result != s.registry[t].instance
  {
  }

  /** `discard` on a filled instantiation item returns the cached value and
      empties the item: the next `resolve` produces a different value, and a
      second `discard` returns nothing. */
  lemma DiscardThenResolve(s: State, t: Items.TypeKey)
    requires Valid(s) && t in s.registry && s.registry[t].stance == Items.Instantiation
    requires s.registry[t].instance.Some?
    ensures var d := Discard(s, t);
            && d.result == s.registry[t].instance
            && Discard(d.state, t).result.None?
            && Resolve(d.state, t).result.Some?
            && Resolve(d.state, t).result != d.result
  {
  }

  /** After `unregister(t)` resolving `t` returns nothing, while other
      types resolve exactly as before. */
  lemma UnregisterThenResolve(s: State, t: Items.TypeKey, u: Items.TypeKey)
    requires u != t
    ensures Resolve(Unregister(s, t), t) == Step(Unregister(s, t), None)
    ensures Resolve(Unregister(s, t), u).result == Resolve(s, u).result
  {
  }

  /** After `unregisterAll()` no type resolves. */
  lemma UnregisterAllThenResolve(s: State, t: Items.TypeKey)
    ensures Resolve(UnregisterAll(s), t).result.None?
  {
  }

  /** The "registered instance" block of the test suite: register, resolve,
      resolve again (identical), discard (gives the first instance back),
      resolve (a different instance). */
  lemma InstanceTestScenario(s: State, t: Items.TypeKey)
    requires Valid(s)
    ensures var r0 := Resolve(RegisterInstance(s, t), t);
            var r1 := Resolve(r0.state, t);
            var d := Discard(r1.state, t);
            var r2 := Resolve(d.state, t);
            && r0.result.Some?
            && r1.result == r0.result
            && d.result == r0.result
            && r2.result.Some? && r2.result != r0.result
  {
  }

  /** `n` successive `resolve` calls for a registered type: a resolution
      item yields `n` pairwise distinct values and keeps nothing; an
      instantiation item yields the same value `n` times, the one it already
      held if it held one. */
  method ResolveRepeatedly(s: State, t: Items.TypeKey, n: nat) returns (s': State, results: seq<Items.Value>)
    requires Valid(s) && t in s.registry
    ensures Valid(s') && s'.registry.Keys == s.registry.Keys
    ensures |results| == n
    ensures forall i :: 0 <= i < n ==> results[i].ty == t
    ensures s.registry[t].stance == Items.Resolution ==>
              && s'.registry == s.registry
              && forall i, j :: 0 <= i < j < n ==> results[i] != results[j]
    ensures s.registry[t].stance == Items.Instantiation ==>
              forall i :: 0 <= i < n ==> results[i] == results[0]
    // an instantiation item runs its producer at most once, and ends up holding the value it returned
    ensures s.registry[t].stance == Items.Instantiation ==>
              && s'.nextId <= s.nextId + 1
              && (n > 0 ==> s'.registry[t].instance == Some(results[0]))
    ensures s.registry[t].stance == Items.Instantiation && s.registry[t].instance.Some? ==>
              forall i :: 0 <= i < n ==> Some(results[i]) == s.registry[t].instance
  {
    s' := s;
    results := [];
    while |results| < n
      invariant |results| <= n
      invariant Valid(s') && s'.registry.Keys == s.registry.Keys
      invariant s'.registry[t].stance == s.registry[t].stance
      invariant forall i :: 0 <= i < |results| ==> results[i].ty == t
      invariant s.registry[t].stance == Items.Resolution ==>
                  && s'.registry == s.registry
                  && (forall i :: 0 <= i < |results| ==> results[i].id < s'.nextId)
                  && (forall i, j :: 0 <= i < j < |results| ==> results[i].id < results[j].id)
      invariant s.registry[t].stance == Items.Instantiation && |results| > 0 ==>
                  && s'.registry[t].instance == Some(results[0])
                  && forall i :: 0 <= i < |results| ==> results[i] == results[0]
      invariant s.registry[t].stance == Items.Instantiation && s.registry[t].instance.Some? ==>
                  s'.registry[t].instance == s.registry[t].instance
      invariant s.registry[t].stance == Items.Instantiation ==>
                  s'.nextId <= s.nextId + 1 && (|results| == 0 ==> s'.nextId == s.nextId)
      invariant s.registry[t].stance == Items.Instantiation && s'.nextId == s.nextId + 1 ==>
                  s'.registry[t].instance.Some?
      decreases n - |results|
    {
      var r := Resolve(s', t);
      s' := r.state;
      results := results + [r.result.value];
    }
  }

}
