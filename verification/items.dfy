/** One registration of the container: a fixed stance, a producer and an
    optional cached instance (the private `Item` class of
    ResolvingContainer.swift). */
module Items {
  import opened Optional

  /** The identity of a Swift type, `ObjectIdentifier(T.self)`: equal for
      the same type, distinct for distinct types. */
  datatype TypeKey = TypeKey(id: nat)

  /** An instance handed out by a producer. `id` is its object identity and
      `ty` the type it was produced as; the producer of an item registered
      for `T` always yields values of type `T`. */
  datatype Value = Value(id: nat, ty: TypeKey)

  /** `.resolution` produces a new value on every call, `.instantiation`
      produces once and caches the value. */
  datatype Stance = Resolution | Instantiation

  /** The producer closure is represented by the type it produces,
      `declaredType`; what it yields is drawn from the container's counter
      (see `Produce`). */
  datatype Item = Item(stance: Stance, declaredType: TypeKey, instance: Option<Value>)

  /** What one call on an item leaves behind: the updated item, the advanced
      counter and the (narrowed) result. */
  datatype Outcome = Outcome(item: Item, nextId: nat, result: Option<Value>)

  /** Invoking the producer: a brand-new object of the declared type whose
      identity is the counter's current value. */
  function Produce(item: Item, nextId: nat): Value
  {
    Value(nextId, item.declaredType)
  }

  /** Swift's `v as? T` for the exact type key `requested`. */
  function Narrow(v: Value, requested: TypeKey): Option<Value>
  {
    if v.ty == requested then Some(v) else None
  }

  /** An item as the container keeps it under `key` while the counter stands
      at `nextId`: it produces values of the key's type, a resolution item
      never caches, and a cached instance has the key's type and an identity
      already handed out. */
  predicate WellKeyed(item: Item, key: TypeKey, nextId: nat)
  {
    && item.declaredType == key
    && (item.stance == Resolution ==> item.instance.None?)
    && (item.instance.Some? ==> item.instance.value.ty == key && item.instance.value.id < nextId)
  }

  /** `Item.resolve`. The producer is invoked `r.nextId - nextId` times. */
  function Resolve(item: Item, nextId: nat, requested: TypeKey): (r: Outcome)
    // stance and producer are fixed for the item's life
    ensures r.item.stance == item.stance && r.item.declaredType == item.declaredType
    // a resolution item invokes the producer on every call and never caches
    ensures item.stance == Resolution ==> r.nextId == nextId + 1 && r.item == item
    // an instantiation item invokes the producer only while nothing is cached ...
    ensures item.stance == Instantiation && item.instance.Some? ==> r.nextId == nextId && r.item == item
    ensures item.stance == Instantiation && item.instance.None? ==> r.nextId == nextId + 1
    // what it then caches is the value the producer has just made
    ensures item.stance == Instantiation && item.instance.None? ==> r.item.instance == Some(Value(nextId, item.declaredType))
    // ... and holds an instance afterwards, which is what the call returns
    ensures item.stance == Instantiation ==> r.item.instance.Some?
    ensures item.stance == Instantiation && r.result.Some? ==> r.item.instance == r.result
    // a value produced by a resolution item was never handed out before
    ensures item.stance == Resolution && r.result.Some? ==> nextId <= r.result.value.id < r.nextId
    // the result always has the requested type
    ensures r.result.Some? ==> r.result.value.ty == requested
    // on a well-keyed item narrowing succeeds exactly for the item's own type
    ensures WellKeyed(item, item.declaredType, nextId) ==> (r.result.Some? <==> requested == item.declaredType)
    // the item stays well keyed
    ensures WellKeyed(item, item.declaredType, nextId) ==> WellKeyed(r.item, item.declaredType, r.nextId)
  {
    match item.stance
    case Resolution =>
      Outcome(item, nextId + 1, Narrow(Produce(item, nextId), requested))
    case Instantiation =>
      var filled := if item.instance.None? then item.(instance := Some(Produce(item, nextId))) else item;
      var next := if item.instance.None? then nextId + 1 else nextId;
      Outcome(filled, next, Narrow(filled.instance.value, requested))
  }

  /** `Item.discard`. Never invokes the producer. */
  function Discard(item: Item, nextId: nat, requested: TypeKey): (r: Outcome)
    ensures r.nextId == nextId
    ensures r.item.stance == item.stance && r.item.declaredType == item.declaredType
    // nothing is cached by a resolution item, so there is nothing to give back
    ensures item.stance == Resolution ==> r.result.None? && r.item == item
    // an instantiation item is left empty and gives back what it held
    ensures item.stance == Instantiation ==> r.item.instance.None?
    ensures r.result.Some? ==> item.instance == r.result && r.result.value.ty == requested
    ensures item.stance == Instantiation && item.instance.Some? && item.instance.value.ty == requested ==> r.result == item.instance
    ensures WellKeyed(item, item.declaredType, nextId) ==> WellKeyed(r.item, item.declaredType, r.nextId)
  {
    match item.stance
    case Resolution =>
      Outcome(item, nextId, None)
    case Instantiation =>
      match item.instance
      case None => Outcome(item, nextId, None)
      case Some(v) => Outcome(item.(instance := None), nextId, Narrow(v, requested))
  }

}
