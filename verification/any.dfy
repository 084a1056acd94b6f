/**
 Type erasure as provided by `core::any`: a type identity key, an erased value that
 remembers the key of the type it was created from, and the checked downcast back.

 The payloads of every Rust type are drawn from one universe `V`; what makes a payload
 "an i32" or "a Counter" is the tag it is erased under.
 */
module Any {
  import opened Wrappers

  /** `TypeId`: two keys are equal exactly when they name the same type. */
  datatype TypeKey = TypeKey(name: string)

  /** A `dyn Any` value: the payload together with the identity of its concrete type. */
  datatype Erased<V> = Erased(tag: TypeKey, payload: V)

  /** `value as dyn Any` for a value of the type keyed by `t`. */
  function Erase<V>(t: TypeKey, v: V): (e: Erased<V>)
    ensures Is(e, t)
  {
    Erased(t, v)
  }

  /** `Any::is::<T>`: the erased value was created from type `t`. */
  predicate Is<V>(e: Erased<V>, t: TypeKey) {
    e.tag == t
  }

  /**
   `downcast_ref::<T>` / `downcast_mut::<T>`: the payload when `e` holds a value of the
   requested type, nothing otherwise.
   */
  function Downcast<V>(e: Erased<V>, t: TypeKey): (r: Option<V>)
    ensures r.Some? <==> Is(e, t)
    ensures r.Some? ==> Erase(t, r.value) == e
  {
    if e.tag == t then Some(e.payload) else None
  }

  /** Erasing and downcasting to the same type gives the value back; to any other type, nothing. */
  lemma DowncastErase<V>(t: TypeKey, v: V, u: TypeKey)
    ensures Downcast(Erase(t, v), u) == if u == t then Some(v) else None
  {
  }
}
