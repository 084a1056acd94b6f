/**
 The registry `Singleton`: a map from a type's identity key to the one cell that holds the
 value of that type. `set` inserts or silently overwrites; the lookups find the cell by key
 and then downcast its contents to the requested type.
 */
module Singly {
  import opened Wrappers
  import opened Any
  import InnerCell

  /** Rust's `usize`, the type of the capacity hint. */
  type Usize = n: int | 0 <= n < 0x1_0000_0000_0000_0000

  datatype Singleton<V> = Singleton(storage: map<TypeKey, InnerCell.Inner<V>>)

  /**
   The registry invariant: the cell stored under a key holds a value of exactly that type,
   so a downcast after a successful lookup cannot fail.
   */
  predicate Wf<V>(s: Singleton<V>) {
    forall k :: k in s.storage ==> Is(InnerCell.Get(s.storage[k]), k)
  }

  /** `Singleton::new`: an empty registry. */
  function New<V>(): (s: Singleton<V>)
    ensures Wf(s)
    ensures forall t :: TryGet(s, t) == None
  {
    Singleton(map[])
  }

  /** `Singleton::with_capacity`: the capacity only pre-sizes the hash table. */
  function WithCapacity<V>(capacity: Usize): (s: Singleton<V>)
    ensures s == New()
  {
    Singleton(map[])
  }

  /** `Singleton::set::<T>(data)`: store `v` under `t`, dropping any earlier value of that type. */
  function Set<V>(s: Singleton<V>, t: TypeKey, v: V): (r: Singleton<V>)
    ensures TryGet(r, t) == Some(v)
    ensures r.storage.Keys == s.storage.Keys + {t}
    ensures |r.storage| == if t in s.storage then |s.storage| else |s.storage| + 1
    ensures forall u :: u in s.storage && u != t ==> r.storage[u] == s.storage[u]
    ensures Wf(s) ==> Wf(r)
  {
    var r := Singleton(s.storage[t := InnerCell.New(t, v)]);
    assert r.storage.Keys == s.storage.Keys + {t};
    r
  }

  /** `Singleton::try_get::<T>`: look the key up, then downcast the shared view. */
  function TryGet<V>(s: Singleton<V>, t: TypeKey): (r: Option<V>)
    ensures t !in s.storage ==> r == None
    ensures r.Some? ==> t in s.storage && InnerCell.Get(s.storage[t]) == Erase(t, r.value)
    ensures Wf(s) && t in s.storage ==> r.Some?
  {
    if t in s.storage then Downcast(InnerCell.Get(s.storage[t]), t) else None
  }

  /** `Singleton::get::<T>`: `try_get` unwrapped; the Rust code panics when it is `None`. */
  function Get<V>(s: Singleton<V>, t: TypeKey): (r: V)
    requires TryGet(s, t).Some?
    ensures t in s.storage && InnerCell.Get(s.storage[t]) == Erase(t, r)
  {
    TryGet(s, t).value
  }

  /** An exclusive reference `&mut T` into the registry, for the type keyed by `key`. */
  datatype MutRef = MutRef(key: TypeKey)

  /** The reference is live: its cell exists and the downcast to its type succeeded. */
  predicate Points<V>(s: Singleton<V>, m: MutRef) {
    m.key in s.storage && Is(InnerCell.GetMut(s.storage[m.key]), m.key)
  }

  /** `Singleton::try_get_mut::<T>`: look the key up, then downcast the exclusive view. */
  function TryGetMut<V>(s: Singleton<V>, t: TypeKey): (r: Option<MutRef>)
    ensures r.Some? <==> TryGet(s, t).Some?
    ensures r.Some? ==> r.value.key == t && Points(s, r.value)
  {
    if t in s.storage && Downcast(InnerCell.GetMut(s.storage[t]), t).Some? then Some(MutRef(t))
    else None
  }

  /** `Singleton::get_mut::<T>`: `try_get_mut` unwrapped; the Rust code panics when it is `None`. */
  function GetMut<V>(s: Singleton<V>, t: TypeKey): (r: MutRef)
    requires TryGetMut(s, t).Some?
    ensures r.key == t && Points(s, r)
  {
    TryGetMut(s, t).value
  }

  /** `*m`: read the value the exclusive reference points at. */
  function Deref<V>(s: Singleton<V>, m: MutRef): (r: V)
    requires Points(s, m)
    ensures TryGet(s, m.key) == Some(r)
  {
    InnerCell.GetMut(s.storage[m.key]).payload
  }

  /** `*m = v`: write through the exclusive reference into the cell it points at. */
  function Assign<V>(s: Singleton<V>, m: MutRef, v: V): (r: Singleton<V>)
    requires Points(s, m)
    ensures TryGet(r, m.key) == Some(v)
    ensures r.storage.Keys == s.storage.Keys
    ensures forall u :: u in s.storage && u != m.key ==> r.storage[u] == s.storage[u]
    ensures Wf(s) ==> Wf(r)
  {
    Singleton(s.storage[m.key := InnerCell.WriteThrough(s.storage[m.key], m.key, v)])
  }

  // Properties relating several calls.

  /** `set(v)` followed by `get::<T>()` / `try_get::<T>()` returns `v`. */
  lemma SetThenGet<V>(s: Singleton<V>, t: TypeKey, v: V)
    ensures TryGet(Set(s, t, v), t) == Some(v)
    ensures Get(Set(s, t, v), t) == v
  {
  }

  /** The last `set` for a type wins; the earlier value is no longer reachable at all. */
  lemma SetOverwrites<V>(s: Singleton<V>, t: TypeKey, v1: V, v2: V)
    ensures Set(Set(s, t, v1), t, v2) == Set(s, t, v2)
  {
  }

  /** A `set` on one type leaves every other type's lookup as it was. */
  lemma SetLeavesOthers<V>(s: Singleton<V>, t: TypeKey, v: V, u: TypeKey)
    requires u != t
    ensures TryGet(Set(s, t, v), u) == TryGet(s, u)
    ensures TryGetMut(Set(s, t, v), u) == TryGetMut(s, u)
  {
  }

  /** A type with no entry: the fallible lookups return `None`; `get` / `get_mut` would panic. */
  lemma AbsentIsNone<V>(s: Singleton<V>, t: TypeKey)
    requires t !in s.storage
    ensures TryGet(s, t) == None && TryGetMut(s, t) == None
  {
  }

  /** In a well-formed registry the lookups succeed exactly for the types that have an entry. */
  lemma PresentIsSome<V>(s: Singleton<V>, t: TypeKey)
    requires Wf(s)
    ensures TryGet(s, t).Some? <==> t in s.storage
    ensures TryGetMut(s, t).Some? <==> t in s.storage
  {
  }

  /** A value written through `try_get_mut` / `get_mut` is what the next `get` returns; nothing else moves. */
  lemma AssignThenGet<V>(s: Singleton<V>, t: TypeKey, v: V, u: TypeKey)
    requires TryGetMut(s, t).Some?
    ensures Get(Assign(s, GetMut(s, t), v), t) == v
    ensures u != t ==> TryGet(Assign(s, GetMut(s, t), v), u) == TryGet(s, u)
  {
  }
}
