/**
 The aliasing cell `Inner`: it holds a raw pointer to one leaked, erased box and hands out a
 shared and an exclusive view of it. The raw-pointer aliasing itself is not modelled; what remains is a
 cell that is created holding one value, can be read, and can be written in place through
 the exclusive view without the stored value's type ever being replaced.
 */
module InnerCell {
  import opened Wrappers
  import opened Any

  datatype Inner<V> = Inner(erased: Erased<V>)

  /** `Inner::new(val)`: box `val` of the type keyed by `t` and store it erased. */
  function New<V>(t: TypeKey, v: V): (c: Inner<V>)
    ensures Downcast(Get(c), t) == Some(v)
    ensures forall u :: u != t ==> Downcast(Get(c), u) == None
  {
    Inner(Erase(t, v))
  }

  /** `Inner::get`: the shared view `&dyn Any`; reading never changes the cell. */
  function Get<V>(c: Inner<V>): Erased<V> {
    c.erased
  }

  /** `Inner::get_mut`: the exclusive view `&mut dyn Any` of the same allocation as `Get`. */
  function GetMut<V>(c: Inner<V>): (e: Erased<V>)
    ensures e == Get(c)
  {
    c.erased
  }

  /**
   `*c.get_mut().downcast_mut::<T>().unwrap() = v`: store `v` through the exclusive view once
   it has been downcast to the cell's own type `t`. Only the payload changes.
   */
  function WriteThrough<V>(c: Inner<V>, t: TypeKey, v: V): (r: Inner<V>)
    requires Is(GetMut(c), t)
    ensures Get(r).tag == Get(c).tag
    ensures Downcast(Get(r), t) == Some(v)
  {
    Inner(Erased(c.erased.tag, v))
  }

  /** The writes `ws`, in order, each through the exclusive view downcast to `t`. */
  function Writes<V>(c: Inner<V>, t: TypeKey, ws: seq<V>): (r: Inner<V>)
    requires Is(GetMut(c), t)
    ensures Is(Get(r), t)
    decreases |ws|
  {
    if ws == [] then c else Writes(WriteThrough(c, t, ws[0]), t, ws[1..])
  }

  /**
   What the shared view yields after `new` and any number of writes: the last value written
   (the original one if there was none), and only under the type the cell was created with.
   */
  lemma {:induction false} GetAfterWrites<V>(t: TypeKey, v: V, ws: seq<V>, u: TypeKey)
    ensures Downcast(Get(Writes(New(t, v), t, ws)), u) ==
            if u != t then None else if ws == [] then Some(v) else Some(ws[|ws| - 1])
    decreases |ws|
  {
    if ws != [] {
      assert WriteThrough(New(t, v), t, ws[0]) == New(t, ws[0]);
      GetAfterWrites(t, ws[0], ws[1..], u);
    }
  }
}
