/**
 The usage patterns the crate documents and tests, stated over the model with integer
 payloads (`12f32` is represented by the integer 12; only its tag `f32` matters here).
 */
module Scenarios {
  import opened Wrappers
  import opened Any
  import opened Singly
  import InnerCell

  const I32 := TypeKey("i32")
  const F32 := TypeKey("f32")
  const CounterKey := TypeKey("Counter")

  /**
   `n` callers in turn each take `try_get_mut::<T>()` and, when it is `Some`, add one through
   the reference. The callers are serialized by a lock the caller supplies, so they run one
   after another here.
   */
  method IncrementTimes(s: Singleton<int>, t: TypeKey, n: nat) returns (r: Singleton<int>)
    requires Wf(s)
    ensures Wf(r)
    ensures TryGet(s, t).Some? ==> TryGet(r, t) == Some(TryGet(s, t).value + n)
    ensures TryGet(s, t).None? ==> r == s
    ensures forall u :: u != t ==> TryGet(r, u) == TryGet(s, u)
  {
    r := s;
    var i := 0;
    while i < n
      invariant 0 <= i <= n
      invariant Wf(r)
      invariant TryGet(s, t).Some? ==> TryGet(r, t) == Some(TryGet(s, t).value + i)
      invariant TryGet(s, t).None? ==> r == s
      invariant forall u :: u != t ==> TryGet(r, u) == TryGet(s, u)
    {
      var m := TryGetMut(r, t);
      if m.Some? {
        r := Assign(r, m.value, Deref(r, m.value) + 1);
      }
      i := i + 1;
    }
  }

  /** Ten serialized increments of a counter set to 0 leave it at 10. */
  method StaticCounter() returns (count: int)
    ensures count == 10
  {
    var s := Set(New<int>(), CounterKey, 0);
    s := IncrementTimes(s, CounterKey, 10);
    count := Get(s, CounterKey);
  }

  /** An i32 and an f32 set on the same registry are read back independently. */
  lemma BaseUse()
    ensures Get(Set(Set(New(), I32, 32), F32, 12), I32) == 32
    ensures Get(Set(Set(New(), I32, 32), F32, 12), F32) == 12
  {
  }

  /** A value written through `try_get_mut::<i32>()` is what `get::<i32>()` then returns. */
  lemma SetRefMutValue()
    ensures var s := Set(New(), I32, 12);
            Get(Assign(s, TryGetMut(s, I32).value, 13), I32) == 13
  {
  }

  /** The crate's opening example: set 12, write 14 through `get_mut::<i32>()`, read 14. */
  lemma GetMutThenGet()
    ensures var s := Set(New(), I32, 12);
            Get(Assign(s, GetMut(s, I32), 14), I32) == 14
  {
  }

  /** A cell made from 10 reads back 10 through both accessors. */
  lemma InnerValueIsCorrect()
    ensures Downcast(InnerCell.Get(InnerCell.New(I32, 10)), I32) == Some(10)
    ensures Downcast(InnerCell.GetMut(InnerCell.New(I32, 10)), I32) == Some(10)
  {
  }
}
