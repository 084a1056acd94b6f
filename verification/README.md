# singly: a type-indexed singleton registry, in Dafny

This project models the core of the Rust crate `singly`. The crate provides `Singleton`, a
registry that stores at most one value per type. Callers `set` a value for its type and later
read it back with `get` / `try_get`, or mutate it in place through `get_mut` / `try_get_mut`.
The registry is a hash map from `TypeId` to `Inner`. `Inner` holds a raw pointer to a leaked
`Box<dyn Any>` and hands out shared and exclusive references to it without any borrow tracking.
The crate never frees that box: neither `Inner` nor `Singleton` implements `Drop`.

The model is functional:

- `Any` models type erasure. A `TypeKey` stands for `TypeId`, and an `Erased` value is a
  payload tagged with the key of the type it came from. `Downcast` succeeds exactly when the
  requested key equals the tag.
- `InnerCell` models the cell. `New` erases and stores a value. `Get` and `GetMut` are the
  shared and exclusive views of the same stored value. `WriteThrough` is a store through the
  exclusive view after it has been downcast; it replaces the payload and keeps the tag.
- `Singly` models `Singleton` as a `map<TypeKey, Inner>`. `Wf` is the invariant that the cell
  under key `k` carries tag `k`. `TryGetMut` / `GetMut` hand out a `MutRef`, which models a
  `&mut T`. `Deref` reads through it and `Assign` (`*r = v`) writes through it.
- `Trace` runs sequences of `set` and write-through operations. It compares each type's
  resulting value with `Expected`, an independent per-type reference semantics. It also proves
  that every registry reachable from `new()` satisfies `Wf`, so the downcast after a
  successful lookup can never fail.
- `Scenarios` restates the crate's tests and its documented examples. Among them are the
  serialized counter from the static-instance test and the `i32`/`f32` coexistence test.

`Get` and `GetMut` have one precondition: the corresponding `try_` lookup returns `Some`. That
is exactly the condition under which the Rust `unwrap` does not panic. Absence is modelled on
the `try_` forms as `None`.

A tag mismatch after a successful lookup is not a separate error. `try_get` and `try_get_mut`
chain the downcast with `and_then` (src/lib.rs:154, 169-173), so a mismatch would come back as
`None`, and only the `unwrap` in `get` / `get_mut` would panic. `TryGet` and `TryGetMut` do the
same: they return `None` when the tag does not match. `Trace.ReachableLookupNeverFails` then proves that no registry built through
the API ever reaches that case.

## Model

| member | source | states |
|---|---|---|
| Any.Erase | src/inner.rs:21 | a value erased under a type is recognised as that type by the `is` check the downcasts use; the full erase-then-downcast round trip is `Any.DowncastErase` |
| Any.Downcast | src/lib.rs:152-173 | the downcast yields a value exactly when the erased tag is the requested type, and that value erased under the type is the stored erased value |
| Any.DowncastErase | src/lib.rs:152-173 | erasing under a type and downcasting to the same type returns the value; downcasting to any other type returns nothing |
| InnerCell.New | src/inner.rs:19-23 | a new cell's value downcasts to the creating type with the original value, and to every other type with nothing |
| InnerCell.GetMut | src/inner.rs:39-47 | the exclusive view refers to the same stored value as the shared view of src/inner.rs:30-32 |
| InnerCell.WriteThrough | src/inner.rs:39-47 | a store through the downcast exclusive view keeps the cell's type tag and makes the cell read back the stored value |
| InnerCell.Writes | src/inner.rs:39-47 | any number of writes through the downcast exclusive view leave the cell recognised as the type it was created with |
| InnerCell.GetAfterWrites | src/inner.rs:19-47 | after `new(v)` and any sequence of writes through `get_mut`, the shared view of src/inner.rs:30-32 downcasts to the creating type as the last value written (or `v` if none) and to every other type as nothing |
| Singly.New | src/lib.rs:116-120 | a new registry satisfies the tag invariant and `try_get` returns `None` for every type |
| Singly.WithCapacity | src/lib.rs:137-141 | a registry made with any capacity hint is equal to the one `new()` makes |
| Singly.Set | src/lib.rs:143-147 | after `set`, `try_get` for that type returns the value; the key set grows by that type only; the size grows only if the type was new; other types' cells are untouched; the tag invariant is kept |
| Singly.TryGet | src/lib.rs:149-155 | `None` for an absent type; a returned value is the payload stored under that type; in a well-formed registry, a present type always yields a value |
| Singly.Get | src/lib.rs:157-164 | defined when `try_get` succeeds; the result is the value stored erased under the requested type |
| Singly.TryGetMut | src/lib.rs:166-174 | succeeds exactly when `try_get` does, and then returns a live reference to the requested type's cell |
| Singly.GetMut | src/lib.rs:176-183 | defined when `try_get_mut` succeeds; returns a live reference to the requested type's cell |
| Singly.Deref | src/lib.rs:168-173 | reading through a live reference gives the value `try_get` reports for that type |
| Singly.Assign | src/lib.rs:168-173 | a write through a live reference is what `try_get` then reports; the key set and every other type's cell are unchanged; the tag invariant is kept |
| Singly.SetThenGet | src/lib.rs:143-155 | `set(v)` followed by `try_get` / `get` for that type returns `v` |
| Singly.SetOverwrites | src/lib.rs:94-97 | setting a type twice gives the same registry as setting it once to the second value, so the first value is unreachable |
| Singly.SetLeavesOthers | src/lib.rs:145-147 | `set` on one type leaves `try_get` and `try_get_mut` of every other type unchanged |
| Singly.AbsentIsNone | src/lib.rs:149-174 | for a type with no entry, both `try_get` and `try_get_mut` return `None` |
| Singly.PresentIsSome | src/lib.rs:151-174 | in a well-formed registry, `try_get` and `try_get_mut` succeed if and only if the type has an entry |
| Singly.AssignThenGet | src/lib.rs:166-183 | a value written through `get_mut` is what the next `get` returns, and other types' lookups are unchanged |
| Trace.RunPreservesWf | src/lib.rs:145-174 | no sequence of sets and write-throughs breaks the tag invariant |
| Trace.RunMatchesExpected | src/lib.rs:143-174 | from any starting registry and after any sequence of operations, each type's `try_get` equals the per-type reference semantics started from its initial `try_get`: last set wins, writes need an entry, other types do not matter |
| Trace.ReachableIsWf | src/lib.rs:116-147 | every registry built from `new()` satisfies the tag invariant |
| Trace.ReachableLookupNeverFails | src/lib.rs:151-174 | in every reachable registry, `try_get` and `try_get_mut` succeed exactly for present types, so the downcast after lookup never fails |
| Trace.ReachableMatchesExpected | src/lib.rs:116-174 | from an empty registry, each type's final value is the one the reference semantics predicts |
| Trace.WithCapacityLikeNew | src/lib.rs:129-141 | after any sequence of operations, a registry made with a capacity hint equals one made by `new()` |
| Scenarios.IncrementTimes | tests/integration_test.rs:85-99 | `n` serialized increments through `try_get_mut` add `n` to a present value, do nothing when the type is absent, and leave other types unchanged |
| Scenarios.StaticCounter | tests/integration_test.rs:80-103 | ten serialized increments of a counter set to 0 end at 10 |
| Scenarios.BaseUse | src/lib.rs:190-199 | an `i32` and an `f32` set on one registry read back as 32 and 12 |
| Scenarios.SetRefMutValue | src/lib.rs:201-210 | a 13 written through `try_get_mut::<i32>()` over 12 reads back as 13 |
| Scenarios.GetMutThenGet | src/lib.rs:13-22 | a 14 written through `get_mut::<i32>()` over 12 reads back as 14 |
| Scenarios.InnerValueIsCorrect | src/inner.rs:57-63 | a cell made from 10 downcasts to `i32` as 10 through both `get` and `get_mut` |

## Left out

- Raw-pointer aliasing in `Inner` (`UnsafeCell`, `NonNull`, `Box::into_raw`, `&mut` from `&self`). The model has no references into memory. The caller's obligation not to keep shared and exclusive references alive together has no counterpart, because each write returns a new registry.
- `unsafe impl Sync` / `Send` for `Inner`, and all thread, `Arc`, `Mutex` and `lazy_static` use in the tests and documentation. Concurrency is not modelled. The mutex-guarded counter test is modelled with its increments run one after another.
- The `multi_thread_situation_reading` and `multi_thread_situation_counter` tests. In both, the registry stores an `Arc` and is only read; the value behind the `Arc` is shared and mutated outside the registry.
- hashbrown internals and the capacity pre-sizing. Storage is a Dafny `map`, and the capacity hint is accepted and ignored. hashbrown's `with_capacity` panics or aborts on a hint too large to allocate (src/lib.rs:139); `Singly.WithCapacity` accepts every `usize` and does not model that failure.
- Allocation failure and the `NonNull::new(..).unwrap()` panic in `Inner::new`. These are memory concerns.
- Leaking of overwritten values. The source leaks them: `Inner::new` turns the box into a raw pointer (src/inner.rs:21), and there is no `Drop` for `Inner`, so no destructor ever runs for an overwritten value or for the values left in a dropped registry. The model shows only that the old value is unreachable (`Singly.SetOverwrites`).
- The `unwrap` panics inside `Inner::get` / `Inner::get_mut` on a null cell pointer. The pointer is never null.
- Encapsulation of `Inner`. The Rust field is private, so a cell is created only by `Inner::new`. Dafny offers no way to hide a datatype constructor without export sets. Within the model, cells are created only by `InnerCell.New` and changed only by `InnerCell.WriteThrough`.
- Float payloads. Every payload is drawn from one type parameter, and only the tag tells `f32` from `i32`. The scenarios use integers.
- Scenarios.IncrementTimes: does not model the 32-bit overflow of the counter's `i32`. The tests stay far below it.
- Allocation identity. The model does not track that a write through `get_mut` keeps the same heap allocation. It only tracks that the write keeps the type tag.
