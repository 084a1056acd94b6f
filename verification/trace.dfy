/**
 Sequences of registry operations, and a per-type reference semantics for them: the value a
 type ends up with is decided by the operations on that type alone, in order.
 */
module Trace {
  import opened Wrappers
  import opened Any
  import opened Singly

  /** `set::<T>(v)`, or `if let Some(r) = try_get_mut::<T>() { *r = v }`. */
  datatype Op<V> = SetOp(key: TypeKey, value: V) | AssignOp(key: TypeKey, value: V)

  function Step<V>(s: Singleton<V>, op: Op<V>): Singleton<V> {
    match op
    case SetOp(t, v) => Set(s, t, v)
    case AssignOp(t, v) =>
      match TryGetMut(s, t)
      case Some(m) => Assign(s, m, v)
      case None => s
  }

  function Run<V>(s: Singleton<V>, ops: seq<Op<V>>): Singleton<V>
    decreases |ops|
  {
    if ops == [] then s else Run(Step(s, ops[0]), ops[1..])
  }

  /**
   What `try_get` for `t` should answer after `ops`, starting from `cur`: a set on `t`
   replaces the value, a write through a reference to `t` replaces it only if there is one,
   and operations on other types do not matter.
   */
  function Expected<V>(cur: Option<V>, ops: seq<Op<V>>, t: TypeKey): Option<V>
    decreases |ops|
  {
    if ops == [] then cur
    else
      var next :=
        match ops[0]
        case SetOp(k, v) => if k == t then Some(v) else cur
        case AssignOp(k, v) => if k == t && cur.Some? then Some(v) else cur;
      Expected(next, ops[1..], t)
  }

  /** No sequence of operations can break the tag invariant. */
  lemma {:induction false} RunPreservesWf<V>(s: Singleton<V>, ops: seq<Op<V>>)
    requires Wf(s)
    ensures Wf(Run(s, ops))
    decreases |ops|
  {
    if ops != [] {
      RunPreservesWf(Step(s, ops[0]), ops[1..]);
    }
  }

  /** Each type's entry evolves exactly as the reference semantics says, whatever happens to other types. */
  lemma {:induction false} RunMatchesExpected<V>(s: Singleton<V>, ops: seq<Op<V>>, t: TypeKey)
    ensures TryGet(Run(s, ops), t) == Expected(TryGet(s, t), ops, t)
    decreases |ops|
  {
    if ops != [] {
      var s' := Step(s, ops[0]);
      RunMatchesExpected(s', ops[1..], t);
    }
  }

  /** Every registry built from `new()` satisfies the invariant, established by `set` alone. */
  lemma ReachableIsWf<V>(ops: seq<Op<V>>)
    ensures Wf(Run(New(), ops))
  {
    RunPreservesWf(New(), ops);
  }

  /**
   In every reachable registry the downcast after a successful lookup succeeds: the
   tag-mismatch `None` of `try_get` / `try_get_mut` cannot arise.
   */
  lemma ReachableLookupNeverFails<V>(ops: seq<Op<V>>, t: TypeKey)
    ensures TryGet(Run(New(), ops), t).Some? <==> t in Run(New(), ops).storage
    ensures TryGetMut(Run(New(), ops), t).Some? <==> t in Run(New(), ops).storage
  {
    ReachableIsWf(ops);
  }

  /** From an empty registry, each type's value is the one the reference semantics predicts. */
  lemma ReachableMatchesExpected<V>(ops: seq<Op<V>>, t: TypeKey)
    ensures TryGet(Run(New(), ops), t) == Expected(None, ops, t)
  {
    RunMatchesExpected(New(), ops, t);
  }

  /** The capacity hint is not observable: after any operations, the registries are equal. */
  lemma WithCapacityLikeNew<V>(capacity: Usize, ops: seq<Op<V>>)
    ensures Run(WithCapacity(capacity), ops) == Run(New(), ops)
  {
  }
}
