/** The pool of prefix-key buffers both read-only contexts keep
    (`ColumnFamilyContext.withPrefixKey`, `ReadOnlyContext.withPrefixKeyBuffer`):
    a queue of two buffers, one borrowed for each prefix iteration in
    progress and given back when it ends, however it ends. */
module PrefixPool {

  import opened Wrappers

  const NESTED_ITERATION: string :=
    "Currently nested prefix iterations are not supported! This will cause unexpected behavior."

  /** The buffers a new context holds, by identity, in queue order. */
  const INITIAL: seq<nat> := [0, 1]

  /** `depth` prefix iterations, each started by the consumer of the one
      before, over a pool whose free buffers are `pool` in queue order; the
      innermost consumer ends with `innermost`. Each level takes the buffer
      at the head of the queue, or throws when the queue is empty, and puts
      its buffer back at the tail in a `finally`. The outcome and the queue
      afterwards are returned. */
  function Nested(pool: seq<nat>, depth: nat, innermost: Result<()>): (r: (Result<()>, seq<nat>))
    ensures multiset(r.1) == multiset(pool)
    ensures depth <= |pool| ==> r.0 == innermost
    ensures depth > |pool| ==> r.0 == Throws(IllegalState(NESTED_ITERATION))
  {
    if depth == 0 then (innermost, pool)
    else if pool == [] then (Throws(IllegalState(NESTED_ITERATION)), pool)
    else
      var inner := Nested(pool[1..], depth - 1, innermost);
      assert pool == [pool[0]] + pool[1..];
      (inner.0, inner.1 + [pool[0]])
  }
}
