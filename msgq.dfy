/** A Zephyr message queue of capacity one (K_MSGQ_DEFINE(..., 1, 1)) as
    the firmware uses it: producers put with K_NO_WAIT, consumers get with
    K_FOREVER. The slot is `None` when the queue is empty. */
module MsgQueue {
  import opened Common

  /** k_msgq_put(q, m, K_NO_WAIT): succeed into an empty slot; on a full
      queue return at once, keeping the pending message and dropping `m`. */
  function TryPut<T>(q: Option<T>, m: T): (r: Option<T>)
    ensures r.Some?
    ensures q.Some? ==> r == q
    ensures q.None? ==> r.value == m
  {
    if q.None? then Some(m) else q
  }

  /** k_msgq_get(q, &m, K_FOREVER) once a message is pending: hand it over
      and leave the slot empty. */
  function Take<T>(q: Option<T>): (r: (T, Option<T>))
    requires q.Some?
    ensures r.1.None? && TryPut(r.1, r.0) == q
  {
    (q.value, None)
  }
}
