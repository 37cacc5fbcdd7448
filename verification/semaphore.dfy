/** The counting semaphore that bounds concurrent HEAD probes
    (src/utils/semaphore.ts). A waiting `tryAcquire` continuation is
    represented by the id of the task that queued it. */
module Semaphore {
  import opened Wrappers

  datatype Sem = Sem(max: nat, active: nat, queue: seq<nat>)

  /** `new Semaphore(max)` */
  function Create(max: nat): (s: Sem)
    ensures Inv(s) && s.active == 0 && s.queue == []
  {
    Sem(max, 0, [])
  }

  /** Never more than `max` holders, and nobody waits while a slot is free. */
  predicate Inv(s: Sem) {
    s.active <= s.max && (|s.queue| > 0 ==> s.active == s.max)
  }

  /** `acquire()` by task `id`: granted at once when a slot is free, else
      queued at the back. */
  function Acquire(s: Sem, id: nat): (r: (Sem, bool))
    requires Inv(s)
    ensures Inv(r.0) && r.0.max == s.max
    ensures r.1 <==> s.active < s.max
    ensures r.1 ==> r.0.active == s.active + 1 && r.0.queue == s.queue
    ensures !r.1 ==> r.0.active == s.active && r.0.queue == s.queue + [id]
  {
    if s.active < s.max then (s.(active := s.active + 1), true)
    else (s.(queue := s.queue + [id]), false)
  }

  /** The release function a grant resolves with: frees the slot and runs
      the oldest waiting `tryAcquire`, which now finds a free slot. Each
      grant's release runs once, so a holder exists. */
  function Release(s: Sem): (r: (Sem, Option<nat>))
    requires Inv(s) && s.active >= 1
    ensures Inv(r.0) && r.0.max == s.max
    ensures s.queue == [] ==> r.1 == None && r.0.active == s.active - 1 && r.0.queue == []
    ensures s.queue != [] ==> r.1 == Some(s.queue[0]) && r.0.active == s.active && r.0.queue == s.queue[1..]
  {
    var freed := s.(active := s.active - 1);
    if |freed.queue| == 0 then (freed, None)
    else
      var next := freed.queue[0];
      var rest := freed.(queue := freed.queue[1..]);
      // `next()` re-runs tryAcquire for the woken task.
      var (after, granted) := TryAcquire(rest, next);
      if granted then (after, Some(next)) else (after, None)
  }

  /** `tryAcquire` without the invariant: the step both `acquire` and a
      woken waiter run. */
  function TryAcquire(s: Sem, id: nat): (r: (Sem, bool))
    ensures r.1 <==> s.active < s.max
    ensures r.0.max == s.max
    ensures r.1 ==> r.0 == s.(active := s.active + 1)
    ensures !r.1 ==> r.0 == s.(queue := s.queue + [id])
  {
    if s.active < s.max then (s.(active := s.active + 1), true)
    else (s.(queue := s.queue + [id]), false)
  }

  /** What the probing tasks do to the semaphore. */
  datatype Op = AcquireOp(id: nat) | ReleaseOp

  /** Runs `ops` in order; `None` when a release has no holder. The
      result lists the ids granted, in grant order. */
  function Run(s: Sem, ops: seq<Op>): (r: Option<(Sem, seq<nat>)>)
    requires Inv(s)
    ensures r.Some? ==> Inv(r.value.0) && r.value.0.max == s.max
    decreases |ops|
  {
    if |ops| == 0 then Some((s, []))
    else
      match ops[0]
      case AcquireOp(id) =>
        var (s1, granted) := Acquire(s, id);
        (match Run(s1, ops[1..])
         case None => None
         case Some((s2, ids)) => Some((s2, (if granted then [id] else []) + ids)))
      case ReleaseOp =>
        if s.active == 0 then None
        else
          var (s1, woken) := Release(s);
          (match Run(s1, ops[1..])
           case None => None
           case Some((s2, ids)) => Some((s2, (if woken.Some? then [woken.value] else []) + ids)))
  }

  /** Tasks that all ask at once: the first `max` are granted and the rest
      wait in the order they asked. */
  lemma {:induction false} AllAcquire(s: Sem, ids: seq<nat>)
    requires Inv(s) && s.active == 0 && s.queue == []
    ensures var ops := seq(|ids|, k requires 0 <= k < |ids| => AcquireOp(ids[k]));
            var n := if |ids| <= s.max then |ids| else s.max;
            Run(s, ops).Some?
            && Run(s, ops).value.1 == ids[..n]
            && Run(s, ops).value.0.queue == ids[n..]
            && Run(s, ops).value.0.active == n
  {
    AcquireFrom(s, ids);
  }

  /** A burst of acquisitions fills the free slots in order and queues the rest behind the waiters. */
  lemma {:induction false} AcquireFrom(s: Sem, ids: seq<nat>)
    requires Inv(s)
    ensures var ops := seq(|ids|, k requires 0 <= k < |ids| => AcquireOp(ids[k]));
            var free := s.max - s.active;
            var n := if |ids| <= free then |ids| else free;
            Run(s, ops).Some?
            && Run(s, ops).value.1 == ids[..n]
            && Run(s, ops).value.0.queue == s.queue + ids[n..]
            && Run(s, ops).value.0.active == s.active + n
    decreases |ids|
  {
    var ops := seq(|ids|, k requires 0 <= k < |ids| => AcquireOp(ids[k]));
    if |ids| > 0 {
      var (s1, granted) := Acquire(s, ids[0]);
      var tail := ids[1..];
      var tailOps := seq(|tail|, k requires 0 <= k < |tail| => AcquireOp(tail[k]));
      assert ops[1..] == tailOps;
      AcquireFrom(s1, tail);
      if granted {
        if |ids| <= s.max - s.active {
          assert ids == [ids[0]] + tail;
        } else {
          assert ids[..s.max - s.active] == [ids[0]] + tail[..s.max - s1.active];
        }
      } else {
        assert s.queue + [ids[0]] + tail == s.queue + ids[0..];
      }
    }
  }
}
