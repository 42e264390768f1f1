/**
 * The replicator's bookkeeping: a `running` flag, the queue of replicate
 * tasks, the `inflight` counter (replicate calls in progress) and the seal
 * reasons it reports to the executor. Goroutines, the condition variable,
 * connectors and the network are not modelled: their outcomes (a barrier
 * error, a push error, a connector error per replica, a callback's error,
 * the context's error) are inputs to the operations.
 *
 * Two ghost counters give `inflight` its meaning: `pending` counts replicate
 * callbacks handed out and not yet fired, `lost` counts replica calls that
 * were counted but will never be answered.
 */
module ExecutorReplicator {
  import opened Types
  import opened Wrappers

  datatype Error = Invalid | Closed | External(code: int)

  datatype ReplicatorConfig = ReplicatorConfig(queueSize: int, hasStateProvider: bool, hasMeasurableExecutor: bool)

  /** validate: a positive queue size, a state provider and a measurable executor are required. */
  function Validate(cfg: ReplicatorConfig): (r: Option<Error>)
    ensures r.None? <==> 0 < cfg.queueSize && cfg.hasStateProvider && cfg.hasMeasurableExecutor
    ensures r.Some? ==> r.value == Invalid
  {
    if cfg.queueSize <= 0 then Some(Invalid)
    else if !cfg.hasStateProvider then Some(Invalid)
    else if !cfg.hasMeasurableExecutor then Some(Invalid)
    else None
  }

  datatype ReplicateTask = ReplicateTask(llsn: LLSN, replicas: seq<int>)

  /** The number of replica calls the queued tasks stand for. */
  function QueuedReplicas(q: seq<ReplicateTask>): nat {
    if q == [] then 0 else |q[0].replicas| + QueuedReplicas(q[1..])
  }

  lemma {:induction false} QueuedReplicasAppend(q: seq<ReplicateTask>, t: ReplicateTask)
    ensures QueuedReplicas(q + [t]) == QueuedReplicas(q) + |t.replicas|
  {
    if q != [] {
      assert (q + [t])[1..] == q[1..] + [t];
      QueuedReplicasAppend(q[1..], t);
    }
  }

  /** The number of replicas whose connector lookup succeeded. */
  function Reached(getErrs: seq<Option<Error>>): nat {
    if getErrs == [] then 0
    else Reached(getErrs[..|getErrs| - 1]) + (if getErrs[|getErrs| - 1].None? then 1 else 0)
  }

  /** The first connector error, if any: what the fan-out reports. */
  function FirstError(getErrs: seq<Option<Error>>): Option<Error> {
    if getErrs == [] then None
    else if FirstError(getErrs[..|getErrs| - 1]).Some? then FirstError(getErrs[..|getErrs| - 1])
    else getErrs[|getErrs| - 1]
  }

  lemma {:induction false} FirstErrorIsFirst(getErrs: seq<Option<Error>>)
    ensures FirstError(getErrs).None? <==> forall i | 0 <= i < |getErrs| :: getErrs[i].None?
    ensures FirstError(getErrs).None? ==> Reached(getErrs) == |getErrs|
    ensures FirstError(getErrs).Some? ==>
      exists i :: 0 <= i < |getErrs| && getErrs[i] == FirstError(getErrs) && forall j | 0 <= j < i :: getErrs[j].None?
  {
    if getErrs != [] {
      var prefix := getErrs[..|getErrs| - 1];
      FirstErrorIsFirst(prefix);
      assert forall i | 0 <= i < |prefix| :: prefix[i] == getErrs[i];
      if FirstError(prefix).Some? {
        var i :| 0 <= i < |prefix| && prefix[i] == FirstError(prefix) && forall j | 0 <= j < i :: prefix[j].None?;
        assert getErrs[i] == FirstError(getErrs);
      } else if getErrs[|getErrs| - 1].Some? {
        assert getErrs[|getErrs| - 1] == FirstError(getErrs);
      }
    }
  }

  class Replicator {
    const queueSize: int
    var running: bool
    var queue: seq<ReplicateTask>
    var inflight: int
    /** Reasons passed to the executor's `setSealingWithReason`, in order. */
    var sealReasons: seq<Error>
    ghost var pending: nat
    ghost var lost: nat

    /** `inflight` is the replica count of queued tasks plus every call still owed or lost. */
    ghost predicate Valid()
      reads this
    {
      inflight == QueuedReplicas(queue) + pending + lost
    }

    /** A replicator built from a validated configuration: running, nothing queued or in flight. */
    constructor (cfg: ReplicatorConfig)
      requires Validate(cfg).None?
      ensures Valid() && running && queue == [] && inflight == 0 && sealReasons == []
      ensures pending == 0 && lost == 0 && queueSize == cfg.queueSize
    {
      queueSize := cfg.queueSize;
      running := true;
      queue := [];
      inflight := 0;
      sealReasons := [];
      pending, lost := 0, 0;
    }

    /**
     * send as the source writes it: the replica count is added to `inflight`
     * before the push, and stays there when the push fails.
     */
    method SendAsWritten(t: Option<ReplicateTask>, barrierErr: Option<Error>, pushErr: Option<Error>)
      returns (err: Option<Error>)
      requires Valid()
      modifies this
      ensures Valid() && running == old(running) && sealReasons == old(sealReasons) && pending == old(pending)
      ensures t.None? ==> err == Some(Invalid) && inflight == old(inflight) && queue == old(queue) && lost == old(lost)
      ensures t.Some? && !old(running) ==>
        err == Some(Closed) && inflight == old(inflight) && queue == old(queue) && lost == old(lost)
      ensures t.Some? && old(running) && barrierErr.Some? ==>
        err == barrierErr && inflight == old(inflight) && queue == old(queue) && lost == old(lost)
      ensures t.Some? && old(running) && barrierErr.None? ==>
        && err == pushErr
        && inflight == old(inflight) + |t.value.replicas|
        && (pushErr.None? ==> queue == old(queue) + [t.value] && lost == old(lost))
        && (pushErr.Some? ==> queue == old(queue) && lost == old(lost) + |t.value.replicas|)
    {
      if t.None? {
        return Some(Invalid);
      }
      if !running {
        return Some(Closed);
      }
      if barrierErr.Some? {
        return barrierErr;
      }
      inflight := inflight + |t.value.replicas|;
      if pushErr.Some? {
        lost := lost + |t.value.replicas|;
        return pushErr;
      }
      QueuedReplicasAppend(queue, t.value);
      queue := queue + [t.value];
      err := None;
    }

    /**
     * send: the same checks, and a task that is not queued leaves `inflight`
     * as it was; a queued task adds its replica count.
     */
    method Send(t: Option<ReplicateTask>, barrierErr: Option<Error>, pushErr: Option<Error>)
      returns (err: Option<Error>)
      requires Valid()
      modifies this
      ensures Valid() && running == old(running) && sealReasons == old(sealReasons)
      ensures pending == old(pending) && lost == old(lost)
      ensures t.None? ==> err == Some(Invalid) && inflight == old(inflight) && queue == old(queue)
      ensures t.Some? && !old(running) ==> err == Some(Closed) && inflight == old(inflight) && queue == old(queue)
      ensures t.Some? && old(running) && barrierErr.Some? ==>
        err == barrierErr && inflight == old(inflight) && queue == old(queue)
      ensures t.Some? && old(running) && barrierErr.None? && pushErr.Some? ==>
        err == pushErr && inflight == old(inflight) && queue == old(queue)
      ensures t.Some? && old(running) && barrierErr.None? && pushErr.None? ==>
        err.None? && inflight == old(inflight) + |t.value.replicas| && queue == old(queue) + [t.value]
    {
      if t.None? {
        return Some(Invalid);
      }
      if !running {
        return Some(Closed);
      }
      if barrierErr.Some? {
        return barrierErr;
      }
      inflight := inflight + |t.value.replicas|;
      if pushErr.Some? {
        inflight := inflight - |t.value.replicas|;
        return pushErr;
      }
      QueuedReplicasAppend(queue, t.value);
      queue := queue + [t.value];
      err := None;
    }

    /**
     * One step of the replicate loop: pop the oldest task and fan it out. Each
     * replica whose connector lookup succeeds gets a callback; one that fails
     * gets none. A failed fan-out seals the replica with the first error.
     */
    method Dispatch(getErrs: seq<Option<Error>>) returns (err: Option<Error>)
      requires Valid() && queue != [] && |getErrs| == |queue[0].replicas|
      modifies this
      ensures Valid() && running == old(running) && inflight == old(inflight)
      ensures queue == old(queue)[1..]
      ensures err == FirstError(getErrs)
      ensures pending == old(pending) + Reached(getErrs)
      ensures lost == old(lost) + (|getErrs| - Reached(getErrs))
      ensures err.None? ==> sealReasons == old(sealReasons)
      ensures err.Some? ==> sealReasons == old(sealReasons) + [err.value]
    {
      queue := queue[1..];
      err := None;
      for i := 0 to |getErrs|
        invariant err == FirstError(getErrs[..i])
        invariant pending == old(pending) + Reached(getErrs[..i])
        invariant lost == old(lost) + (i - Reached(getErrs[..i]))
        invariant queue == old(queue)[1..] && inflight == old(inflight)
        invariant sealReasons == old(sealReasons) && running == old(running)
      {
        assert getErrs[..i + 1][..i] == getErrs[..i];
        if getErrs[i].None? {
          pending := pending + 1;
        } else {
          lost := lost + 1;
          if err.None? {
            err := getErrs[i];
          }
        }
      }
      assert getErrs[..|getErrs|] == getErrs;
      if err.Some? {
        sealReasons := sealReasons + [err.value];
      }
    }

    /** A replicate callback: one call fewer in flight; an error seals the replica with it as reason. */
    method ReplicateCallback(cbErr: Option<Error>)
      requires Valid() && pending > 0
      modifies this
      ensures Valid() && inflight == old(inflight) - 1 && pending == old(pending) - 1 && lost == old(lost)
      ensures queue == old(queue) && running == old(running)
      ensures cbErr.None? ==> sealReasons == old(sealReasons)
      ensures cbErr.Some? ==> sealReasons == old(sealReasons) + [cbErr.value]
    {
      if cbErr.Some? {
        sealReasons := sealReasons + [cbErr.value];
      }
      inflight := inflight - 1;
      pending := pending - 1;
    }

    /** Drops every queued task and takes their replica counts off `inflight`. */
    method DrainQueue()
      requires Valid()
      modifies this
      ensures Valid() && queue == []
      ensures inflight == old(inflight) - QueuedReplicas(old(queue))
      ensures running == old(running) && sealReasons == old(sealReasons)
      ensures pending == old(pending) && lost == old(lost)
    {
      var dropped := 0;
      while |queue| > 0
        invariant dropped + QueuedReplicas(queue) == QueuedReplicas(old(queue))
        invariant inflight == old(inflight)
        invariant running == old(running) && sealReasons == old(sealReasons)
        invariant pending == old(pending) && lost == old(lost)
        decreases |queue|
      {
        var rt := queue[0];
        queue := queue[1..];
        dropped := dropped + |rt.replicas|;
      }
      inflight := inflight - dropped;
    }

    /** stop: clears `running`, so every later send fails with ErrClosed, then drains the queue. */
    method Stop()
      requires Valid()
      modifies this
      ensures Valid() && !running && queue == []
      ensures inflight == old(inflight) - QueuedReplicas(old(queue))
      ensures inflight == pending + lost
      ensures sealReasons == old(sealReasons) && pending == old(pending) && lost == old(lost)
    {
      running := false;
      DrainQueue();
    }

    /**
     * The return rule of waitForDrainage, once waiting has ended (inflight
     * reached 0 or the context expired): nil when the queue is empty,
     * otherwise the context's error.
     */
    method WaitForDrainage(ctxErr: Option<Error>) returns (err: Option<Error>)
      ensures queue == [] ==> err.None?
      ensures queue != [] ==> err == ctxErr
    {
      if |queue| == 0 {
        return None;
      }
      err := ctxErr;
    }
  }

  /**
   * With the source's send, a two-replica task whose push fails leaves
   * `inflight` at 2 after stop has emptied the queue, with no callback that
   * could ever take it down: waitForDrainage then waits for the context.
   */
  method InflightLeakAsWritten() returns (inflight: int, queued: nat)
    ensures inflight == 2 && queued == 0
  {
    var r := new Replicator(ReplicatorConfig(1, true, true));
    var _ := r.SendAsWritten(Some(ReplicateTask(1, [10, 20])), None, Some(External(1)));
    r.Stop();
    inflight, queued := r.inflight, |r.queue|;
  }

  /** With the corrected send, the same sequence leaves nothing in flight. */
  method InflightSettledWhenPushFails() returns (inflight: int, queued: nat)
    ensures inflight == 0 && queued == 0
  {
    var r := new Replicator(ReplicatorConfig(1, true, true));
    var _ := r.Send(Some(ReplicateTask(1, [10, 20])), None, Some(External(1)));
    r.Stop();
    inflight, queued := r.inflight, |r.queue|;
  }
}
