/**
 * A commit task: one commit result on its way from the executor's Commit
 * entry point to the committer. Tasks are pooled, so `Release` clears every
 * field before a task is reused. Timestamps are kept as integers, 0 standing
 * for Go's zero time.
 */
module ExecutorCommitTask {
  import opened Types

  class CommitTask {
    var highWatermark: GLSN
    var prevHighWatermark: GLSN
    var committedGLSNBegin: GLSN
    var committedGLSNEnd: GLSN
    var committedLLSNBegin: LLSN
    var createdTime: nat
    var poppedTime: nat
    var processingTime: nat

    /** Every field at its zero value, as `Release` leaves a task. */
    predicate Released()
      reads this
    {
      && highWatermark == InvalidGLSN && prevHighWatermark == InvalidGLSN
      && committedGLSNBegin == InvalidGLSN && committedGLSNEnd == InvalidGLSN
      && committedLLSNBegin == InvalidLLSN
      && createdTime == 0 && poppedTime == 0 && processingTime == 0
    }

    /** newCommitTask: a cleared task from the pool, stamped with its creation time. */
    constructor (now: nat)
      ensures highWatermark == InvalidGLSN && prevHighWatermark == InvalidGLSN
      ensures committedGLSNBegin == InvalidGLSN && committedGLSNEnd == InvalidGLSN
      ensures committedLLSNBegin == InvalidLLSN
      ensures createdTime == now && poppedTime == 0 && processingTime == 0
    {
      highWatermark, prevHighWatermark := InvalidGLSN, InvalidGLSN;
      committedGLSNBegin, committedGLSNEnd := InvalidGLSN, InvalidGLSN;
      committedLLSNBegin := InvalidLLSN;
      createdTime, poppedTime, processingTime := now, 0, 0;
    }

    /** A task is stale once the global high watermark has reached its own. */
    predicate Stale(globalHighWatermark: GLSN)
      reads this
    {
      highWatermark <= globalHighWatermark
    }

    /** Clears every sequence number and every timestamp before the task goes back to the pool. */
    method Release()
      modifies this
      ensures Released()
      ensures forall h: GLSN :: Stale(h)
    {
      highWatermark := InvalidGLSN;
      prevHighWatermark := InvalidGLSN;
      committedGLSNBegin := InvalidGLSN;
      committedGLSNEnd := InvalidGLSN;
      committedLLSNBegin := InvalidLLSN;
      createdTime := 0;
      poppedTime := 0;
      processingTime := 0;
    }
  }

  /** Staleness is monotone in the watermark. */
  lemma StaleIsMonotone(t: CommitTask, h1: GLSN, h2: GLSN)
    requires t.Stale(h1) && h1 <= h2
    ensures t.Stale(h2)
  {
  }

  /** A released task is stale for every watermark, InvalidGLSN included. */
  lemma ReleasedIsStale(t: CommitTask)
    requires t.Released()
    ensures forall h: GLSN :: t.Stale(h)
  {
  }
}
