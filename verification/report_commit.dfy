/**
 * The storage node's side of the report/commit protocol: `GetReport` tells the
 * metadata repository how far this replica has written, `Commit` accepts a
 * commit result and hands it to the committer as a commit task.
 *
 * The executor's guard (its open/closed state), `reportCommitBase()` and the
 * committer queue's hand-off are not part of this model; their outcomes are
 * inputs: the guard's error, the (global high watermark, uncommitted LLSN
 * begin) pair and the hand-off's error.
 */
module ExecutorReportCommit {
  import opened Types
  import opened Wrappers
  import opened ExecutorCommitTask

  datatype Error = TooOldCommitResult | Guard(code: int) | Committer(code: int)

  /** The pair `reportCommitBase()` returns. */
  datatype ReportCommitBase = ReportCommitBase(globalHighWatermark: GLSN, uncommittedLLSNBegin: LLSN)

  datatype LogStreamUncommitReport = LogStreamUncommitReport(
    logStreamID: int,
    highWatermark: GLSN,
    uncommittedLLSNOffset: LLSN,
    uncommittedLLSNLength: U64)

  /** The report returned with a guard error; its definition is not part of this model and is taken as all zero. */
  const InvalidLogStreamUncommitReport := LogStreamUncommitReport(0, InvalidGLSN, InvalidLLSN, 0)

  datatype LogStreamCommitResult = LogStreamCommitResult(
    logStreamID: int,
    prevHighWatermark: GLSN,
    highWatermark: GLSN,
    committedLLSNOffset: LLSN,
    committedGLSNOffset: GLSN,
    committedGLSNLength: U64)

  /** The report for a successful call: watermark and offset from the base, length = end - begin in uint64. */
  function Report(logStreamID: int, base: ReportCommitBase, uncommittedLLSNEnd: LLSN): (r: LogStreamUncommitReport)
    ensures r.logStreamID == logStreamID && r.highWatermark == base.globalHighWatermark
    ensures r.uncommittedLLSNOffset == base.uncommittedLLSNBegin
    ensures base.uncommittedLLSNBegin <= uncommittedLLSNEnd ==>
      r.uncommittedLLSNOffset + r.uncommittedLLSNLength == uncommittedLLSNEnd
    ensures uncommittedLLSNEnd < base.uncommittedLLSNBegin ==>
      r.uncommittedLLSNOffset + r.uncommittedLLSNLength == uncommittedLLSNEnd + U64_MODULUS
  {
    LogStreamUncommitReport(
      logStreamID,
      base.globalHighWatermark,
      base.uncommittedLLSNBegin,
      Wrap(uncommittedLLSNEnd - base.uncommittedLLSNBegin))
  }

  /** The commit-task fields a commit result translates to; the GLSN end is offset + length in uint64. */
  datatype TaskFields = TaskFields(
    highWatermark: GLSN,
    prevHighWatermark: GLSN,
    committedGLSNBegin: GLSN,
    committedGLSNEnd: GLSN,
    committedLLSNBegin: LLSN)

  function Translate(cr: LogStreamCommitResult): (f: TaskFields)
    ensures f.highWatermark == cr.highWatermark && f.prevHighWatermark == cr.prevHighWatermark
    ensures f.committedGLSNBegin == cr.committedGLSNOffset && f.committedLLSNBegin == cr.committedLLSNOffset
    ensures cr.committedGLSNOffset + cr.committedGLSNLength < U64_MODULUS ==>
      f.committedGLSNEnd - f.committedGLSNBegin == cr.committedGLSNLength
  {
    TaskFields(
      cr.highWatermark,
      cr.prevHighWatermark,
      cr.committedGLSNOffset,
      Wrap(cr.committedGLSNOffset + cr.committedGLSNLength),
      cr.committedLLSNOffset)
  }

  function FieldsOf(t: CommitTask): TaskFields
    reads t
  {
    TaskFields(t.highWatermark, t.prevHighWatermark, t.committedGLSNBegin, t.committedGLSNEnd, t.committedLLSNBegin)
  }

  class Executor {
    const logStreamID: int
    /** What `reportCommitBase()` returns at the moment. */
    var base: ReportCommitBase
    var uncommittedLLSNEnd: LLSN
    /** The tasks handed to the committer, oldest first. */
    var committerQueue: seq<CommitTask>

    constructor (logStreamID: int, base: ReportCommitBase, uncommittedLLSNEnd: LLSN)
      ensures this.logStreamID == logStreamID && this.base == base
      ensures this.uncommittedLLSNEnd == uncommittedLLSNEnd && committerQueue == []
    {
      this.logStreamID := logStreamID;
      this.base := base;
      this.uncommittedLLSNEnd := uncommittedLLSNEnd;
      committerQueue := [];
    }

    /** GetReport: the invalid report and the guard's error, or the report of the current base and end. */
    method GetReport(guardErr: Option<Error>) returns (report: LogStreamUncommitReport, err: Option<Error>)
      ensures guardErr.Some? ==> report == InvalidLogStreamUncommitReport && err == guardErr
      ensures guardErr.None? ==> err.None? && report == Report(logStreamID, base, uncommittedLLSNEnd)
    {
      if guardErr.Some? {
        return InvalidLogStreamUncommitReport, guardErr;
      }
      report := Report(logStreamID, base, uncommittedLLSNEnd);
      err := None;
    }

    /**
     * Commit: rejected by the guard or as too old without enqueueing anything;
     * otherwise a task is filled from the result and handed to the committer,
     * and if the hand-off fails the task is released and its error returned.
     */
    method Commit(cr: LogStreamCommitResult, guardErr: Option<Error>, sendErr: Option<Error>, now: nat)
      returns (err: Option<Error>, ghost task: CommitTask?)
      modifies this
      ensures base == old(base) && uncommittedLLSNEnd == old(uncommittedLLSNEnd)
      ensures guardErr.Some? ==> err == guardErr && task == null && committerQueue == old(committerQueue)
      ensures guardErr.None? && cr.highWatermark <= base.globalHighWatermark ==>
        err == Some(TooOldCommitResult) && task == null && committerQueue == old(committerQueue)
      ensures guardErr.None? && base.globalHighWatermark < cr.highWatermark ==>
        && task != null && fresh(task)
        && (sendErr.Some? ==> err == sendErr && task.Released() && committerQueue == old(committerQueue))
        && (sendErr.None? ==>
              && err.None? && committerQueue == old(committerQueue) + [task]
              && FieldsOf(task) == Translate(cr) && task.createdTime == now
              && !task.Stale(base.globalHighWatermark))
    {
      if guardErr.Some? {
        return guardErr, null;
      }
      if cr.highWatermark <= base.globalHighWatermark {
        return Some(TooOldCommitResult), null;
      }
      var ct := new CommitTask(now);
      ct.highWatermark := cr.highWatermark;
      ct.prevHighWatermark := cr.prevHighWatermark;
      ct.committedGLSNBegin := cr.committedGLSNOffset;
      ct.committedGLSNEnd := Wrap(cr.committedGLSNOffset + cr.committedGLSNLength);
      ct.committedLLSNBegin := cr.committedLLSNOffset;
      task := ct;
      if sendErr.Some? {
        ct.Release();
        return sendErr, task;
      }
      committerQueue := committerQueue + [ct];
      err := None;
    }
  }

  /**
   * A task built from a result is stale exactly for the watermarks at or above
   * the result's own, so an accepted one is not stale for any watermark it
   * passed the too-old check against.
   */
  lemma TranslatedTaskStaleness(t: CommitTask, cr: LogStreamCommitResult)
    requires FieldsOf(t) == Translate(cr)
    ensures forall h: GLSN :: t.Stale(h) <==> cr.highWatermark <= h
  {
  }
}
