/**
 * Recovery points of a log stream replica: what a restarting replica reads
 * back from its store to restore its state — the last commit context, the
 * first and last committed entries, and the range of written but not yet
 * committed LLSNs.
 */
module RecoveryPoints {
  import opened Types
  import opened Wrappers
  import opened OrderedKeys
  import opened Storage

  datatype LogSequenceNumber = LogSequenceNumber(llsn: LLSN, glsn: GLSN)

  datatype RecoveryPoints = RecoveryPoints(
    lastCommitContext: Option<CommitContext>,
    first: Option<LogSequenceNumber>,
    last: Option<LogSequenceNumber>,
    uncommittedBegin: LLSN,
    uncommittedEnd: LLSN)

  /** The committed-entry boundaries, with whatever was read before a failure. */
  datatype Boundaries = Boundaries(
    first: Option<LogSequenceNumber>,
    last: Option<LogSequenceNumber>,
    err: Option<Error>)

  /** The uncommitted LLSN range [begin, end), or Invalid/Invalid. */
  datatype UncommittedRange = UncommittedRange(begin: LLSN, end: LLSN, err: Option<Error>)

  /** A missing commit context is not an error here: it reads as absent. */
  function ReadLastCommitContext(s: Columns): (r: Option<CommitContext>)
    ensures r.None? <==> ReadCommitContext(s) == Failure(NoCommitContext)
    ensures r.Some? ==> ReadCommitContext(s) == Success(r.value)
  {
    match ReadCommitContext(s)
    case Failure(_) => None
    case Success(cc) => Some(cc)
  }

  function ToSequenceNumber(le: LogEntry): LogSequenceNumber {
    LogSequenceNumber(le.llsn, le.glsn)
  }

  /**
   * Reads the entries at the first and the last commit key. A failure reading
   * the first returns nothing; a failure reading the last keeps the first.
   */
  function ReadLogEntryBoundaries(s: Columns): (r: Boundaries)
    ensures s.commits == map[] ==> r == Boundaries(None, None, None)
    ensures s.commits != map[] ==>
      var lo := Least(s.commits.Keys);
      var hi := Greatest(s.commits.Keys);
      && (ReadGLSN(s, lo).Failure? ==> r == Boundaries(None, None, Some(ReadGLSN(s, lo).error)))
      && (ReadGLSN(s, lo).Success? ==> r.first == Some(LogSequenceNumber(s.commits[lo], lo)))
      && (ReadGLSN(s, lo).Success? && ReadGLSN(s, hi).Failure? ==> r.last.None? && r.err == Some(ReadGLSN(s, hi).error))
      && (ReadGLSN(s, lo).Success? && ReadGLSN(s, hi).Success? ==>
            r.last == Some(LogSequenceNumber(s.commits[hi], hi)) && r.err.None?)
  {
    match SeekGE(s.commits.Keys, 0)
    case None => Boundaries(None, None, None)
    case Some(firstGLSN) =>
      assert firstGLSN == Least(s.commits.Keys);
      match ReadGLSN(s, firstGLSN)
      case Failure(e) => Boundaries(None, None, Some(e))
      case Success(firstLE) =>
        var lastGLSN := SeekLT(s.commits.Keys, U64_MODULUS).value;
        assert lastGLSN == Greatest(s.commits.Keys);
        match ReadGLSN(s, lastGLSN)
        case Failure(e) => Boundaries(Some(ToSequenceNumber(firstLE)), None, Some(e))
        case Success(lastLE) => Boundaries(Some(ToSequenceNumber(firstLE)), Some(ToSequenceNumber(lastLE)), None)
  }

  /**
   * The LLSN after the last committed one: CommittedLLSNBegin plus the number
   * of GLSNs the commit covered, all in uint64; MinLLSN without a context.
   */
  function UncommittedBegin(cc: Option<CommitContext>): (r: LLSN)
    ensures cc.None? ==> r == MinLLSN
    ensures
      (&& cc.Some? && cc.value.committedGLSNBegin <= cc.value.committedGLSNEnd
       && cc.value.committedLLSNBegin + (cc.value.committedGLSNEnd - cc.value.committedGLSNBegin) < U64_MODULUS)
      ==> r - cc.value.committedLLSNBegin == cc.value.committedGLSNEnd - cc.value.committedGLSNBegin
  {
    match cc
    case None => MinLLSN
    case Some(c) => Wrap(c.committedLLSNBegin + Wrap(c.committedGLSNEnd - c.committedGLSNBegin))
  }

  /**
   * The data keys from `uncommittedBegin` on: none gives Invalid/Invalid, a
   * first key other than `uncommittedBegin` is an error, otherwise the range
   * runs to one past (uint64) the last data key.
   */
  function ReadUncommittedBoundaries(s: Columns, uncommittedBegin: LLSN): (r: UncommittedRange)
    ensures (forall l | l in s.data :: l < uncommittedBegin) ==> r == UncommittedRange(InvalidLLSN, InvalidLLSN, None)
    ensures r.err.Some? <==> uncommittedBegin !in s.data && exists l :: l in s.data && uncommittedBegin <= l
    ensures r.err.Some? ==>
      && r.begin == InvalidLLSN && r.end == InvalidLLSN
      && r.err.value.UnexpectedUncommittedBegin? && r.err.value.expected == uncommittedBegin
      && r.err.value.got in s.data && uncommittedBegin < r.err.value.got
      && forall l | l in s.data && uncommittedBegin <= l :: r.err.value.got <= l
    ensures uncommittedBegin in s.data ==>
      && r.err.None? && r.begin == uncommittedBegin
      && r.end == Wrap(Greatest(s.data.Keys) + 1)
  {
    match SeekGE(s.data.Keys, uncommittedBegin)
    case None => UncommittedRange(InvalidLLSN, InvalidLLSN, None)
    case Some(begin) =>
      if begin != uncommittedBegin then
        UncommittedRange(InvalidLLSN, InvalidLLSN, Some(UnexpectedUncommittedBegin(uncommittedBegin, begin)))
      else
        var last := SeekLT(s.data.Keys, U64_MODULUS).value;
        assert last == Greatest(s.data.Keys);
        UncommittedRange(begin, Wrap(last + 1), None)
  }

  /**
   * ReadRecoveryPoints: the three reads in order, stopping at the first
   * error and returning what was filled in so far.
   */
  function ReadRecoveryPoints(s: Columns): (r: (RecoveryPoints, Option<Error>))
    ensures r.0.lastCommitContext == ReadLastCommitContext(s)
    ensures r.0.first == ReadLogEntryBoundaries(s).first && r.0.last == ReadLogEntryBoundaries(s).last
    ensures ReadLogEntryBoundaries(s).err.Some? ==>
      r.1 == ReadLogEntryBoundaries(s).err && r.0.uncommittedBegin == InvalidLLSN && r.0.uncommittedEnd == InvalidLLSN
    ensures ReadLogEntryBoundaries(s).err.None? ==>
      var u := ReadUncommittedBoundaries(s, UncommittedBegin(s.commitContext));
      r.1 == u.err && r.0.uncommittedBegin == u.begin && r.0.uncommittedEnd == u.end
  {
    var cc := ReadLastCommitContext(s);
    var b := ReadLogEntryBoundaries(s);
    if b.err.Some? then
      (RecoveryPoints(cc, b.first, b.last, InvalidLLSN, InvalidLLSN), b.err)
    else
      var u := ReadUncommittedBoundaries(s, UncommittedBegin(cc));
      (RecoveryPoints(cc, b.first, b.last, u.begin, u.end), u.err)
  }

  /** Every commit record has its data, and none sits at MaxGLSN (whose one-key scan bound wraps). */
  ghost predicate CommitsResolvable(s: Columns) {
    forall g | g in s.commits :: g < MaxGLSN && s.commits[g] in s.data
  }

  /**
   * On a store whose commit records all resolve, the boundaries are found
   * without error, are the least and greatest commit records, and — with a
   * monotone commit index — the first LLSN is at most the last.
   */
  lemma BoundariesOfResolvableStore(s: Columns)
    requires CommitsResolvable(s) && s.commits != map[]
    ensures ReadLogEntryBoundaries(s).err.None?
    ensures ReadLogEntryBoundaries(s).first.Some? && ReadLogEntryBoundaries(s).last.Some?
    ensures
      var f := ReadLogEntryBoundaries(s).first.value;
      var l := ReadLogEntryBoundaries(s).last.value;
      && f.glsn in s.commits && l.glsn in s.commits && f.glsn <= l.glsn
      && (forall g | g in s.commits :: f.glsn <= g <= l.glsn)
      && (CommitIndexMonotone(s.commits) ==> f.llsn <= l.llsn)
  {
    var lo := Least(s.commits.Keys);
    var hi := Greatest(s.commits.Keys);
    assert ReadGLSN(s, lo).Success? && ReadGLSN(s, hi).Success?;
    var b := ReadLogEntryBoundaries(s);
    assert b.first == Some(LogSequenceNumber(s.commits[lo], lo));
    assert b.last == Some(LogSequenceNumber(s.commits[hi], hi));
    forall g | g in s.commits ensures lo <= g <= hi {
      assert g in s.commits.Keys;
    }
    if CommitIndexMonotone(s.commits) {
      if lo < hi {
        assert s.commits[lo] < s.commits[hi];
      } else {
        assert lo == hi;
      }
      assert b.first.value.llsn <= b.last.value.llsn;
    }
  }

  /** A commit record whose data is missing makes recovery fail. */
  lemma MissingDataFailsRecovery(s: Columns)
    requires s.commits != map[]
    requires forall g | g in s.commits :: g < MaxGLSN
    requires Least(s.commits.Keys) in s.commits && s.commits[Least(s.commits.Keys)] !in s.data
    ensures ReadRecoveryPoints(s).1 == Some(InconsistentWriteCommitState)
    ensures ReadRecoveryPoints(s).0.first.None?
  {
  }

  /** An empty store recovers to nothing, without error. */
  lemma RecoveryOfEmptyStore()
    ensures ReadRecoveryPoints(Empty) == (RecoveryPoints(None, None, None, InvalidLLSN, InvalidLLSN), None)
  {
    assert UncommittedBegin(None) == MinLLSN;
  }

  /** Boundaries of a store whose only commit record is GLSN 1 -> LLSN 1, with its data present. */
  lemma SingleCommitBoundaries(s: Columns)
    requires s.commits == map[1 := 1] && 1 in s.data
    ensures ReadLogEntryBoundaries(s) == Boundaries(Some(LogSequenceNumber(1, 1)), Some(LogSequenceNumber(1, 1)), None)
  {
    assert s.commits.Keys == {1};
    assert Least(s.commits.Keys) == 1 && Greatest(s.commits.Keys) == 1;
    assert ReadGLSN(s, 1).Success?;
  }

  /** The example's context: GLSNs [1, 2) committed from LLSN 1, so the next LLSN is 2. */
  const ExampleContext := CommitContext(2, 2, 1, 2, 1)

  /** With GLSN 1 -> LLSN 1 committed and no later data, there is no uncommitted range. */
  lemma RecoveryWithoutUncommitted(s: Columns)
    requires s.commits == map[1 := 1] && s.data.Keys == {1} && s.commitContext == Some(ExampleContext)
    ensures ReadRecoveryPoints(s) ==
      (RecoveryPoints(Some(ExampleContext), Some(LogSequenceNumber(1, 1)), Some(LogSequenceNumber(1, 1)), InvalidLLSN, InvalidLLSN), None)
  {
    SingleCommitBoundaries(s);
    assert UncommittedBegin(Some(ExampleContext)) == 2;
    assert SeekGE(s.data.Keys, 2).None?;
  }

  /** The same store with LLSN 2 written but not committed: the uncommitted range is [2, 3). */
  lemma RecoveryWithUncommitted(s: Columns)
    requires s.commits == map[1 := 1] && s.data.Keys == {1, 2} && s.commitContext == Some(ExampleContext)
    ensures ReadRecoveryPoints(s) ==
      (RecoveryPoints(Some(ExampleContext), Some(LogSequenceNumber(1, 1)), Some(LogSequenceNumber(1, 1)), 2, 3), None)
  {
    SingleCommitBoundaries(s);
    assert UncommittedBegin(Some(ExampleContext)) == 2;
    GreatestOfFirstTwo(s.data.Keys);
    var u := ReadUncommittedBoundaries(s, 2);
    assert u.err.None? && u.begin == 2 && u.end == 3;
  }

  /** Of the keys 1 and 2, 2 is the greatest. */
  lemma GreatestOfFirstTwo(keys: set<U64>)
    requires keys == {1, 2}
    ensures Greatest(keys) == 2
  {
    GreatestIs(keys, 2);
  }

  /**
   * One entry committed (GLSN 1 -> LLSN 1) under a context covering GLSNs
   * [1, 2): recovery reports the context and first = last = (1, 1) with no
   * uncommitted range. Beyond what the repository's test checks: after a
   * further write at LLSN 2 the uncommitted range is [2, 3).
   */
  lemma RecoveryExample()
    ensures
      var s := Columns(map[1 := []], map[1 := 1], Some(ExampleContext));
      var s2 := s.(data := s.data[2 := []]);
      && ReadRecoveryPoints(s) ==
           (RecoveryPoints(Some(ExampleContext), Some(LogSequenceNumber(1, 1)), Some(LogSequenceNumber(1, 1)), InvalidLLSN, InvalidLLSN), None)
      && ReadRecoveryPoints(s2) ==
           (RecoveryPoints(Some(ExampleContext), Some(LogSequenceNumber(1, 1)), Some(LogSequenceNumber(1, 1)), 2, 3), None)
  {
    var s := Columns(map[1 := []], map[1 := 1], Some(ExampleContext));
    var s2 := s.(data := s.data[2 := []]);
    assert s2.data.Keys == {1, 2};
    RecoveryWithoutUncommitted(s);
    RecoveryWithUncommitted(s2);
  }
}
