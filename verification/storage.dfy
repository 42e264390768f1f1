/**
 * The per-replica log store: a data column (LLSN -> payload), a commit column
 * (GLSN -> LLSN) and one commit-context record. The ordered key-value engine
 * underneath is abstracted to three values; batches are staged lists of
 * updates applied atomically; the iterator moves are those of OrderedKeys.
 */
module Storage {
  import opened Types
  import opened Wrappers
  import opened OrderedKeys

  datatype Error =
    | NoLogEntry
    | NoCommitContext
    | InconsistentWriteCommitState
    | UnexpectedUncommittedBegin(expected: LLSN, got: LLSN)

  /** One commit round as applied to this replica. */
  datatype CommitContext = CommitContext(
    version: U64,
    highWatermark: GLSN,
    committedGLSNBegin: GLSN,
    committedGLSNEnd: GLSN,
    committedLLSNBegin: LLSN)

  datatype LogEntryMeta = LogEntryMeta(llsn: LLSN, glsn: GLSN)

  datatype LogEntry = LogEntry(llsn: LLSN, glsn: GLSN, data: Bytes)

  /** The abstract content of the engine: both columns and the commit-context record. */
  datatype Columns = Columns(
    data: map<LLSN, Bytes>,
    commits: map<GLSN, LLSN>,
    commitContext: Option<CommitContext>)

  const Empty: Columns := Columns(map[], map[], None)

  /**
   * What a healthy replica's commit column looks like: LLSNs grow with GLSNs,
   * and between two commit records the GLSN advances at least as far as the
   * LLSN (GLSNs are shared by all log streams, LLSNs are this replica's own).
   */
  ghost predicate CommitIndexMonotone(commits: map<GLSN, LLSN>) {
    forall g1, g2 | g1 in commits && g2 in commits && g1 < g2 ::
      commits[g1] < commits[g2] && commits[g2] - commits[g1] <= g2 - g1
  }

  // ---------------------------------------------------------------------------
  // Scanning and point reads

  /** The key range of a scanner: a GLSN range selects the commit column, an LLSN range the data column. */
  datatype ScanRange = WithGLSN(beginGLSN: GLSN, endGLSN: GLSN) | WithLLSN(beginLLSN: LLSN, endLLSN: LLSN)

  /** The value a scanner yields at commit key `glsn`: the entry, or an error when its data is missing. */
  function EntryAt(s: Columns, glsn: GLSN): (r: Result<LogEntry, Error>)
    requires glsn in s.commits
    ensures r.Success? ==> r.value.glsn == glsn
    ensures r.Failure? ==> r == Failure(InconsistentWriteCommitState)
  {
    var llsn := s.commits[glsn];
    if llsn in s.data then Success(LogEntry(llsn, glsn, s.data[llsn]))
    else Failure(InconsistentWriteCommitState)
  }

  /** The commit keys in [begin, end). */
  ghost function CommitKeysIn(s: Columns, begin: int, end: int): set<GLSN> {
    KeysBetween(s.commits.Keys, begin, end)
  }

  /**
   * `r` is what a scan of the commit column over [begin, end) yields: one
   * result per commit key in the range; each entry is the one its commit
   * record points at, the entries come in ascending GLSN order, no key is left
   * out, and a record whose data is missing yields the inconsistency error.
   */
  ghost predicate IsCommitScan(s: Columns, begin: int, end: int, r: seq<Result<LogEntry, Error>>) {
    && |r| == |CommitKeysIn(s, begin, end)|
    && (forall i | 0 <= i < |r| && r[i].Success? ::
          r[i].value.glsn in CommitKeysIn(s, begin, end) && r[i] == EntryAt(s, r[i].value.glsn))
    && (forall i | 0 <= i < |r| && r[i].Failure? :: r[i] == Failure(InconsistentWriteCommitState))
    && (forall i, j | 0 <= i < j < |r| && r[i].Success? && r[j].Success? :: r[i].value.glsn < r[j].value.glsn)
    && (forall g | g in CommitKeysIn(s, begin, end) :: EntryAt(s, g) in r)
  }

  /**
   * Everything a scanner yields, in order. A GLSN scan walks the commit column
   * and dereferences each record into the data column; an LLSN scan walks the
   * data column and so also yields entries that were never committed (with an
   * invalid GLSN).
   */
  function NewScanner(s: Columns, range: ScanRange): (r: seq<Result<LogEntry, Error>>)
    ensures range.WithGLSN? ==> IsCommitScan(s, range.beginGLSN, range.endGLSN, r)
    ensures range.WithLLSN? ==>
      && (forall i | 0 <= i < |r| ::
            && r[i].Success? && r[i].value.glsn == InvalidGLSN
            && r[i].value.llsn in s.data && r[i].value.data == s.data[r[i].value.llsn]
            && range.beginLLSN <= r[i].value.llsn < range.endLLSN)
      && (forall i, j | 0 <= i < j < |r| :: r[i].value.llsn < r[j].value.llsn)
      && (forall l | l in s.data && range.beginLLSN <= l < range.endLLSN ::
            Success(LogEntry(l, InvalidGLSN, s.data[l])) in r)
  {
    match range
    case WithGLSN(begin, end) => ScanCommitColumn(s, begin, end)
    case WithLLSN(begin, end) => ScanDataColumn(s, begin, end)
  }

  function ScanCommitColumn(s: Columns, begin: GLSN, end: GLSN): (r: seq<Result<LogEntry, Error>>)
    ensures IsCommitScan(s, begin, end, r)
  {
    var keys := KeysInRange(s.commits.Keys, begin, end);
    var r := Dereference(s, keys);
    CommitScanOfKeys(s, begin, end, keys, r);
    r
  }

  /** The entry each commit key points at, key by key. */
  function Dereference(s: Columns, keys: seq<GLSN>): (r: seq<Result<LogEntry, Error>>)
    requires forall i | 0 <= i < |keys| :: keys[i] in s.commits
    ensures |r| == |keys| && forall i | 0 <= i < |r| :: keys[i] in s.commits && r[i] == EntryAt(s, keys[i])
  {
    seq(|keys|, i requires 0 <= i < |keys| => EntryAt(s, keys[i]))
  }

  /** Dereferencing the ascending commit keys of [begin, end) one by one is a commit scan. */
  lemma CommitScanOfKeys(s: Columns, begin: GLSN, end: GLSN, keys: seq<GLSN>, r: seq<Result<LogEntry, Error>>)
    requires keys == KeysInRange(s.commits.Keys, begin, end)
    requires |r| == |keys| && forall i | 0 <= i < |r| :: keys[i] in s.commits && r[i] == EntryAt(s, keys[i])
    ensures IsCommitScan(s, begin, end, r)
  {
    KeysInRangeCount(s.commits.Keys, begin, end);
    CommitScanSound(s, begin, end, keys, r);
    CommitScanAscending(s, begin, end, keys, r);
    CommitScanComplete(s, begin, end, keys, r);
  }

  /** Each entry of the scan belongs to a commit key in range. */
  lemma CommitScanSound(s: Columns, begin: GLSN, end: GLSN, keys: seq<GLSN>, r: seq<Result<LogEntry, Error>>)
    requires keys == KeysInRange(s.commits.Keys, begin, end)
    requires |r| == |keys| && forall i | 0 <= i < |r| :: keys[i] in s.commits && r[i] == EntryAt(s, keys[i])
    ensures forall i | 0 <= i < |r| && r[i].Success? ::
      r[i].value.glsn in CommitKeysIn(s, begin, end) && r[i] == EntryAt(s, r[i].value.glsn)
  {
    forall i | 0 <= i < |r| && r[i].Success?
      ensures r[i].value.glsn in CommitKeysIn(s, begin, end) && r[i] == EntryAt(s, r[i].value.glsn)
    {
      assert keys[i] in CommitKeysIn(s, begin, end);
    }
  }

  /** The successful entries of the scan come in ascending GLSN order. */
  lemma CommitScanAscending(s: Columns, begin: GLSN, end: GLSN, keys: seq<GLSN>, r: seq<Result<LogEntry, Error>>)
    requires keys == KeysInRange(s.commits.Keys, begin, end)
    requires |r| == |keys| && forall i | 0 <= i < |r| :: keys[i] in s.commits && r[i] == EntryAt(s, keys[i])
    ensures forall i, j | 0 <= i < j < |r| && r[i].Success? && r[j].Success? :: r[i].value.glsn < r[j].value.glsn
  {
    forall i, j | 0 <= i < j < |r| && r[i].Success? && r[j].Success?
      ensures r[i].value.glsn < r[j].value.glsn
    {
      assert keys[i] < keys[j];
    }
  }

  /** No commit key in range is left out of the scan. */
  lemma CommitScanComplete(s: Columns, begin: GLSN, end: GLSN, keys: seq<GLSN>, r: seq<Result<LogEntry, Error>>)
    requires keys == KeysInRange(s.commits.Keys, begin, end)
    requires |r| == |keys| && forall i | 0 <= i < |r| :: keys[i] in s.commits && r[i] == EntryAt(s, keys[i])
    ensures forall g | g in CommitKeysIn(s, begin, end) :: EntryAt(s, g) in r
  {
    forall g | g in CommitKeysIn(s, begin, end) ensures EntryAt(s, g) in r {
      var i :| 0 <= i < |keys| && keys[i] == g;
      assert r[i] == EntryAt(s, g);
    }
  }

  function ScanDataColumn(s: Columns, begin: LLSN, end: LLSN): (r: seq<Result<LogEntry, Error>>)
    ensures forall i | 0 <= i < |r| ::
      && r[i].Success? && r[i].value.glsn == InvalidGLSN
      && r[i].value.llsn in s.data && r[i].value.data == s.data[r[i].value.llsn]
      && begin <= r[i].value.llsn < end
    ensures forall i, j | 0 <= i < j < |r| :: r[i].value.llsn < r[j].value.llsn
    ensures forall l | l in s.data && begin <= l < end :: Success(LogEntry(l, InvalidGLSN, s.data[l])) in r
  {
    var keys := KeysInRange(s.data.Keys, begin, end);
    var r := Uncommitted(s, keys);
    DataScanComplete(s, begin, end, keys, r);
    r
  }

  /** Each data key as an entry with no GLSN, key by key. */
  function Uncommitted(s: Columns, keys: seq<LLSN>): (r: seq<Result<LogEntry, Error>>)
    requires forall i | 0 <= i < |keys| :: keys[i] in s.data
    ensures |r| == |keys| && forall i | 0 <= i < |r| ::
      keys[i] in s.data && r[i] == Success(LogEntry(keys[i], InvalidGLSN, s.data[keys[i]]))
  {
    seq(|keys|, i requires 0 <= i < |keys| => Success(LogEntry(keys[i], InvalidGLSN, s.data[keys[i]])))
  }

  /** No data key in range is left out of the scan. */
  lemma DataScanComplete(s: Columns, begin: LLSN, end: LLSN, keys: seq<LLSN>, r: seq<Result<LogEntry, Error>>)
    requires keys == KeysInRange(s.data.Keys, begin, end)
    requires |r| == |keys| && forall i | 0 <= i < |r| ::
      keys[i] in s.data && r[i] == Success(LogEntry(keys[i], InvalidGLSN, s.data[keys[i]]))
    ensures forall l | l in s.data && begin <= l < end :: Success(LogEntry(l, InvalidGLSN, s.data[l])) in r
  {
    forall l | l in s.data && begin <= l < end
      ensures Success(LogEntry(l, InvalidGLSN, s.data[l])) in r
    {
      var i :| 0 <= i < |keys| && keys[i] == l;
      assert r[i] == Success(LogEntry(l, InvalidGLSN, s.data[l]));
    }
  }

  /**
   * Reads the committed entry at `glsn` through a one-key scan of
   * [glsn, glsn + 1); the bound is computed in uint64, so at MaxGLSN it wraps
   * to 0 and the scan is empty.
   */
  function ReadGLSN(s: Columns, glsn: GLSN): (r: Result<LogEntry, Error>)
    ensures r.Success? <==> glsn < MaxGLSN && glsn in s.commits && s.commits[glsn] in s.data
    ensures r.Success? ==> r.value == LogEntry(s.commits[glsn], glsn, s.data[s.commits[glsn]])
    ensures (glsn !in s.commits || glsn == MaxGLSN) ==> r == Failure(NoLogEntry)
    ensures glsn < MaxGLSN && glsn in s.commits && s.commits[glsn] !in s.data ==>
      r == Failure(InconsistentWriteCommitState)
  {
    var items := NewScanner(s, WithGLSN(glsn, Wrap(glsn + 1)));
    assert CommitKeysIn(s, glsn, Wrap(glsn + 1)) == if glsn < MaxGLSN && glsn in s.commits then {glsn} else {};
    if |items| == 0 then Failure(NoLogEntry) else items[0]
  }

  /** The spec of a read by LLSN: the committed entry whose commit record points at `llsn`. */
  ghost function LookupLLSN(s: Columns, llsn: LLSN): Result<LogEntry, Error> {
    if exists g :: g in s.commits && s.commits[g] == llsn then
      var g :| g in s.commits && s.commits[g] == llsn;
      ReadGLSN(s, g)
    else
      Failure(NoLogEntry)
  }

  function ReadCommitContext(s: Columns): (r: Result<CommitContext, Error>)
    ensures r.Failure? <==> s.commitContext.None?
    ensures r.Failure? ==> r.error == NoCommitContext
    ensures r.Success? ==> s.commitContext == Some(r.value)
  {
    match s.commitContext
    case None => Failure(NoCommitContext)
    case Some(cc) => Success(cc)
  }

  /**
   * The greatest committed GLSN at or below `glsn`, with its LLSN: `Last()`
   * under an exclusive upper bound of glsn + 1, or of the column's sentinel
   * when glsn is MaxGLSN (so glsn + 1 is never computed there).
   */
  function FindLTE(s: Columns, glsn: GLSN): (r: Result<LogEntryMeta, Error>)
    ensures r.Failure? <==> forall g | g in s.commits :: glsn < g
    ensures r.Failure? ==> r.error == NoLogEntry
    ensures r.Success? ==>
      && r.value.glsn in s.commits && r.value.glsn <= glsn
      && r.value.llsn == s.commits[r.value.glsn]
      && forall g | g in s.commits && g <= glsn :: g <= r.value.glsn
  {
    var upper: int := if glsn < MaxGLSN then glsn + 1 else U64_MODULUS;
    match SeekLT(s.commits.Keys, upper)
    case None => Failure(NoLogEntry)
    case Some(g) => Success(LogEntryMeta(s.commits[g], g))
  }

  // ---------------------------------------------------------------------------
  // Batches

  /** Updates staged for one atomic write: data sets, commit-index sets and at most one commit context. */
  datatype Batch = Batch(
    dataSets: seq<(LLSN, Bytes)>,
    commitSets: seq<(GLSN, LLSN)>,
    commitContext: Option<CommitContext>)

  function NewWriteBatch(): Batch {
    Batch([], [], None)
  }

  /** A commit batch always stages the commit context it is created with. */
  function NewCommitBatch(cc: CommitContext): (b: Batch)
    ensures b.commitContext == Some(cc) && b.dataSets == [] && b.commitSets == []
  {
    Batch([], [], Some(cc))
  }

  /** An append batch starts with no commit context staged. */
  function NewAppendBatch(): (b: Batch)
    ensures b.commitContext.None? && b.dataSets == [] && b.commitSets == []
  {
    Batch([], [], None)
  }

  /** WriteBatch.Set: stage a payload at an LLSN. */
  function WriteBatchSet(b: Batch, llsn: LLSN, data: Bytes): Batch {
    b.(dataSets := b.dataSets + [(llsn, data)])
  }

  /** CommitBatch.Set: stage the commit record GLSN -> LLSN. */
  function CommitBatchSet(b: Batch, llsn: LLSN, glsn: GLSN): Batch {
    b.(commitSets := b.commitSets + [(glsn, llsn)])
  }

  /** AppendBatch.SetLogEntry: stage the payload and its commit record together. */
  function AppendBatchSetLogEntry(b: Batch, llsn: LLSN, glsn: GLSN, data: Bytes): Batch {
    b.(dataSets := b.dataSets + [(llsn, data)], commitSets := b.commitSets + [(glsn, llsn)])
  }

  function AppendBatchSetCommitContext(b: Batch, cc: CommitContext): Batch {
    b.(commitContext := Some(cc))
  }

  function StagedKeys<V>(sets: seq<(U64, V)>): set<U64> {
    set i | 0 <= i < |sets| :: sets[i].0
  }

  /** Applies staged sets in order; a later set of the same key wins. */
  function PutAll<V>(m: map<U64, V>, sets: seq<(U64, V)>): (r: map<U64, V>)
    ensures r.Keys == m.Keys + StagedKeys(sets)
    ensures forall k | k in m && k !in StagedKeys(sets) :: r[k] == m[k]
    ensures |sets| > 0 ==> r[sets[|sets| - 1].0] == sets[|sets| - 1].1
    ensures forall i | 0 <= i < |sets| && IsLastSetOfKey(sets, i) :: r[sets[i].0] == sets[i].1
  {
    if sets == [] then m
    else
      var prefix := sets[..|sets| - 1];
      var last := sets[|sets| - 1];
      StagedKeysOfSnoc(sets);
      var p := PutAll(m, prefix);
      LastSetWins(sets, p);
      p[last.0 := last.1]
  }

  /** The keys staged by a non-empty sequence: those of all but its last set, and the last set's key. */
  lemma StagedKeysOfSnoc<V>(sets: seq<(U64, V)>)
    requires sets != []
    ensures StagedKeys(sets) == StagedKeys(sets[..|sets| - 1]) + {sets[|sets| - 1].0}
  {
    var prefix := sets[..|sets| - 1];
    forall k | k in StagedKeys(sets) ensures k in StagedKeys(prefix) + {sets[|sets| - 1].0} {
      var i :| 0 <= i < |sets| && sets[i].0 == k;
      if i < |sets| - 1 { assert prefix[i] == sets[i]; }
    }
    forall k | k in StagedKeys(prefix) ensures k in StagedKeys(sets) {
      var i :| 0 <= i < |prefix| && prefix[i].0 == k;
      assert sets[i] == prefix[i];
    }
  }

  /** No set after the `i`th stages the same key. */
  predicate IsLastSetOfKey<V>(sets: seq<(U64, V)>, i: int)
    requires 0 <= i < |sets|
  {
    forall j | i < j < |sets| :: sets[j].0 != sets[i].0
  }

  /**
   * If every set of all but the last of `sets` that no later one overrides is
   * in `p`, then after also applying the last set the same holds for `sets`.
   */
  lemma LastSetWins<V>(sets: seq<(U64, V)>, p: map<U64, V>)
    requires sets != []
    requires forall i | 0 <= i < |sets| - 1 && IsLastSetOfKey(sets[..|sets| - 1], i) ::
      sets[i].0 in p && p[sets[i].0] == sets[i].1
    ensures var r := p[sets[|sets| - 1].0 := sets[|sets| - 1].1];
      forall i | 0 <= i < |sets| && IsLastSetOfKey(sets, i) :: sets[i].0 in r && r[sets[i].0] == sets[i].1
  {
    var prefix := sets[..|sets| - 1];
    var r := p[sets[|sets| - 1].0 := sets[|sets| - 1].1];
    forall i | 0 <= i < |sets| && IsLastSetOfKey(sets, i)
      ensures sets[i].0 in r && r[sets[i].0] == sets[i].1
    {
      if i < |prefix| {
        assert sets[|sets| - 1].0 != sets[i].0;
        assert IsLastSetOfKey(prefix, i) by {
          forall j | i < j < |prefix| ensures prefix[j].0 != prefix[i].0 {
            assert prefix[j] == sets[j] && prefix[i] == sets[i];
          }
        }
      }
    }
  }

  /** The effect of committing a batch: every staged update at once. */
  function ApplyBatch(s: Columns, b: Batch): Columns {
    Columns(
      PutAll(s.data, b.dataSets),
      PutAll(s.commits, b.commitSets),
      if b.commitContext.Some? then b.commitContext else s.commitContext)
  }

  function ApplyAll(s: Columns, bs: seq<Batch>): Columns {
    if bs == [] then s else ApplyBatch(ApplyAll(s, bs[..|bs| - 1]), bs[|bs| - 1])
  }

  /** The commit context staged by the last batch of `bs` that stages one, else `prior`. */
  function LastStagedContext(bs: seq<Batch>, prior: Option<CommitContext>): Option<CommitContext> {
    if bs == [] then prior
    else if bs[|bs| - 1].commitContext.Some? then bs[|bs| - 1].commitContext
    else LastStagedContext(bs[..|bs| - 1], prior)
  }

  // ---------------------------------------------------------------------------
  // Trim

  /** Pebble's DeleteRange(lo, hi): removes the keys in [lo, hi). */
  function RangeDelete<V>(m: map<U64, V>, lo: int, hi: int): map<U64, V> {
    map k | k in m && !(lo <= k < hi) :: m[k]
  }

  /**
   * The store after Trim(glsn): both columns range-deleted from their minimum
   * up to (uint64) one past the located boundary; the commit context is kept.
   */
  function Trimmed(s: Columns, glsn: GLSN): Result<Columns, Error> {
    match FindLTE(s, glsn)
    case Failure(e) => Failure(e)
    case Success(lem) =>
      Success(Columns(
        RangeDelete(s.data, MinLLSN, Wrap(lem.llsn + 1)),
        RangeDelete(s.commits, MinGLSN, Wrap(lem.glsn + 1)),
        s.commitContext))
  }

  // ---------------------------------------------------------------------------
  // The store object

  datatype ReadConfig = ReadConfig(glsn: GLSN, llsn: LLSN)

  function AtGLSN(glsn: GLSN): ReadConfig {
    ReadConfig(glsn, InvalidLLSN)
  }

  function AtLLSN(llsn: LLSN): ReadConfig {
    ReadConfig(InvalidGLSN, llsn)
  }

  /** Every commit record of `llsn` lies at or after the iterator's key (and the iterator is valid if one exists). */
  ghost predicate CandidatesFrom(commits: map<GLSN, LLSN>, llsn: LLSN, it: Option<U64>) {
    forall g | g in commits && commits[g] == llsn :: it.Some? && it.value <= g
  }

  /** With a monotone index, a key whose LLSN is past `llsn` means `llsn` was never committed. */
  lemma PassedLLSN(commits: map<GLSN, LLSN>, curr: GLSN, llsn: LLSN)
    requires CommitIndexMonotone(commits) && curr in commits && llsn < commits[curr]
    requires CandidatesFrom(commits, llsn, Some(curr))
    ensures forall g | g in commits :: commits[g] != llsn
  {
    forall g | g in commits ensures commits[g] != llsn {
      if commits[g] == llsn {
        assert false;
      }
    }
  }

  /** With a monotone index, the key found for `llsn` is its only commit record. */
  lemma FoundLLSN(commits: map<GLSN, LLSN>, curr: GLSN, llsn: LLSN)
    requires CommitIndexMonotone(commits) && curr in commits && commits[curr] == llsn
    ensures forall g | g in commits && commits[g] == llsn :: g == curr
  {
    forall g | g in commits && commits[g] == llsn ensures g == curr {
      if g != curr {
        assert false;
      }
    }
  }

  /** With a monotone index, GLSNs advance at least as fast as LLSNs, so the guess skips no candidate. */
  lemma GuessKeepsCandidates(commits: map<GLSN, LLSN>, curr: GLSN, llsn: LLSN)
    requires CommitIndexMonotone(commits) && curr in commits && commits[curr] < llsn
    requires CandidatesFrom(commits, llsn, Some(curr))
    ensures CandidatesFrom(commits, llsn, SeekGE(commits.Keys, curr + (llsn - commits[curr])))
  {
    var guess := curr + (llsn - commits[curr]);
    forall g | g in commits && commits[g] == llsn
      ensures SeekGE(commits.Keys, guess).Some? && SeekGE(commits.Keys, guess).value <= g
    {
      assert curr < g;
      assert g in commits.Keys;
    }
  }

  class Storage {
    var data: map<LLSN, Bytes>
    var commits: map<GLSN, LLSN>
    var commitContext: Option<CommitContext>

    function State(): Columns
      reads this
    {
      Columns(data, commits, commitContext)
    }

    /** A store opened on an empty directory. */
    constructor ()
      ensures State() == Empty
    {
      data, commits, commitContext := map[], map[], None;
    }

    /** Commits a batch atomically. */
    method Apply(b: Batch)
      modifies this
      ensures State() == ApplyBatch(old(State()), b)
    {
      data := PutAll(data, b.dataSets);
      commits := PutAll(commits, b.commitSets);
      if b.commitContext.Some? {
        commitContext := b.commitContext;
      }
    }

    /**
     * Reads by LLSN: walks the commit column, and from a record (g, l) with
     * l < llsn seeks directly to g + (llsn - l), the least GLSN the wanted
     * record can have. The target is kept exact here; the source computes it
     * in uint64 (see SeekTargetAsWritten).
     */
    method ReadLLSN(llsn: LLSN) returns (r: Result<LogEntry, Error>)
      ensures r.Success? ==>
        && r.value.llsn == llsn && r.value.glsn in commits && commits[r.value.glsn] == llsn
        && r == ReadGLSN(State(), r.value.glsn)
      ensures (forall g | g in commits :: commits[g] != llsn) ==> r == Failure(NoLogEntry)
      ensures CommitIndexMonotone(commits) ==> r == LookupLLSN(State(), llsn)
    {
      var it := SeekGE(commits.Keys, 0);
      while it.Some?
        invariant it.Some? ==> it.value in commits
        invariant CommitIndexMonotone(commits) ==> CandidatesFrom(commits, llsn, it)
        decreases if it.Some? then U64_MODULUS - it.value else 0
      {
        var currGLSN := it.value;
        var currLLSN := commits[currGLSN];
        if currLLSN > llsn {
          r := Failure(NoLogEntry);
          if CommitIndexMonotone(commits) {
            PassedLLSN(commits, currGLSN, llsn);
          }
          return;
        }
        if currLLSN == llsn {
          r := ReadGLSN(State(), currGLSN);
          if CommitIndexMonotone(commits) {
            FoundLLSN(commits, currGLSN, llsn);
          }
          return;
        }
        var delta: int := llsn - currLLSN;
        var glsnGuess: int := currGLSN + delta;
        if CommitIndexMonotone(commits) {
          GuessKeepsCandidates(commits, currGLSN, llsn);
        }
        it := SeekGE(commits.Keys, glsnGuess);
      }
      r := Failure(NoLogEntry);
    }

    /** Read: the GLSN path whenever the GLSN option is valid, the LLSN path otherwise. */
    method Read(cfg: ReadConfig) returns (r: Result<LogEntry, Error>)
      ensures cfg.glsn != InvalidGLSN ==> r == ReadGLSN(State(), cfg.glsn)
      ensures cfg.glsn == InvalidGLSN && r.Success? ==>
        r.value.llsn == cfg.llsn && r.value.glsn in commits && commits[r.value.glsn] == cfg.llsn
      ensures cfg.glsn == InvalidGLSN && CommitIndexMonotone(commits) ==> r == LookupLLSN(State(), cfg.llsn)
    {
      if cfg.glsn != InvalidGLSN {
        return ReadGLSN(State(), cfg.glsn);
      }
      r := ReadLLSN(cfg.llsn);
    }

    /**
     * Deletes every commit record up to the greatest committed GLSN <= glsn and
     * every data record up to its LLSN; the commit context stays.
     */
    method Trim(glsn: GLSN) returns (err: Option<Error>)
      modifies this
      ensures Trimmed(old(State()), glsn).Failure? ==>
        err == Some(Trimmed(old(State()), glsn).error) && State() == old(State())
      ensures Trimmed(old(State()), glsn).Success? ==>
        err.None? && State() == Trimmed(old(State()), glsn).value
    {
      var lem := FindLTE(State(), glsn);
      if lem.Failure? {
        return Some(lem.error);
      }
      var trimGLSN, trimLLSN := lem.value.glsn, lem.value.llsn;
      commits := RangeDelete(commits, MinGLSN, Wrap(trimGLSN as int + 1));
      data := RangeDelete(data, MinLLSN, Wrap(trimLLSN as int + 1));
      err := None;
    }
  }

  // ---------------------------------------------------------------------------
  // Properties

  /** Under a monotone commit index, the LLSN read and the GLSN read of one record agree. */
  lemma LookupAgreesWithCommitIndex(s: Columns, glsn: GLSN)
    requires CommitIndexMonotone(s.commits) && glsn in s.commits
    ensures LookupLLSN(s, s.commits[glsn]) == ReadGLSN(s, glsn)
  {
    var llsn := s.commits[glsn];
    FoundLLSN(s.commits, glsn, llsn);
    assert exists g :: g in s.commits && s.commits[g] == llsn;
  }

  /** Entries written but never committed are invisible to both reads, yet an LLSN scan returns them. */
  lemma UncommittedInvisibleToReads(s: Columns, llsn: LLSN, lo: LLSN, hi: LLSN)
    requires llsn in s.data && forall g | g in s.commits :: s.commits[g] != llsn
    requires lo <= llsn < hi
    ensures LookupLLSN(s, llsn) == Failure(NoLogEntry)
    ensures forall g: GLSN :: ReadGLSN(s, g).Success? ==> ReadGLSN(s, g).value.llsn != llsn
    ensures Success(LogEntry(llsn, InvalidGLSN, s.data[llsn])) in NewScanner(s, WithLLSN(lo, hi))
  {
  }

  /** A batch's last SetLogEntry makes that entry readable by GLSN; the context changes only if staged. */
  lemma SetLogEntryReadable(s: Columns, b: Batch, llsn: LLSN, glsn: GLSN, data: Bytes)
    requires glsn < MaxGLSN
    ensures ReadGLSN(ApplyBatch(s, AppendBatchSetLogEntry(b, llsn, glsn, data)), glsn)
      == Success(LogEntry(llsn, glsn, data))
    ensures b.commitContext.None? ==>
      ApplyBatch(s, AppendBatchSetLogEntry(b, llsn, glsn, data)).commitContext == s.commitContext
  {
  }

  /**
   * Round trip: write a payload at `llsn`, then commit it at `glsn`; if the
   * commit index stays monotone, the reads by GLSN and by LLSN both return
   * the same {LLSN, GLSN, Data}.
   */
  lemma WriteCommitRoundTrip(s: Columns, wb: Batch, cb: Batch, llsn: LLSN, glsn: GLSN, data: Bytes)
    requires wb.commitSets == [] && wb.commitContext.None?
    requires cb.dataSets == []
    requires glsn < MaxGLSN
    requires CommitIndexMonotone(
      ApplyBatch(ApplyBatch(s, WriteBatchSet(wb, llsn, data)), CommitBatchSet(cb, llsn, glsn)).commits)
    ensures
      var s2 := ApplyBatch(ApplyBatch(s, WriteBatchSet(wb, llsn, data)), CommitBatchSet(cb, llsn, glsn));
      && ReadGLSN(s2, glsn) == Success(LogEntry(llsn, glsn, data))
      && LookupLLSN(s2, llsn) == Success(LogEntry(llsn, glsn, data))
  {
    var s1 := ApplyBatch(s, WriteBatchSet(wb, llsn, data));
    var s2 := ApplyBatch(s1, CommitBatchSet(cb, llsn, glsn));
    assert s1.data[llsn] == data;
    assert StagedKeys(cb.dataSets) == {};
    assert s2.data == s1.data;
    assert s2.commits[glsn] == llsn;
    LookupAgreesWithCommitIndex(s2, glsn);
  }

  /** Reads from a store holding LLSNs 1 and 2 committed at GLSNs 11 and 12. */
  lemma TwoCommittedEntriesReadable(s: Columns)
    requires s.commits == map[11 := 1, 12 := 2] && s.data == map[1 := [0x31], 2 := [0x32]]
    ensures ReadGLSN(s, 11) == Success(LogEntry(1, 11, [0x31]))
    ensures ReadGLSN(s, 12) == Success(LogEntry(2, 12, [0x32]))
    ensures LookupLLSN(s, 1) == Success(LogEntry(1, 11, [0x31]))
    ensures LookupLLSN(s, 2) == Success(LogEntry(2, 12, [0x32]))
  {
    assert s.commits.Keys == {11, 12} && s.data.Keys == {1, 2};
    assert CommitIndexMonotone(s.commits);
    LookupAgreesWithCommitIndex(s, 11);
    LookupAgreesWithCommitIndex(s, 12);
  }

  /**
   * The write-then-commit scenario: payloads "1" and "2" at LLSNs 1 and 2,
   * committed at GLSNs 11 and 12; both reads find them and the context is the
   * one the commit batch carried.
   */
  lemma WriteCommitExample()
    ensures
      var cc := CommitContext(1, 12, 11, 13, 1);
      var wb := WriteBatchSet(WriteBatchSet(NewWriteBatch(), 1, [0x31]), 2, [0x32]);
      var cb := CommitBatchSet(CommitBatchSet(NewCommitBatch(cc), 1, 11), 2, 12);
      var s := ApplyAll(Empty, [wb, cb]);
      && ReadGLSN(s, 11) == Success(LogEntry(1, 11, [0x31]))
      && ReadGLSN(s, 12) == Success(LogEntry(2, 12, [0x32]))
      && LookupLLSN(s, 1) == Success(LogEntry(1, 11, [0x31]))
      && LookupLLSN(s, 2) == Success(LogEntry(2, 12, [0x32]))
      && ReadCommitContext(s) == Success(cc)
  {
    WriteCommitBatchesApplied();
    var cc := CommitContext(1, 12, 11, 13, 1);
    TwoCommittedEntriesReadable(Columns(map[1 := [0x31], 2 := [0x32]], map[11 := 1, 12 := 2], Some(cc)));
  }

  /** The columns the scenario's two batches leave behind. */
  lemma WriteCommitBatchesApplied()
    ensures
      var cc := CommitContext(1, 12, 11, 13, 1);
      var wb := WriteBatchSet(WriteBatchSet(NewWriteBatch(), 1, [0x31]), 2, [0x32]);
      var cb := CommitBatchSet(CommitBatchSet(NewCommitBatch(cc), 1, 11), 2, 12);
      ApplyAll(Empty, [wb, cb]) == Columns(map[1 := [0x31], 2 := [0x32]], map[11 := 1, 12 := 2], Some(cc))
  {
    var cc := CommitContext(1, 12, 11, 13, 1);
    var wb := WriteBatchSet(WriteBatchSet(NewWriteBatch(), 1, [0x31]), 2, [0x32]);
    var cb := CommitBatchSet(CommitBatchSet(NewCommitBatch(cc), 1, 11), 2, 12);
    assert wb.dataSets == [(1, [0x31]), (2, [0x32])] && wb.commitSets == [] && wb.commitContext.None?;
    assert cb.commitSets == [(11, 1), (12, 2)] && cb.dataSets == [] && cb.commitContext == Some(cc);
    ApplyTwo(Empty, wb, cb);
    var data: map<LLSN, Bytes> := map[1 := [0x31], 2 := [0x32]];
    var commits: map<GLSN, LLSN> := map[11 := 1, 12 := 2];
    var s1 := ApplyBatch(Empty, wb);
    PutTwo(Empty.data, 1, [0x31], 2, [0x32]);
    assert s1.data == data;
    assert s1.commits == map[];
    var s2 := ApplyBatch(s1, cb);
    PutTwo(s1.commits, 11, 1, 12, 2);
    assert s2.commits == commits;
    assert s2 == Columns(data, commits, Some(cc));
  }

  /** Two staged sets in order. */
  lemma PutTwo<V>(m: map<U64, V>, k1: U64, v1: V, k2: U64, v2: V)
    ensures PutAll(m, [(k1, v1), (k2, v2)]) == m[k1 := v1][k2 := v2]
  {
    assert [(k1, v1), (k2, v2)][..1] == [(k1, v1)];
    assert [(k1, v1)][..0] == [];
  }

  /** Two batches in order. */
  lemma ApplyTwo(s: Columns, b1: Batch, b2: Batch)
    ensures ApplyAll(s, [b1, b2]) == ApplyBatch(ApplyBatch(s, b1), b2)
  {
    assert [b1, b2][..1] == [b1];
    assert [b1][..0] == [];
    assert ApplyAll(s, [b1]) == ApplyBatch(s, b1);
  }

  /** The commit context read back is the one staged by the last batch that staged any. */
  lemma {:induction false} CommitContextIsLastStaged(s: Columns, bs: seq<Batch>)
    ensures ApplyAll(s, bs).commitContext == LastStagedContext(bs, s.commitContext)
    ensures |bs| > 0 && bs[|bs| - 1].commitContext.Some? ==>
      ReadCommitContext(ApplyAll(s, bs)) == Success(bs[|bs| - 1].commitContext.value)
    ensures ReadCommitContext(ApplyAll(s, bs)).Failure? <==>
      s.commitContext.None? && forall i | 0 <= i < |bs| :: bs[i].commitContext.None?
  {
    if bs != [] {
      var prefix := bs[..|bs| - 1];
      var last := bs[|bs| - 1];
      CommitContextIsLastStaged(s, prefix);
      assert ApplyAll(s, bs).commitContext ==
        if last.commitContext.Some? then last.commitContext else ApplyAll(s, prefix).commitContext;
      if last.commitContext.None? {
        assert forall i | 0 <= i < |prefix| :: prefix[i] == bs[i];
        assert (forall i | 0 <= i < |bs| :: bs[i].commitContext.None?) <==>
          (forall i | 0 <= i < |prefix| :: prefix[i].commitContext.None?);
      }
    }
  }

  /** Trim removes every commit record at or below `glsn` and every data record up to the boundary LLSN, keeping the context. */
  lemma TrimRemovesPrefix(s: Columns, glsn: GLSN)
    ensures Trimmed(s, glsn).Failure? <==> forall g | g in s.commits :: glsn < g
    ensures Trimmed(s, glsn).Failure? ==> Trimmed(s, glsn).error == NoLogEntry
    ensures Trimmed(s, glsn).Success? ==>
      var t := Trimmed(s, glsn).value;
      var lem := FindLTE(s, glsn).value;
      && t.commitContext == s.commitContext
      && (forall g | g in s.commits && glsn < g :: g in t.commits && t.commits[g] == s.commits[g])
      && (forall l | l in s.data && lem.llsn < l :: l in t.data && t.data[l] == s.data[l])
      && (lem.glsn < MaxGLSN ==> forall g | g in t.commits :: g == InvalidGLSN || glsn < g)
      && (lem.llsn < MaxLLSN ==> forall l | l in t.data :: l == InvalidLLSN || lem.llsn < l)
  {
    if FindLTE(s, glsn).Success? {
      var lem := FindLTE(s, glsn).value;
      var t := Trimmed(s, glsn).value;
      assert lem.glsn <= glsn;
      if lem.glsn < MaxGLSN {
        forall g | g in t.commits ensures g == InvalidGLSN || glsn < g {
          assert g in s.commits && !(MinGLSN <= g < lem.glsn + 1);
        }
      }
      if lem.llsn < MaxLLSN {
        forall l | l in t.data ensures l == InvalidLLSN || lem.llsn < l {
          assert l in s.data && !(MinLLSN <= l < lem.llsn + 1);
        }
      }
    }
  }

  /**
   * Three entries, LLSN i at GLSN i for i = 1, 2, 3: Trim(MinGLSN) leaves
   * entries 2 and 3; Trim(3) and Trim(MaxGLSN) leave both columns empty; the
   * commit context survives every time.
   */
  lemma TrimExample(cc: CommitContext)
    ensures
      var s := Columns(map[1 := [], 2 := [], 3 := []], map[1 := 1, 2 := 2, 3 := 3], Some(cc));
      && Trimmed(s, MinGLSN) == Success(Columns(map[2 := [], 3 := []], map[2 := 2, 3 := 3], Some(cc)))
      && Trimmed(s, 3) == Success(Columns(map[], map[], Some(cc)))
      && Trimmed(s, MaxGLSN) == Success(Columns(map[], map[], Some(cc)))
  {
    var s := Columns(map[1 := [], 2 := [], 3 := []], map[1 := 1, 2 := 2, 3 := 3], Some(cc));
    TrimFirstOfThree(s);
    TrimAllOfThree(s, 3);
    TrimAllOfThree(s, MaxGLSN);
  }

  /** Trim(MinGLSN) of the three-entry store removes entry 1 only. */
  lemma TrimFirstOfThree(s: Columns)
    requires s.data == map[1 := [], 2 := [], 3 := []] && s.commits == map[1 := 1, 2 := 2, 3 := 3]
    ensures Trimmed(s, MinGLSN) == Success(Columns(map[2 := [], 3 := []], map[2 := 2, 3 := 3], s.commitContext))
  {
    assert s.commits.Keys == {1, 2, 3};
    assert FindLTE(s, MinGLSN) == Success(LogEntryMeta(1, 1));
    assert RangeDelete(s.data, MinLLSN, 2) == map[2 := [], 3 := []];
    assert RangeDelete(s.commits, MinGLSN, 2) == map[2 := 2, 3 := 3];
  }

  /** Trim at or past the last GLSN of the three-entry store empties both columns. */
  lemma TrimAllOfThree(s: Columns, glsn: GLSN)
    requires s.data == map[1 := [], 2 := [], 3 := []] && s.commits == map[1 := 1, 2 := 2, 3 := 3]
    requires 3 <= glsn
    ensures Trimmed(s, glsn) == Success(Columns(map[], map[], s.commitContext))
  {
    assert s.commits.Keys == {1, 2, 3};
    assert FindLTE(s, glsn) == Success(LogEntryMeta(3, 3));
    assert RangeDelete(s.data, MinLLSN, 4) == map[];
    assert RangeDelete(s.commits, MinGLSN, 4) == map[];
  }

  /** Trim on an empty store fails with ErrNoLogEntry for every argument, MinGLSN, MaxGLSN and InvalidGLSN included. */
  lemma TrimEmptyStore(glsn: GLSN)
    ensures Trimmed(Empty, glsn) == Failure(NoLogEntry)
  {
  }

  // ---------------------------------------------------------------------------
  // Finding: the uint64 seek target of readLLSN

  /** The seek target of one readLLSN step as the source computes it: `currGLSN + GLSN(llsn - currLLSN)` in uint64. */
  function SeekTargetAsWritten(currGLSN: GLSN, currLLSN: LLSN, llsn: LLSN): (r: GLSN)
    requires currLLSN < llsn
    ensures currGLSN + (llsn - currLLSN) < U64_MODULUS ==> currGLSN < r
    ensures U64_MODULUS <= currGLSN + (llsn - currLLSN) ==> r < currGLSN
  {
    Wrap(currGLSN + Wrap(llsn - currLLSN))
  }

  /**
   * With the single commit record GLSN 5 -> LLSN 1 and a read of MaxLLSN, the
   * uint64 target wraps to 3 and the iterator lands on GLSN 5 again: the loop
   * state repeats, so the source's readLLSN never returns.
   */
  lemma ReadLLSNRepeatsAsWritten()
    ensures SeekTargetAsWritten(5, 1, MaxLLSN) == 3
    ensures SeekGE(map[5 := 1].Keys, SeekTargetAsWritten(5, 1, MaxLLSN)) == Some(5)
    ensures SeekGE(map[5 := 1].Keys, 0) == Some(5)
  {
    assert map[5 := 1].Keys == {5};
  }
}
