/**
 * The benchmark tool's `test` command, up to the point where it hands its
 * targets to the benchmark: argument checks, parsing of "topic:logstream"
 * target strings ("*" standing for any log stream), and the per-target sizes
 * taken from lists where a short list repeats its last element.
 *
 * The ID parsers of the types package are not part of this model; they are
 * passed in as partial functions (None for a parse error).
 */
module BenchmarkTestCommand {
  import opened Wrappers

  datatype Error =
    | UnexpectedArgs
    | InvalidClusterID
    | MalformedTarget(target: string)
    | InvalidTopic(target: string, token: string)
    | InvalidLogStream(target: string, token: string)

  datatype Target = Target(
    topicID: int,
    logStreamID: int,
    messageSize: nat,
    batchSize: nat,
    appendersCount: nat,
    subscribersCount: nat,
    pipelineSize: int)

  /** A target with every field at its zero value. */
  const ZeroTarget := Target(0, 0, 0, 0, 0, 0, 0)

  // ---------------------------------------------------------------------------
  // strings.Split and its inverse

  /** Joins `parts` with `sep` between consecutive parts. */
  function Join(parts: seq<string>, sep: char): string
    requires |parts| > 0
  {
    if |parts| == 1 then parts[0] else parts[0] + [sep] + Join(parts[1..], sep)
  }

  /** The number of occurrences of `c` in `s`. */
  function Occurrences(s: string, c: char): nat {
    if s == [] then 0 else (if s[0] == c then 1 else 0) + Occurrences(s[1..], c)
  }

  /**
   * strings.Split with a one-character separator: the pieces between
   * separators, one more than there are separators (so "" gives [""]).
   */
  function Split(s: string, sep: char): (r: seq<string>)
    ensures |r| == Occurrences(s, sep) + 1
    ensures forall i | 0 <= i < |r| :: sep !in r[i]
    ensures Join(r, sep) == s
  {
    if s == [] then [""]
    else
      var rest := Split(s[1..], sep);
      if s[0] == sep then
        assert Join([""] + rest, sep) == [sep] + Join(rest, sep) by {
          assert ([""] + rest)[1..] == rest;
        }
        [""] + rest
      else
        var r := [[s[0]] + rest[0]] + rest[1..];
        JoinConsFirst(rest, s[0], sep);
        assert r[0] == [s[0]] + rest[0] && r[1..] == rest[1..];
        r
  }

  lemma JoinConsFirst(parts: seq<string>, c: char, sep: char)
    requires |parts| > 0
    ensures Join([[c] + parts[0]] + parts[1..], sep) == [c] + Join(parts, sep)
  {
    var q := [[c] + parts[0]] + parts[1..];
    assert q[1..] == parts[1..];
  }

  /** Split undoes Join when no part contains the separator. */
  lemma {:induction false} SplitJoin(parts: seq<string>, sep: char)
    requires |parts| > 0 && forall i | 0 <= i < |parts| :: sep !in parts[i]
    ensures Split(Join(parts, sep), sep) == parts
  {
    if |parts| == 1 {
      SplitSepFree(parts[0], sep);
    } else {
      assert forall i | 0 <= i < |parts[1..]| :: parts[1..][i] == parts[i + 1];
      SplitJoin(parts[1..], sep);
      SplitPrefix(parts[0], Join(parts[1..], sep), sep);
      assert [parts[0]] + parts[1..] == parts;
    }
  }

  /** A string without the separator splits into itself. */
  lemma {:induction false} SplitSepFree(s: string, sep: char)
    requires sep !in s
    ensures Split(s, sep) == [s]
  {
    if s != [] {
      SplitSepFree(s[1..], sep);
    }
  }

  /** Splitting `a + [sep] + b` with a separator-free `a` gives `a` then the pieces of `b`. */
  lemma {:induction false} SplitPrefix(a: string, b: string, sep: char)
    requires sep !in a
    ensures Split(a + [sep] + b, sep) == [a] + Split(b, sep)
  {
    if a == [] {
      assert ([] + [sep] + b)[1..] == b;
    } else {
      assert (a + [sep] + b)[1..] == a[1..] + [sep] + b;
      SplitPrefix(a[1..], b, sep);
      assert [a[0]] + a[1..] == a;
    }
  }

  // ---------------------------------------------------------------------------
  // One target string

  /** Parses one target string the way the loop body does. */
  function ParseTarget(str: string, pipelineSize: int,
                       parseTopicID: string -> Option<int>, parseLogStreamID: string -> Option<int>)
    : (r: Result<Target, Error>)
    ensures |Split(str, ':')| != 2 ==> r == Failure(MalformedTarget(str))
    ensures |Split(str, ':')| == 2 ==>
      var toks := Split(str, ':');
      && (parseTopicID(toks[0]).None? ==> r == Failure(InvalidTopic(str, toks[0])))
      && (parseTopicID(toks[0]).Some? && toks[1] != "*" && parseLogStreamID(toks[1]).None? ==>
            r == Failure(InvalidLogStream(str, toks[1])))
      && (r.Success? ==>
            && r.value.topicID == parseTopicID(toks[0]).value
            && (toks[1] == "*" ==> r.value.logStreamID == 0)
            && (toks[1] != "*" ==> r.value.logStreamID == parseLogStreamID(toks[1]).value)
            && r.value.pipelineSize == pipelineSize
            && r.value.messageSize == 0 && r.value.batchSize == 0
            && r.value.appendersCount == 0 && r.value.subscribersCount == 0)
    ensures r.Success? <==>
      && |Split(str, ':')| == 2
      && parseTopicID(Split(str, ':')[0]).Some?
      && (Split(str, ':')[1] == "*" || parseLogStreamID(Split(str, ':')[1]).Some?)
  {
    var toks := Split(str, ':');
    if |toks| != 2 then Failure(MalformedTarget(str))
    else match parseTopicID(toks[0])
      case None => Failure(InvalidTopic(str, toks[0]))
      case Some(topicID) =>
        if toks[1] != "*" then
          match parseLogStreamID(toks[1])
          case None => Failure(InvalidLogStream(str, toks[1]))
          case Some(logStreamID) => Success(ZeroTarget.(topicID := topicID, logStreamID := logStreamID, pipelineSize := pipelineSize))
        else
          Success(ZeroTarget.(topicID := topicID, pipelineSize := pipelineSize))
  }

  /**
   * Formatting a topic and a log stream as "topic:logstream" and parsing it
   * back recovers both tokens, as long as neither contains ':'.
   */
  lemma TargetRoundTrip(topic: string, logStream: string, pipelineSize: int,
                        parseTopicID: string -> Option<int>, parseLogStreamID: string -> Option<int>)
    requires ':' !in topic && ':' !in logStream
    requires parseTopicID(topic).Some?
    requires logStream == "*" || parseLogStreamID(logStream).Some?
    ensures
      var r := ParseTarget(topic + ":" + logStream, pipelineSize, parseTopicID, parseLogStreamID);
      && r.Success?
      && r.value.topicID == parseTopicID(topic).value
      && r.value.logStreamID == (if logStream == "*" then 0 else parseLogStreamID(logStream).value)
  {
    SplitPrefix(topic, logStream, ':');
    SplitSepFree(logStream, ':');
    assert topic + ":" + logStream == topic + [':'] + logStream;
  }

  // ---------------------------------------------------------------------------
  // Sizes

  datatype SizeField = MessageSize | BatchSize | AppendersCount | SubscribersCount

  /** The size for target `i`: the i-th when there is one, else the last. */
  function SizeAt(sizes: seq<nat>, i: nat): nat
    requires |sizes| > 0
  {
    if i < |sizes| then sizes[i] else sizes[|sizes| - 1]
  }

  function WithSize(t: Target, field: SizeField, size: nat): Target {
    match field
    case MessageSize => t.(messageSize := size)
    case BatchSize => t.(batchSize := size)
    case AppendersCount => t.(appendersCount := size)
    case SubscribersCount => t.(subscribersCount := size)
  }

  /**
   * setSizes: the setter is called once per target index, in order, with that
   * index's size; the same targets come back. An empty size list with
   * targets present would index out of range, so it is excluded.
   */
  method SetSizes(targets: array<Target>, sizes: seq<nat>, field: SizeField)
    returns (r: array<Target>, ghost calls: seq<nat>)
    requires targets.Length > 0 ==> |sizes| > 0
    modifies targets
    ensures r == targets
    ensures calls == seq(targets.Length, i => i)
    ensures forall i | 0 <= i < targets.Length ::
      targets[i] == WithSize(old(targets[i]), field, SizeAt(sizes, i))
  {
    calls := [];
    for idx := 0 to targets.Length
      invariant calls == seq(idx, i => i)
      invariant forall i | 0 <= i < idx :: targets[i] == WithSize(old(targets[i]), field, SizeAt(sizes, i))
      invariant forall i | idx <= i < targets.Length :: targets[i] == old(targets[i])
    {
      var size: nat;
      if idx < |sizes| {
        size := sizes[idx];
      } else {
        size := sizes[|sizes| - 1];
      }
      targets[idx] := WithSize(targets[idx], field, size);
      calls := calls + [idx];
    }
    r := targets;
  }

  /** All four sizes of target `i`. */
  function Sized(t: Target, i: nat, msgSizes: seq<nat>, batchSizes: seq<nat>, appenders: seq<nat>, subscribers: seq<nat>): Target
    requires |msgSizes| > 0 && |batchSizes| > 0 && |appenders| > 0 && |subscribers| > 0
  {
    t.(messageSize := SizeAt(msgSizes, i), batchSize := SizeAt(batchSizes, i),
       appendersCount := SizeAt(appenders, i), subscribersCount := SizeAt(subscribers, i))
  }

  /**
   * The target loop of runCommandTest: each target string is parsed into its
   * slot, in order; the first string that does not parse ends the loop with
   * its error.
   */
  method ParseTargets(
    targets: array<Target>, targetStrs: seq<string>, pipelineSize: int,
    parseTopicID: string -> Option<int>, parseLogStreamID: string -> Option<int>)
    returns (err: Option<Error>)
    requires targets.Length == |targetStrs|
    modifies targets
    ensures err.None? <==> forall i | 0 <= i < |targetStrs| ::
      ParseTarget(targetStrs[i], pipelineSize, parseTopicID, parseLogStreamID).Success?
    ensures err.None? ==> forall i | 0 <= i < |targetStrs| ::
      ParseTarget(targetStrs[i], pipelineSize, parseTopicID, parseLogStreamID) == Success(targets[i])
    ensures err.Some? ==>
      exists k :: (&& 0 <= k < |targetStrs|
                   && ParseTarget(targetStrs[k], pipelineSize, parseTopicID, parseLogStreamID) == Failure(err.value)
                   && forall i | 0 <= i < k ::
                        ParseTarget(targetStrs[i], pipelineSize, parseTopicID, parseLogStreamID).Success?)
  {
    for idx := 0 to |targetStrs|
      invariant forall i | 0 <= i < idx ::
        ParseTarget(targetStrs[i], pipelineSize, parseTopicID, parseLogStreamID) == Success(targets[i])
    {
      var parsed := ParseTarget(targetStrs[idx], pipelineSize, parseTopicID, parseLogStreamID);
      if parsed.Failure? {
        return Some(parsed.error);
      }
      targets[idx] := parsed.value;
    }
    err := None;
  }

  /**
   * runCommandTest up to building the targets: no positional arguments, a
   * valid cluster ID, every target string parsed (the first bad one decides
   * the error), then the four size lists applied.
   */
  method RunCommandTest(
    nargs: nat, clusterID: string, targetStrs: seq<string>, pipelineSize: int,
    msgSizes: seq<nat>, batchSizes: seq<nat>, appenders: seq<nat>, subscribers: seq<nat>,
    parseClusterID: string -> Option<int>, parseTopicID: string -> Option<int>, parseLogStreamID: string -> Option<int>)
    returns (r: Result<seq<Target>, Error>)
    requires |targetStrs| > 0 ==> |msgSizes| > 0 && |batchSizes| > 0 && |appenders| > 0 && |subscribers| > 0
    ensures nargs > 0 ==> r == Failure(UnexpectedArgs)
    ensures nargs == 0 && parseClusterID(clusterID).None? ==> r == Failure(InvalidClusterID)
    ensures nargs == 0 && parseClusterID(clusterID).Some? ==>
      && (r.Success? <==> forall i | 0 <= i < |targetStrs| ::
            ParseTarget(targetStrs[i], pipelineSize, parseTopicID, parseLogStreamID).Success?)
      && (r.Failure? ==>
            exists k :: (&& 0 <= k < |targetStrs|
                         && ParseTarget(targetStrs[k], pipelineSize, parseTopicID, parseLogStreamID) == Failure(r.error)
                         && forall i | 0 <= i < k ::
                              ParseTarget(targetStrs[i], pipelineSize, parseTopicID, parseLogStreamID).Success?))
    ensures r.Success? ==>
      && |r.value| == |targetStrs|
      && forall i | 0 <= i < |targetStrs| ::
           r.value[i] == Sized(ParseTarget(targetStrs[i], pipelineSize, parseTopicID, parseLogStreamID).value,
                               i, msgSizes, batchSizes, appenders, subscribers)
  {
    if nargs > 0 {
      return Failure(UnexpectedArgs);
    }
    if parseClusterID(clusterID).None? {
      return Failure(InvalidClusterID);
    }
    var targets := new Target[|targetStrs|](_ => ZeroTarget);
    var err := ParseTargets(targets, targetStrs, pipelineSize, parseTopicID, parseLogStreamID);
    if err.Some? {
      return Failure(err.value);
    }
    ghost var parsed := targets[..];
    ghost var calls;
    targets, calls := SetSizes(targets, msgSizes, MessageSize);
    ghost var step1 := targets[..];
    targets, calls := SetSizes(targets, batchSizes, BatchSize);
    ghost var step2 := targets[..];
    targets, calls := SetSizes(targets, appenders, AppendersCount);
    ghost var step3 := targets[..];
    targets, calls := SetSizes(targets, subscribers, SubscribersCount);
    r := Success(targets[..]);
    forall i | 0 <= i < |targetStrs|
      ensures r.value[i] == Sized(parsed[i], i, msgSizes, batchSizes, appenders, subscribers)
    {
      assert step1[i] == WithSize(parsed[i], MessageSize, SizeAt(msgSizes, i));
      assert step2[i] == WithSize(step1[i], BatchSize, SizeAt(batchSizes, i));
      assert step3[i] == WithSize(step2[i], AppendersCount, SizeAt(appenders, i));
    }
  }
}
