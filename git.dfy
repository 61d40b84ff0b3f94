/** The `git log` side of the action: the argument list built from a
    changeset, the parser for the NUL-delimited output, and the exit-code rule
    that turns a failed run into an error. Running the process is left to the
    caller: its outcome is a parameter. */
module Git {
  import opened Wrappers
  import opened Strings
  import opened Numbers
  import opened Types

  /** The NUL character `%x00` asks `git log` to print between fields. */
  const Nul: char := '\0'

  /** Commit hash, NUL, subject, NUL. */
  const GitLogFormat: string := "%H%x00%s%x00"

  /** The arguments every invocation starts with. */
  const BaseArgs: seq<string> := ["log", "--format=" + GitLogFormat]

  /** The order in which `buildGitLogArgs` tests the modes. */
  const GitOrder: seq<Mode> := [CommitCount, TagRange, ShaRange, SinceSha, ShaList, ReleaseCount, TimeWindow]

  // ---------------------------------------------------------------------
  // buildGitLogArgs
  // ---------------------------------------------------------------------

  /** The revision arguments for the selected mode (none when no mode fires). */
  function ModeArgs(cs: ChangesetInput, m: Option<Mode>): (args: seq<string>)
    requires m.Some? ==> Fires(cs, m.value)
    ensures m.None? <==> args == []
    ensures m == Some(ShaList) ==> args == ["--no-walk"] + cs.commitsShas.value
    ensures m == Some(CommitCount) ==> args == ["-n", NumberToString(cs.commitsCount.value)]
    ensures m == Some(ReleaseCount) ==> args == ["-n", "100"]
    ensures m == Some(TagRange) && Truthy(cs.tagsEnd) ==> args == [cs.tagsStart.value + ".." + cs.tagsEnd.value]
    ensures m == Some(TagRange) && !Truthy(cs.tagsEnd) ==> args == [cs.tagsStart.value + "..HEAD"]
    ensures m == Some(ShaRange) && cs.commitsIncludeStart == Some(true)
            ==> args == [cs.commitsStartSha.value + "^" + ".." + cs.commitsEndSha.value]
    ensures m == Some(ShaRange) && cs.commitsIncludeStart != Some(true)
            ==> args == [cs.commitsStartSha.value + ".." + cs.commitsEndSha.value]
    ensures m == Some(SinceSha) ==> args == [cs.commitsSinceSha.value + "..HEAD"]
    ensures m == Some(TimeWindow)
            ==> args == ["--since=" + cs.timeRangeStart.value, "--until=" + cs.timeRangeEnd.value]
  {
    match m
    case None => []
    case Some(CommitCount) => ["-n", NumberToString(cs.commitsCount.value)]
    case Some(TagRange) =>
      [if Truthy(cs.tagsEnd) then cs.tagsStart.value + ".." + cs.tagsEnd.value else cs.tagsStart.value + "..HEAD"]
    case Some(ShaRange) =>
      var startRef := if cs.commitsIncludeStart == Some(true) then cs.commitsStartSha.value + "^"
                      else cs.commitsStartSha.value;
      [startRef + ".." + cs.commitsEndSha.value]
    case Some(SinceSha) => [cs.commitsSinceSha.value + "..HEAD"]
    case Some(ShaList) => ["--no-walk"] + cs.commitsShas.value
    case Some(ReleaseCount) => ["-n", "100"]
    case Some(TimeWindow) => ["--since=" + cs.timeRangeStart.value, "--until=" + cs.timeRangeEnd.value]
  }

  /** `buildGitLogArgs(changeset)`: the base arguments, then those of the first
      mode, in `GitOrder`, whose test fires. */
  method BuildGitLogArgs(cs: ChangesetInput) returns (args: seq<string>)
    ensures args == BaseArgs + ModeArgs(cs, FirstFired(cs, GitOrder))
    ensures |args| >= 2 && args[..2] == BaseArgs
  {
    args := ["log", "--format=" + GitLogFormat];
    if cs.commitsCount.Some? {
      args := args + ["-n", NumberToString(cs.commitsCount.value)];
      assert args == BaseArgs + ModeArgs(cs, Some(CommitCount));
    } else if Truthy(cs.tagsStart) {
      var range := if Truthy(cs.tagsEnd) then cs.tagsStart.value + ".." + cs.tagsEnd.value
                   else cs.tagsStart.value + "..HEAD";
      args := args + [range];
      assert args == BaseArgs + ModeArgs(cs, Some(TagRange));
    } else if Truthy(cs.commitsStartSha) && Truthy(cs.commitsEndSha) {
      var startRef := if cs.commitsIncludeStart == Some(true) then cs.commitsStartSha.value + "^"
                      else cs.commitsStartSha.value;
      args := args + [startRef + ".." + cs.commitsEndSha.value];
      assert args == BaseArgs + ModeArgs(cs, Some(ShaRange));
    } else if Truthy(cs.commitsSinceSha) {
      args := args + [cs.commitsSinceSha.value + "..HEAD"];
      assert args == BaseArgs + ModeArgs(cs, Some(SinceSha));
    } else if cs.commitsShas.Some? && |cs.commitsShas.value| > 0 {
      args := args + ["--no-walk"];
      args := args + cs.commitsShas.value;
      assert args == BaseArgs + ModeArgs(cs, Some(ShaList));
    } else if cs.releasesCount.Some? {
      args := args + ["-n", "100"];
      assert args == BaseArgs + ModeArgs(cs, Some(ReleaseCount));
    } else if Truthy(cs.timeRangeStart) && Truthy(cs.timeRangeEnd) {
      args := args + ["--since=" + cs.timeRangeStart.value];
      args := args + ["--until=" + cs.timeRangeEnd.value];
      assert args == BaseArgs + ModeArgs(cs, Some(TimeWindow));
    } else {
      assert args == BaseArgs + ModeArgs(cs, None);
    }
    GitOrderUnfolds(cs);
  }

  /** `FirstFired` over `GitOrder`, one test after the other. */
  lemma GitOrderUnfolds(cs: ChangesetInput)
    ensures FirstFired(cs, GitOrder)
         == if Fires(cs, CommitCount) then Some(CommitCount)
            else if Fires(cs, TagRange) then Some(TagRange)
            else if Fires(cs, ShaRange) then Some(ShaRange)
            else if Fires(cs, SinceSha) then Some(SinceSha)
            else if Fires(cs, ShaList) then Some(ShaList)
            else if Fires(cs, ReleaseCount) then Some(ReleaseCount)
            else if Fires(cs, TimeWindow) then Some(TimeWindow)
            else None
  {
    var o := GitOrder;
    assert o[1..] == [TagRange, ShaRange, SinceSha, ShaList, ReleaseCount, TimeWindow];
    assert o[1..][1..] == [ShaRange, SinceSha, ShaList, ReleaseCount, TimeWindow];
    assert o[1..][1..][1..] == [SinceSha, ShaList, ReleaseCount, TimeWindow];
    assert o[1..][1..][1..][1..] == [ShaList, ReleaseCount, TimeWindow];
    assert o[1..][1..][1..][1..][1..] == [ReleaseCount, TimeWindow];
    assert o[1..][1..][1..][1..][1..][1..] == [TimeWindow];
    assert o[1..][1..][1..][1..][1..][1..][1..] == [];
  }

  /** The count passed after `-n` reads back as the requested count. */
  lemma CountArgumentRoundTrip(cs: ChangesetInput)
    requires FirstFired(cs, GitOrder) == Some(CommitCount)
    ensures var args := BaseArgs + ModeArgs(cs, FirstFired(cs, GitOrder));
            |args| == 4 && args[2] == "-n" && ParseInt(args[3]) == cs.commitsCount.value
  {
    ParseIntOfNumberToString(cs.commitsCount.value);
  }

  /** A count, when present, always wins, whatever else is set. */
  lemma CountTakesPrecedence(cs: ChangesetInput)
    requires cs.commitsCount.Some?
    ensures FirstFired(cs, GitOrder) == Some(CommitCount)
  {
    assert Fires(cs, GitOrder[0]);
  }

  /** Without a fired mode the log is unrestricted: the base arguments only. */
  lemma NoModeMeansBaseArgs(cs: ChangesetInput)
    ensures BaseArgs + ModeArgs(cs, FirstFired(cs, GitOrder)) == BaseArgs
        <==> forall m :: m in GitOrder ==> !Fires(cs, m)
  {
    if forall m :: m in GitOrder ==> !Fires(cs, m) {
      assert FirstFired(cs, GitOrder) == None;
    } else {
      var m :| m in GitOrder && Fires(cs, m);
      assert FirstFired(cs, GitOrder).Some?;
    }
  }

  /** The seven modes are all in `GitOrder`, each once. */
  lemma GitOrderIsComplete()
    ensures forall m: Mode :: m in GitOrder
    ensures NoDuplicates(GitOrder)
  {
    forall m: Mode ensures m in GitOrder {
      match m
      case CommitCount => assert GitOrder[0] == m;
      case TagRange => assert GitOrder[1] == m;
      case ShaRange => assert GitOrder[2] == m;
      case SinceSha => assert GitOrder[3] == m;
      case ShaList => assert GitOrder[4] == m;
      case ReleaseCount => assert GitOrder[5] == m;
      case TimeWindow => assert GitOrder[6] == m;
    }
  }

  // ---------------------------------------------------------------------
  // parseGitLogOutput
  // ---------------------------------------------------------------------

  /** `output.split('\x00').filter(Boolean)`. */
  function LogTokens(output: string): (tokens: seq<string>)
    ensures forall k :: 0 <= k < |tokens| ==> tokens[k] != "" && Nul !in tokens[k]
  {
    var parts := Split(output, Nul);
    var tokens := FilterNonEmpty(parts);
    assert forall k :: 0 <= k < |tokens| ==> tokens[k] in parts;
    tokens
  }

  /** The tokens from index `i` on; empty once `i` has run past the end. */
  function From(tokens: seq<string>, i: nat): seq<string> {
    if i <= |tokens| then tokens[i..] else []
  }

  /** The `for (i = 0; i < parts.length; i += 2)` loop over the tokens, as a
      function: a truthy token at `i` becomes a commit's sha, with the next token
      as its message, or the empty message when there is no next token. */
  function PairUp(tokens: seq<string>): (commits: seq<Commit>)
    ensures forall k :: 0 <= k < |commits| ==> commits[k].sha != ""
    ensures |commits| <= (|tokens| + 1) / 2
    decreases |tokens|
  {
    if |tokens| == 0 then []
    else if tokens[0] != "" && |tokens| >= 2 then [Commit(tokens[0], tokens[1])] + PairUp(tokens[2..])
    else if tokens[0] != "" then [Commit(tokens[0], "")]
    else PairUp(From(tokens, 2))
  }

  /** What `parseGitLogOutput(output)` returns. */
  function ParseLog(output: string): (commits: seq<Commit>)
    ensures forall k :: 0 <= k < |commits| ==> commits[k].sha != "" && Nul !in commits[k].sha
  {
    if Trim(output) == "" then []
    else
      var tokens := LogTokens(output);
      PairUpFields(tokens);
      PairUp(tokens)
  }

  /** Every field of `PairUp`'s commits is one of the tokens or empty. */
  lemma {:induction false} PairUpFields(tokens: seq<string>)
    ensures forall c :: c in PairUp(tokens) ==> c.sha in tokens && (c.message in tokens || c.message == "")
    decreases |tokens|
  {
    if |tokens| > 0 {
      PairUpFields(From(tokens, 2));
      if |tokens| >= 2 {
        assert forall t :: t in tokens[2..] ==> t in tokens;
      }
    }
  }

  /** `parseGitLogOutput(output)`: the stride-2 loop over the tokens. */
  method ParseGitLogOutput(output: string) returns (commits: seq<Commit>)
    ensures commits == ParseLog(output)
  {
    if Trim(output) == "" {
      return [];
    }
    var parts := LogTokens(output);
    commits := [];
    var i := 0;
    while i < |parts|
      invariant i <= |parts| + 1
      invariant commits + PairUp(From(parts, i)) == PairUp(parts)
    {
      if parts[i] != "" && i + 1 < |parts| {
        assert From(parts, i)[2..] == From(parts, i + 2);
        commits := commits + [Commit(parts[i], parts[i + 1])];
      } else if parts[i] != "" {
        assert From(parts, i + 2) == [];
        commits := commits + [Commit(parts[i], "")];
      }
      i := i + 2;
    }
    assert From(parts, i) == [];
  }

  /** Empty or all-white-space output parses to no commits. */
  lemma BlankOutputHasNoCommits(output: string)
    requires forall k :: 0 <= k < |output| ==> IsJsWhiteSpace(output[k])
    ensures ParseLog(output) == []
  {
    TrimEmptyIff(output);
  }

  /** When every token is truthy (always, after `filter(Boolean)`), each pair of
      tokens, and a final lone token, gives one commit. */
  lemma {:induction false} PairUpCount(tokens: seq<string>)
    requires forall k :: 0 <= k < |tokens| ==> tokens[k] != ""
    ensures |PairUp(tokens)| == (|tokens| + 1) / 2
    ensures forall k :: 0 <= k < |PairUp(tokens)| ==> PairUp(tokens)[k].sha == tokens[2 * k]
    ensures forall k :: 0 <= k < |PairUp(tokens)| ==>
              PairUp(tokens)[k].message == (if 2 * k + 1 < |tokens| then tokens[2 * k + 1] else "")
    decreases |tokens|
  {
    if |tokens| >= 2 {
      PairUpCount(tokens[2..]);
      forall k | 1 <= k < |PairUp(tokens)|
        ensures PairUp(tokens)[k] == PairUp(tokens[2..])[k - 1]
      {
      }
    }
  }

  // ---------------------------------------------------------------------
  // The output format and the round trip
  // ---------------------------------------------------------------------

  /** The fields of the commits in log order: sha, subject, sha, subject, ... */
  function Fields(commits: seq<Commit>): (fields: seq<string>)
    ensures |fields| == 2 * |commits|
    decreases |commits|
  {
    if |commits| == 0 then [] else [commits[0].sha, commits[0].message] + Fields(commits[1..])
  }

  /** What `git log --format=%H%x00%s%x00` prints for the commits when the
      records are not separated by anything else: each field followed by NUL. */
  function Serialize(commits: seq<Commit>): (output: string)
    ensures |commits| > 0 ==> Nul in output
  {
    if |commits| == 0 then "" else Join(Fields(commits), [Nul]) + [Nul]
  }

  /** A commit the format can carry: a sha and a subject, both non-empty and
      free of NUL. */
  predicate Printable(c: Commit) {
    c.sha != "" && c.message != "" && Nul !in c.sha && Nul !in c.message
  }

  lemma {:induction false} FieldsPrintable(commits: seq<Commit>)
    requires forall k :: 0 <= k < |commits| ==> Printable(commits[k])
    ensures forall k :: 0 <= k < |Fields(commits)| ==> Fields(commits)[k] != "" && Nul !in Fields(commits)[k]
    decreases |commits|
  {
    if |commits| > 0 {
      FieldsPrintable(commits[1..]);
    }
  }

  lemma {:induction false} PairUpFieldsInverse(commits: seq<Commit>)
    requires forall k :: 0 <= k < |commits| ==> Printable(commits[k])
    ensures PairUp(Fields(commits)) == commits
    decreases |commits|
  {
    if |commits| > 0 {
      PairUpFieldsInverse(commits[1..]);
      assert Fields(commits)[2..] == Fields(commits[1..]);
    }
  }

  /** A separator appended to a string adds one empty part to its split. */
  lemma {:induction false} SplitTrailingSeparator(s: string, sep: char)
    ensures Split(s + [sep], sep) == Split(s, sep) + [""]
    decreases |s|
  {
    if |s| == 0 {
      assert s + [sep] == [sep];
      assert [sep][1..] == "";
    } else {
      SplitTrailingSeparator(s[1..], sep);
      assert (s + [sep])[1..] == s[1..] + [sep];
    }
  }

  /** The parser reads back the commits the format prints, when every sha and
      subject is non-empty and NUL-free. */
  lemma ParseSerialized(commits: seq<Commit>)
    requires forall k :: 0 <= k < |commits| ==> Printable(commits[k])
    ensures ParseLog(Serialize(commits)) == commits
  {
    if |commits| > 0 {
      var fields := Fields(commits);
      var out := Serialize(commits);
      FieldsPrintable(commits);
      SplitJoin(fields, Nul);
      SplitTrailingSeparator(Join(fields, [Nul]), Nul);
      FilterNonEmptyAppend(fields, [""]);
      FilterNonEmptyKeepsNonEmpty(fields);
      assert LogTokens(out) == fields;
      var k :| 0 <= k < |out| && out[k] == Nul;
      TrimEmptyIff(out);
      PairUpFieldsInverse(commits);
    }
  }

  /** The same holds when the final NUL is missing, as in a truncated stream. */
  lemma ParseSerializedWithoutFinalNul(commits: seq<Commit>)
    requires |commits| > 0
    requires forall k :: 0 <= k < |commits| ==> Printable(commits[k])
    ensures ParseLog(Join(Fields(commits), [Nul])) == commits
  {
    var fields := Fields(commits);
    var out := Join(fields, [Nul]);
    FieldsPrintable(commits);
    JoinTokens(fields);
    JoinNotBlank(fields, Nul);
    assert LogTokens(out) == fields;
    PairUpFieldsInverse(commits);
  }

  lemma JoinTokens(fields: seq<string>)
    requires |fields| > 0
    requires forall k :: 0 <= k < |fields| ==> fields[k] != "" && Nul !in fields[k]
    ensures LogTokens(Join(fields, [Nul])) == fields
  {
    SplitJoin(fields, Nul);
    FilterNonEmptyKeepsNonEmpty(fields);
  }

  /** A join of two or more parts holds the separator, so it is not blank. */
  lemma JoinNotBlank(parts: seq<string>, sep: char)
    requires |parts| >= 2 && !IsJsWhiteSpace(sep)
    ensures Trim(Join(parts, [sep])) != ""
  {
    var out := Join(parts, [sep]);
    var rest := Join(parts[1..], [sep]);
    assert out == parts[0] + [sep] + rest;
    assert out[|parts[0]|] == sep;
    TrimEmptyIff(out);
  }

  /** An empty subject is dropped by `filter(Boolean)`, so the fields after it
      pair up out of step: the next sha becomes this commit's message, and the
      last subject becomes a commit with an empty message. */
  lemma EmptySubjectShiftsPairs(a: string, b: string, m: string)
    requires a != "" && b != "" && m != ""
    requires Nul !in a && Nul !in b && Nul !in m
    ensures ParseLog(Serialize([Commit(a, ""), Commit(b, m)])) == [Commit(a, b), Commit(m, "")]
  {
    var out := Serialize([Commit(a, ""), Commit(b, m)]);
    EmptySubjectTokens(a, b, m);
    var k :| 0 <= k < |out| && out[k] == Nul;
    TrimEmptyIff(out);
    assert [a, b, m][2..] == [m];
    assert PairUp([a, b, m]) == [Commit(a, b)] + PairUp([m]);
  }

  lemma EmptySubjectTokens(a: string, b: string, m: string)
    requires a != "" && b != "" && m != ""
    requires Nul !in a && Nul !in b && Nul !in m
    ensures LogTokens(Serialize([Commit(a, ""), Commit(b, m)])) == [a, b, m]
  {
    var commits := [Commit(a, ""), Commit(b, m)];
    var fields := [a, "", b, m];
    assert Fields(commits) == fields by {
      assert commits[1..] == [Commit(b, m)] && commits[1..][1..] == [];
    }
    var out := Serialize(commits);
    SplitJoin(fields, Nul);
    SplitTrailingSeparator(Join(fields, [Nul]), Nul);
    assert Split(out, Nul) == fields + [""];
    FilterNonEmptyAppend(fields, [""]);
    FilterNonEmptyOfShifted(a, b, m);
  }

  lemma FilterNonEmptyOfShifted(a: string, b: string, m: string)
    requires a != "" && b != "" && m != ""
    ensures FilterNonEmpty([a, "", b, m]) + FilterNonEmpty([""]) == [a, b, m]
  {
    var fields := [a, "", b, m];
    FilterNonEmptyKeepsNonEmpty([b, m]);
    assert fields[1..] == ["", b, m] && fields[1..][1..] == [b, m];
    assert [""][1..] == [];
  }

  /** Records that end in a newline as well as NUL (what `git log` prints
      when each record is terminated by a line break) keep the line break at
      the front of the next sha, and the final line break becomes a commit of
      its own with an empty message. */
  lemma NewlineTerminatedRecords()
    ensures ParseLog("a\0m\0\nb\0n\0\n") == [Commit("a", "m"), Commit("\nb", "n"), Commit("\n", "")]
  {
    NewlineRecordsJoin();
    ParseJoinedFields(["a", "m", "\nb", "n", "\n"]);
    PairUpFive("a", "m", "\nb", "n", "\n");
  }

  lemma NewlineRecordsJoin()
    ensures "a\0m\0\nb\0n\0\n" == Join(["a", "m", "\nb", "n", "\n"], [Nul])
  {
    JoinFive("a", "m", "\nb", "n", "\n");
  }

  lemma JoinFive(a: string, b: string, c: string, d: string, e: string)
    ensures Join([a, b, c, d, e], [Nul]) == a + [Nul] + b + [Nul] + c + [Nul] + d + [Nul] + e
  {
    var fields := [a, b, c, d, e];
    assert fields[1..] == [b, c, d, e] && fields[2..] == [c, d, e];
    assert fields[3..] == [d, e] && fields[4..] == [e];
    assert fields[1..][1..] == fields[2..] && fields[2..][1..] == fields[3..] && fields[3..][1..] == fields[4..];
    assert Join(fields[3..], [Nul]) == d + [Nul] + e;
    assert Join(fields[2..], [Nul]) == c + [Nul] + (d + [Nul] + e);
    assert Join(fields[1..], [Nul]) == b + [Nul] + (c + [Nul] + (d + [Nul] + e));
    assert Join(fields, [Nul]) == a + [Nul] + (b + [Nul] + (c + [Nul] + (d + [Nul] + e)));
  }

  lemma PairUpFive(a: string, b: string, c: string, d: string, e: string)
    requires a != "" && c != "" && e != ""
    ensures PairUp([a, b, c, d, e]) == [Commit(a, b), Commit(c, d), Commit(e, "")]
  {
    var fields := [a, b, c, d, e];
    assert fields[2..] == [c, d, e] && fields[2..][2..] == [e];
    assert PairUp([e]) == [Commit(e, "")];
    assert PairUp([c, d, e]) == [Commit(c, d)] + PairUp([e]);
    assert PairUp(fields) == [Commit(a, b)] + PairUp([c, d, e]);
  }

  /** Joined non-empty, NUL-free fields parse to their pairing. */
  lemma ParseJoinedFields(fields: seq<string>)
    requires |fields| >= 2
    requires forall k :: 0 <= k < |fields| ==> fields[k] != "" && Nul !in fields[k]
    ensures ParseLog(Join(fields, [Nul])) == PairUp(fields)
  {
    JoinTokens(fields);
    JoinNotBlank(fields, Nul);
  }

  // ---------------------------------------------------------------------
  // fetchCommits
  // ---------------------------------------------------------------------

  /** What running `git` reports back. */
  datatype ExecOutput = ExecOutput(exitCode: int, stdout: string, stderr: string)

  /** `fetchCommits(changeset)`: the arguments to run `git` with, and, given
      what the run reported, either the parsed commits or the error thrown for a
      non-zero exit code, which carries the standard error text. */
  method FetchCommits(cs: ChangesetInput, run: ExecOutput) returns (args: seq<string>, result: Result<seq<Commit>, string>)
    ensures args == BaseArgs + ModeArgs(cs, FirstFired(cs, GitOrder))
    ensures result.Failure? <==> run.exitCode != 0
    ensures result.Failure? ==> result.error == "Git command failed: " + run.stderr
    ensures result.Success? ==> result.value == ParseLog(run.stdout)
  {
    args := BuildGitLogArgs(cs);
    if run.exitCode != 0 {
      return args, Failure("Git command failed: " + run.stderr);
    }
    var commits := ParseGitLogOutput(run.stdout);
    result := Success(commits);
  }
}
