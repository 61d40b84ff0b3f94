/** The records the action passes between its parts, and the seven changeset
    modes together with the test each dispatcher applies to decide that a mode
    is selected. Optional TypeScript fields are `Option`s. */
module Types {
  import opened Wrappers
  import opened Numbers

  /** A changeset description; at most one primary field is meant to be set. */
  datatype ChangesetInput = ChangesetInput(
    releasesCount: Option<JsNumber>,
    timeRangeStart: Option<string>,
    timeRangeEnd: Option<string>,
    commitsCount: Option<JsNumber>,
    commitsSinceSha: Option<string>,
    commitsShas: Option<seq<string>>,
    commitsStartSha: Option<string>,
    commitsEndSha: Option<string>,
    commitsIncludeStart: Option<bool>,
    tagsStart: Option<string>,
    tagsEnd: Option<string>)

  /** One `git log` record. */
  datatype Commit = Commit(sha: string, message: string)

  /** The `changeset` part of the report; each variant carries exactly the
      fields the report writes for that `type`. The `end` of a tag range may be
      undefined, so it is a separate, optional field. */
  datatype ChangesetMetadata =
    | Releases(count: JsNumber)
    | TimeRange(start: string, end: string)
    | CommitsCountMeta(count: JsNumber)
    | CommitsSince(start: string)
    | CommitsSpecific(shas: seq<string>)
    | CommitsRange(start: string, end: string)
    | Tags(start: string, endTag: Option<string>)
    | Unknown
  {
    /** The report's `type` string. */
    function TypeName(): string {
      match this
      case Releases(_) => "releases"
      case TimeRange(_, _) => "time-range"
      case CommitsCountMeta(_) => "commits-count"
      case CommitsSince(_) => "commits-since"
      case CommitsSpecific(_) => "commits-specific"
      case CommitsRange(_, _) => "commits-range"
      case Tags(_, _) => "tags"
      case Unknown => "unknown"
    }

    /** The mode this metadata describes; `None` for `unknown`. */
    function Kind(): Option<Mode> {
      match this
      case Releases(_) => Some(ReleaseCount)
      case TimeRange(_, _) => Some(TimeWindow)
      case CommitsCountMeta(_) => Some(CommitCount)
      case CommitsSince(_) => Some(SinceSha)
      case CommitsSpecific(_) => Some(ShaList)
      case CommitsRange(_, _) => Some(ShaRange)
      case Tags(_, _) => Some(TagRange)
      case Unknown => None
    }
  }

  /** One issue of the report. */
  datatype JiraIssue = JiraIssue(key: string, url: string, commits: seq<string>)

  /** The report's metadata; `generatedAt` (the wall clock) is not modelled. */
  datatype OutputMetadata = OutputMetadata(
    jiraBaseUrl: string,
    repository: string,
    changeset: ChangesetMetadata,
    totalIssues: nat,
    totalCommits: nat)

  datatype OutputArtifact = OutputArtifact(metadata: OutputMetadata, issues: seq<JiraIssue>)

  /** Validated action inputs; a successful validation always sets `changeset`. */
  datatype JiraActionInputs = JiraActionInputs(
    jiraBaseUrl: string,
    jiraApiToken: string,
    jiraUserEmail: Option<string>,
    projectKeys: Option<seq<string>>,
    outputFile: string,
    changeset: ChangesetInput)

  // ---------------------------------------------------------------------
  // Changeset modes
  // ---------------------------------------------------------------------

  /** The seven changeset modes. */
  datatype Mode = ReleaseCount | TimeWindow | CommitCount | SinceSha | ShaList | ShaRange | TagRange

  /** JavaScript truthiness of an optional string: defined and non-empty. */
  predicate Truthy(s: Option<string>) {
    s.Some? && s.value != ""
  }

  /** The primary field of mode `m` is present. */
  predicate Defined(cs: ChangesetInput, m: Mode) {
    match m
    case ReleaseCount => cs.releasesCount.Some?
    case TimeWindow => cs.timeRangeStart.Some?
    case CommitCount => cs.commitsCount.Some?
    case SinceSha => cs.commitsSinceSha.Some?
    case ShaList => cs.commitsShas.Some?
    case ShaRange => cs.commitsStartSha.Some?
    case TagRange => cs.tagsStart.Some?
  }

  /** The test both dispatchers apply to select mode `m` (counts: defined;
      strings: truthy; the explicit list: non-empty; ranges and windows: both
      ends truthy). */
  predicate Fires(cs: ChangesetInput, m: Mode) {
    match m
    case ReleaseCount => cs.releasesCount.Some?
    case TimeWindow => Truthy(cs.timeRangeStart) && Truthy(cs.timeRangeEnd)
    case CommitCount => cs.commitsCount.Some?
    case SinceSha => Truthy(cs.commitsSinceSha)
    case ShaList => cs.commitsShas.Some? && |cs.commitsShas.value| > 0
    case ShaRange => Truthy(cs.commitsStartSha) && Truthy(cs.commitsEndSha)
    case TagRange => Truthy(cs.tagsStart)
  }

  /** At most one primary field is present. */
  predicate AtMostOneDefined(cs: ChangesetInput) {
    forall m1: Mode, m2: Mode :: Defined(cs, m1) && Defined(cs, m2) ==> m1 == m2
  }

  /** The first mode of `order` whose test fires: an if/else chain over
      `order`, stated once for both dispatchers. */
  function FirstFired(cs: ChangesetInput, order: seq<Mode>): (r: Option<Mode>)
    ensures r.Some? ==> Fires(cs, r.value)
    ensures r.Some? ==> exists i :: 0 <= i < |order| && order[i] == r.value
                                    && forall j :: 0 <= j < i ==> !Fires(cs, order[j])
    ensures r.None? ==> forall i :: 0 <= i < |order| ==> !Fires(cs, order[i])
    decreases |order|
  {
    if |order| == 0 then None
    else if Fires(cs, order[0]) then Some(order[0])
    else FirstFired(cs, order[1..])
  }

  /** When at most one primary field is present, the order of the chain does
      not matter: any two orders over the same modes select the same one. */
  lemma FirstFiredOrderIrrelevant(cs: ChangesetInput, o1: seq<Mode>, o2: seq<Mode>)
    requires AtMostOneDefined(cs)
    requires forall m :: m in o1 <==> m in o2
    ensures FirstFired(cs, o1) == FirstFired(cs, o2)
  {
    var r1, r2 := FirstFired(cs, o1), FirstFired(cs, o2);
    if r1.Some? {
      var j :| 0 <= j < |o1| && o1[j] == r1.value;
      assert r1.value in o1 && r1.value in o2;
      var i :| 0 <= i < |o2| && o2[i] == r1.value;
      assert Fires(cs, o2[i]);
    }
    if r2.Some? {
      var j :| 0 <= j < |o2| && o2[j] == r2.value;
      assert r2.value in o2 && r2.value in o1;
      var i :| 0 <= i < |o1| && o1[i] == r2.value;
      assert Fires(cs, o1[i]);
    }
    if r1.Some? && r2.Some? {
      assert Defined(cs, r1.value) && Defined(cs, r2.value);
    }
  }
}
