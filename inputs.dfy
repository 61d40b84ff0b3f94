/** Reading and validating the action's inputs. Each input arrives as the
    string the runner hands over (the empty string when it is not set); the
    changeset inputs are checked for mutual exclusion and converted into a
    `ChangesetInput`, and the Jira inputs are checked for the Cloud e-mail rule. */
module Inputs {
  import opened Wrappers
  import opened Strings
  import opened Numbers
  import opened Types
  import Jira

  /** Every input of the action, as read; unset inputs are "". */
  datatype RawInputs = RawInputs(
    jiraBaseUrl: string,
    jiraApiToken: string,
    jiraUserEmail: string,
    projectKeys: string,
    outputFile: string,
    releasesCount: string,
    timeRangeStart: string,
    timeRangeEnd: string,
    commitsCount: string,
    commitsSinceSha: string,
    commitsShas: string,
    commitsStartSha: string,
    commitsEndSha: string,
    commitsIncludeStart: string,
    tagsStart: string,
    tagsEnd: string)

  const DefaultOutputFile: string := "jira-issues.json"

  const NoChangesetMessage: string :=
    "No changeset specified. Please provide one of: releases-count, tags-start, commits-count, etc."

  /** The order in which the changeset types are listed when validating. */
  const ValidationOrder: seq<Mode> := [ReleaseCount, TimeWindow, CommitCount, SinceSha, ShaList, ShaRange, TagRange]

  /** The name a changeset type has in the "multiple types" message. */
  function InputName(m: Mode): string {
    match m
    case ReleaseCount => "releases-count"
    case TimeWindow => "time-range"
    case CommitCount => "commits-count"
    case SinceSha => "commits-since-sha"
    case ShaList => "commits-shas"
    case ShaRange => "commits-range"
    case TagRange => "tags"
  }

  /** The raw input that selects mode `m`. */
  function RawPrimary(raw: RawInputs, m: Mode): string {
    match m
    case ReleaseCount => raw.releasesCount
    case TimeWindow => raw.timeRangeStart
    case CommitCount => raw.commitsCount
    case SinceSha => raw.commitsSinceSha
    case ShaList => raw.commitsShas
    case ShaRange => raw.commitsStartSha
    case TagRange => raw.tagsStart
  }

  /** `s || undefined`. */
  function OrUndefined(s: string): (r: Option<string>)
    ensures r.None? <==> s == ""
    ensures r.Some? ==> r.value == s
  {
    if s == "" then None else Some(s)
  }

  /** `s.split(',').map(k => k.trim()).filter(Boolean)`. */
  function CommaList(s: string): (items: seq<string>)
    ensures forall k :: 0 <= k < |items| ==> items[k] != "" && ',' !in items[k]
    ensures forall k :: 0 <= k < |items| ==> Trim(items[k]) == items[k]
    ensures IsSubsequence(items, TrimAll(Split(s, ',')))
    ensures multiset(items) == multiset(TrimAll(Split(s, ',')))["" := 0]
  {
    var trimmed := TrimAll(Split(s, ','));
    TrimmedPartsClean(Split(s, ','));
    var items := FilterNonEmpty(trimmed);
    assert forall k :: 0 <= k < |items| ==> items[k] in trimmed;
    FilterNonEmptySelects(trimmed);
    items
  }

  /** Trimming comma-free parts leaves them comma-free, and trimmed. */
  lemma TrimmedPartsClean(parts: seq<string>)
    requires forall k :: 0 <= k < |parts| ==> ',' !in parts[k]
    ensures forall k :: 0 <= k < |parts| ==> ',' !in TrimAll(parts)[k] && Trim(TrimAll(parts)[k]) == TrimAll(parts)[k]
  {
    var trimmed := TrimAll(parts);
    forall k | 0 <= k < |parts| ensures ',' !in trimmed[k] && Trim(trimmed[k]) == trimmed[k] {
      TrimSpec(parts[k]);
      TrimIdempotent(parts[k]);
      var i :| SliceWithinWhiteSpace(parts[k], trimmed[k], i);
      assert forall c :: c in trimmed[k] ==> c in parts[k];
    }
  }

  /** A list written out with commas parses back to itself when its items are
      non-empty, comma-free and carry no surrounding white space. */
  lemma CommaListOfJoin(items: seq<string>)
    requires |items| > 0
    requires forall k :: 0 <= k < |items| ==> items[k] != "" && ',' !in items[k] && Trim(items[k]) == items[k]
    ensures CommaList(Join(items, ",")) == items
  {
    SplitJoin(items, ',');
    assert TrimAll(items) == items;
    FilterNonEmptyKeepsNonEmpty(items);
  }

  // ---------------------------------------------------------------------
  // parseChangesetInputs
  // ---------------------------------------------------------------------

  /** The modes of `order` whose raw input is set, in that order. */
  function SpecifiedModes(raw: RawInputs, order: seq<Mode>): (ms: seq<Mode>)
    ensures forall m :: m in ms <==> m in order && RawPrimary(raw, m) != ""
    ensures |ms| <= |order|
    decreases |order|
  {
    if |order| == 0 then []
    else (if RawPrimary(raw, order[0]) != "" then [order[0]] else []) + SpecifiedModes(raw, order[1..])
  }

  function Names(ms: seq<Mode>): (names: seq<string>)
    ensures |names| == |ms|
    ensures forall k :: 0 <= k < |ms| ==> names[k] == InputName(ms[k])
  {
    seq(|ms|, k requires 0 <= k < |ms| => InputName(ms[k]))
  }

  function MultipleTypesMessage(names: seq<string>): string {
    "Multiple changeset types specified: " + Join(names, ", ") + ". Only one type is allowed."
  }

  /** The changeset record built from validated raw inputs. */
  function BuildChangeset(raw: RawInputs): (cs: ChangesetInput)
    ensures cs.releasesCount.Some? <==> raw.releasesCount != ""
    ensures cs.timeRangeStart.Some? <==> raw.timeRangeStart != ""
    ensures cs.commitsCount.Some? <==> raw.commitsCount != ""
    ensures cs.commitsSinceSha.Some? <==> raw.commitsSinceSha != ""
    ensures cs.commitsShas.Some? <==> raw.commitsShas != ""
    ensures cs.commitsStartSha.Some? <==> raw.commitsStartSha != ""
    ensures cs.tagsStart.Some? <==> raw.tagsStart != ""
    ensures raw.releasesCount != "" ==> cs.releasesCount == Some(ParseInt(raw.releasesCount))
    ensures raw.commitsCount != "" ==> cs.commitsCount == Some(ParseInt(raw.commitsCount))
    ensures raw.commitsShas != "" ==> cs.commitsShas == Some(CommaList(raw.commitsShas))
    ensures cs.commitsIncludeStart.None? <==> raw.commitsIncludeStart == ""
    ensures cs.commitsIncludeStart == Some(true) <==> raw.commitsIncludeStart == "true"
    ensures cs.timeRangeStart == OrUndefined(raw.timeRangeStart) && cs.timeRangeEnd == OrUndefined(raw.timeRangeEnd)
    ensures cs.commitsSinceSha == OrUndefined(raw.commitsSinceSha)
    ensures cs.commitsStartSha == OrUndefined(raw.commitsStartSha) && cs.commitsEndSha == OrUndefined(raw.commitsEndSha)
    ensures cs.tagsStart == OrUndefined(raw.tagsStart) && cs.tagsEnd == OrUndefined(raw.tagsEnd)
  {
    ChangesetInput(
      releasesCount := if raw.releasesCount != "" then Some(ParseInt(raw.releasesCount)) else None,
      timeRangeStart := OrUndefined(raw.timeRangeStart),
      timeRangeEnd := OrUndefined(raw.timeRangeEnd),
      commitsCount := if raw.commitsCount != "" then Some(ParseInt(raw.commitsCount)) else None,
      commitsSinceSha := OrUndefined(raw.commitsSinceSha),
      commitsShas := if raw.commitsShas != "" then Some(CommaList(raw.commitsShas)) else None,
      commitsStartSha := OrUndefined(raw.commitsStartSha),
      commitsEndSha := OrUndefined(raw.commitsEndSha),
      commitsIncludeStart := if raw.commitsIncludeStart != "" then Some(raw.commitsIncludeStart == "true") else None,
      tagsStart := OrUndefined(raw.tagsStart),
      tagsEnd := OrUndefined(raw.tagsEnd))
  }

  /** A mode's primary field is present exactly when its raw input is set. */
  lemma BuildChangesetDefines(raw: RawInputs)
    ensures forall m :: Defined(BuildChangeset(raw), m) <==> RawPrimary(raw, m) != ""
  {
    var cs := BuildChangeset(raw);
    forall m ensures Defined(cs, m) <==> RawPrimary(raw, m) != "" {
      match m
      case ReleaseCount =>
      case TimeWindow =>
      case CommitCount =>
      case SinceSha =>
      case ShaList =>
      case ShaRange =>
      case TagRange =>
    }
  }

  /** `parseChangesetInputs()`: no changeset when none of the seven selecting
      inputs is set; an error naming them when more than one is set; otherwise
      the converted record. */
  function ParseChangesetInputs(raw: RawInputs): (r: Result<Option<ChangesetInput>, string>)
    ensures r.Success? && r.value.Some? ==> |SpecifiedModes(raw, ValidationOrder)| == 1
    ensures |SpecifiedModes(raw, ValidationOrder)| == 1 ==> r == Success(Some(BuildChangeset(raw)))
  {
    ValidateChangeset(raw, ValidationOrder)
  }

  /** The checks of `parseChangesetInputs()` with the selecting inputs listed
      in `order`. */
  function ValidateChangeset(raw: RawInputs, order: seq<Mode>): (r: Result<Option<ChangesetInput>, string>)
    ensures r.Success? && r.value.Some? ==> |SpecifiedModes(raw, order)| == 1
    ensures |SpecifiedModes(raw, order)| == 1 ==> r == Success(Some(BuildChangeset(raw)))
  {
    var hasAny := exists m :: m in order && RawPrimary(raw, m) != "";
    var specified := SpecifiedModes(raw, order);
    assert |specified| > 0 ==> specified[0] in specified;
    if !hasAny then Success(None)
    else if |specified| > 1 then Failure(MultipleTypesMessage(Names(specified)))
    else
      assert order[0] in order;
      Success(Some(BuildChangeset(raw)))
  }

  /** No changeset exactly when none of the selecting inputs is set. */
  lemma ParseChangesetNoneIff(raw: RawInputs)
    ensures ParseChangesetInputs(raw) == Success(None) <==> forall m :: RawPrimary(raw, m) == ""
  {
    AllModesValidated();
  }

  /** An error exactly when two different selecting inputs are set; it lists
      the set ones in validation order. */
  lemma ParseChangesetFailureIff(raw: RawInputs)
    ensures ParseChangesetInputs(raw).Failure? <==>
            exists m1, m2 :: m1 != m2 && RawPrimary(raw, m1) != "" && RawPrimary(raw, m2) != ""
    ensures ParseChangesetInputs(raw).Failure? ==>
            ParseChangesetInputs(raw).error == MultipleTypesMessage(Names(SpecifiedModes(raw, ValidationOrder)))
  {
    AllModesValidated();
    ValidateFailureIff(raw, ValidationOrder);
  }

  lemma ValidateFailureIff(raw: RawInputs, order: seq<Mode>)
    requires forall m :: m in order
    requires NoDuplicates(order)
    ensures ValidateChangeset(raw, order).Failure? <==>
            exists m1, m2 :: m1 != m2 && RawPrimary(raw, m1) != "" && RawPrimary(raw, m2) != ""
  {
    ValidateFailsOnSeveral(raw, order);
    SpecifiedCount(raw, order);
  }

  /** The checks fail exactly when more than one of the listed inputs is set. */
  lemma ValidateFailsOnSeveral(raw: RawInputs, order: seq<Mode>)
    ensures ValidateChangeset(raw, order).Failure? <==> |SpecifiedModes(raw, order)| > 1
  {
    var specified := SpecifiedModes(raw, order);
    if |specified| > 1 {
      assert specified[0] in specified;
    }
  }

  /** A returned changeset has exactly one primary field. */
  lemma ParseChangesetOneMode(raw: RawInputs)
    requires ParseChangesetInputs(raw).Success? && ParseChangesetInputs(raw).value.Some?
    ensures AtMostOneDefined(ParseChangesetInputs(raw).value.value)
    ensures exists m :: Defined(ParseChangesetInputs(raw).value.value, m)
    ensures forall m :: Defined(ParseChangesetInputs(raw).value.value, m) <==> RawPrimary(raw, m) != ""
  {
    AllModesValidated();
    ValidateOneMode(raw, ValidationOrder);
    BuildChangesetDefines(raw);
  }

  lemma ValidateOneMode(raw: RawInputs, order: seq<Mode>)
    requires forall m :: m in order
    requires NoDuplicates(order)
    requires ValidateChangeset(raw, order).Success? && ValidateChangeset(raw, order).value.Some?
    ensures AtMostOneDefined(ValidateChangeset(raw, order).value.value)
    ensures exists m :: Defined(ValidateChangeset(raw, order).value.value, m)
  {
    var cs := ValidateChangeset(raw, order).value.value;
    var specified := SpecifiedModes(raw, order);
    SpecifiedCount(raw, order);
    BuildChangesetDefines(raw);
    assert cs == BuildChangeset(raw);
    assert specified[0] in specified;
    assert Defined(cs, specified[0]);
  }

  /** Every mode is validated, once. */
  lemma AllModesValidated()
    ensures forall m :: m in ValidationOrder
    ensures NoDuplicates(ValidationOrder)
  {
    forall m: Mode ensures m in ValidationOrder {
      match m
      case ReleaseCount => assert ValidationOrder[0] == m;
      case TimeWindow => assert ValidationOrder[1] == m;
      case CommitCount => assert ValidationOrder[2] == m;
      case SinceSha => assert ValidationOrder[3] == m;
      case ShaList => assert ValidationOrder[4] == m;
      case ShaRange => assert ValidationOrder[5] == m;
      case TagRange => assert ValidationOrder[6] == m;
    }
  }

  /** Over an order without repetitions, more than one mode is listed exactly
      when two different modes are set. */
  lemma {:induction false} SpecifiedCount(raw: RawInputs, order: seq<Mode>)
    requires NoDuplicates(order)
    ensures |SpecifiedModes(raw, order)| > 1 <==>
            exists m1, m2 :: m1 != m2 && m1 in order && m2 in order && RawPrimary(raw, m1) != "" && RawPrimary(raw, m2) != ""
    ensures NoDuplicates(SpecifiedModes(raw, order))
    decreases |order|
  {
    if |order| > 0 {
      var rest := order[1..];
      assert NoDuplicates(rest) by {
        forall i, j | 0 <= i < j < |rest| ensures rest[i] != rest[j] {
          assert rest[i] == order[i + 1] && rest[j] == order[j + 1];
        }
      }
      SpecifiedCount(raw, rest);
      var ms := SpecifiedModes(raw, order);
      var tail := SpecifiedModes(raw, rest);
      assert order[0] !in rest;
      if RawPrimary(raw, order[0]) != "" {
        assert ms == [order[0]] + tail;
        if |tail| > 0 {
          assert tail[0] in tail;
          assert order[0] != tail[0];
        }
      } else {
        assert ms == tail;
        forall m1, m2 | m1 != m2 && m1 in order && m2 in order && RawPrimary(raw, m1) != "" && RawPrimary(raw, m2) != ""
          ensures m1 in rest && m2 in rest
        {
        }
      }
    }
  }

  // ---------------------------------------------------------------------
  // parseInputs
  // ---------------------------------------------------------------------

  /** `parseInputs()`: the changeset is validated first (several types: its
      error; none: "No changeset specified"), then a Cloud URL without an e-mail
      is refused; otherwise the inputs with their defaults filled in. */
  function ParseInputs(raw: RawInputs): (r: Result<JiraActionInputs, string>)
    ensures r.Success? ==> r.value.jiraBaseUrl == raw.jiraBaseUrl && r.value.jiraApiToken == raw.jiraApiToken
    ensures r.Success? ==> r.value.jiraUserEmail == OrUndefined(raw.jiraUserEmail)
    ensures r.Success? ==> r.value.outputFile == (if raw.outputFile == "" then DefaultOutputFile else raw.outputFile)
    ensures r.Success? ==> r.value.projectKeys == (if raw.projectKeys == "" then None else Some(CommaList(raw.projectKeys)))
    ensures r.Success? ==> ParseChangesetInputs(raw) == Success(Some(r.value.changeset))
    ensures r.Success? <==> ParseChangesetInputs(raw).Success? && ParseChangesetInputs(raw).value.Some?
                            && !(Jira.IsJiraCloud(raw.jiraBaseUrl) && raw.jiraUserEmail == "")
    ensures ParseChangesetInputs(raw).Failure? ==> r == Failure(ParseChangesetInputs(raw).error)
    ensures ParseChangesetInputs(raw) == Success(None) ==> r == Failure(NoChangesetMessage)
    ensures ParseChangesetInputs(raw).Success? && ParseChangesetInputs(raw).value.Some?
            && Jira.IsJiraCloud(raw.jiraBaseUrl) && raw.jiraUserEmail == ""
            ==> r == Failure(Jira.MissingEmailMessage)
  {
    var email := OrUndefined(raw.jiraUserEmail);
    var projectKeys := if raw.projectKeys != "" then Some(CommaList(raw.projectKeys)) else None;
    var outputFile := if raw.outputFile != "" then raw.outputFile else DefaultOutputFile;
    match ParseChangesetInputs(raw)
    case Failure(e) => Failure(e)
    case Success(None) => Failure(NoChangesetMessage)
    case Success(Some(cs)) =>
      if Jira.IsJiraCloud(raw.jiraBaseUrl) && email.None? then Failure(Jira.MissingEmailMessage)
      else Success(JiraActionInputs(raw.jiraBaseUrl, raw.jiraApiToken, email, projectKeys, outputFile, cs))
  }

  /** Inputs that pass validation always let the Jira client be created. */
  lemma ValidInputsMakeAClient(raw: RawInputs)
    requires ParseInputs(raw).Success?
    ensures var v := ParseInputs(raw).value;
            Jira.CreateJiraClient(v.jiraBaseUrl, v.jiraApiToken, v.jiraUserEmail).Success?
  {
  }

  /** A validated changeset selects exactly one mode, and both dispatch orders
      pick it when its test fires. */
  lemma ValidChangesetHasOneMode(raw: RawInputs)
    requires ParseInputs(raw).Success?
    ensures var cs := ParseInputs(raw).value.changeset;
            AtMostOneDefined(cs) && exists m :: Defined(cs, m)
  {
    ParseChangesetOneMode(raw);
  }
}
