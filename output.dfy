/** Assembling the report: the changeset description written into its
    metadata, the issue list built from the issue map (one entry per key,
    ascending by key), and the two comma-joined strings the action outputs.
    Writing the report to a file is not part of this model. */
module Output {
  import opened Wrappers
  import opened Strings
  import opened Types
  import Jira

  /** The order in which `buildChangesetMetadata` tests the modes. */
  const MetadataOrder: seq<Mode> := [ReleaseCount, TimeWindow, CommitCount, SinceSha, ShaList, ShaRange, TagRange]

  // ---------------------------------------------------------------------
  // buildChangesetMetadata
  // ---------------------------------------------------------------------

  /** `buildChangesetMetadata(changeset)`: the first mode, in `MetadataOrder`,
      whose test fires, described with the fields it was selected by. */
  function BuildChangesetMetadata(cs: ChangesetInput): (meta: ChangesetMetadata)
    ensures meta.Kind() == FirstFired(cs, MetadataOrder)
    ensures meta.Releases? ==> cs.releasesCount == Some(meta.count)
    ensures meta.TimeRange? ==> cs.timeRangeStart == Some(meta.start) && cs.timeRangeEnd == Some(meta.end)
    ensures meta.CommitsCountMeta? ==> cs.commitsCount == Some(meta.count)
    ensures meta.CommitsSince? ==> cs.commitsSinceSha == Some(meta.start)
    ensures meta.CommitsSpecific? ==> cs.commitsShas == Some(meta.shas)
    ensures meta.CommitsRange? ==> cs.commitsStartSha == Some(meta.start) && cs.commitsEndSha == Some(meta.end)
    ensures meta.Tags? ==> cs.tagsStart == Some(meta.start) && meta.endTag == cs.tagsEnd
  {
    MetadataOrderUnfolds(cs);
    if cs.releasesCount.Some? then Releases(cs.releasesCount.value)
    else if Truthy(cs.timeRangeStart) && Truthy(cs.timeRangeEnd) then
      TimeRange(cs.timeRangeStart.value, cs.timeRangeEnd.value)
    else if cs.commitsCount.Some? then CommitsCountMeta(cs.commitsCount.value)
    else if Truthy(cs.commitsSinceSha) then CommitsSince(cs.commitsSinceSha.value)
    else if cs.commitsShas.Some? && |cs.commitsShas.value| > 0 then CommitsSpecific(cs.commitsShas.value)
    else if Truthy(cs.commitsStartSha) && Truthy(cs.commitsEndSha) then
      CommitsRange(cs.commitsStartSha.value, cs.commitsEndSha.value)
    else if Truthy(cs.tagsStart) then Tags(cs.tagsStart.value, cs.tagsEnd)
    else Unknown
  }

  /** `FirstFired` over `MetadataOrder`, one test after the other. */
  lemma MetadataOrderUnfolds(cs: ChangesetInput)
    ensures FirstFired(cs, MetadataOrder)
         == if Fires(cs, ReleaseCount) then Some(ReleaseCount)
            else if Fires(cs, TimeWindow) then Some(TimeWindow)
            else if Fires(cs, CommitCount) then Some(CommitCount)
            else if Fires(cs, SinceSha) then Some(SinceSha)
            else if Fires(cs, ShaList) then Some(ShaList)
            else if Fires(cs, ShaRange) then Some(ShaRange)
            else if Fires(cs, TagRange) then Some(TagRange)
            else None
  {
    var o := MetadataOrder;
    assert o[1..] == [TimeWindow, CommitCount, SinceSha, ShaList, ShaRange, TagRange];
    assert o[1..][1..] == [CommitCount, SinceSha, ShaList, ShaRange, TagRange];
    assert o[1..][1..][1..] == [SinceSha, ShaList, ShaRange, TagRange];
    assert o[1..][1..][1..][1..] == [ShaList, ShaRange, TagRange];
    assert o[1..][1..][1..][1..][1..] == [ShaRange, TagRange];
    assert o[1..][1..][1..][1..][1..][1..] == [TagRange];
    assert o[1..][1..][1..][1..][1..][1..][1..] == [];
  }

  /** The seven modes are all in `MetadataOrder`, each once. */
  lemma MetadataOrderIsComplete()
    ensures forall m: Mode :: m in MetadataOrder
    ensures NoDuplicates(MetadataOrder)
  {
    forall m: Mode ensures m in MetadataOrder {
      match m
      case ReleaseCount => assert MetadataOrder[0] == m;
      case TimeWindow => assert MetadataOrder[1] == m;
      case CommitCount => assert MetadataOrder[2] == m;
      case SinceSha => assert MetadataOrder[3] == m;
      case ShaList => assert MetadataOrder[4] == m;
      case ShaRange => assert MetadataOrder[5] == m;
      case TagRange => assert MetadataOrder[6] == m;
    }
  }

  /** A release count, when present, always wins, whatever else is set. */
  lemma ReleasesTakePrecedence(cs: ChangesetInput)
    requires cs.releasesCount.Some?
    ensures BuildChangesetMetadata(cs) == Releases(cs.releasesCount.value)
  {
  }

  /** The report says `unknown` exactly when no mode's test fires. */
  lemma UnknownIff(cs: ChangesetInput)
    ensures BuildChangesetMetadata(cs) == Unknown <==> forall m: Mode :: !Fires(cs, m)
  {
    MetadataOrderIsComplete();
    var meta := BuildChangesetMetadata(cs);
    if meta != Unknown {
      assert meta.Kind().Some?;
      assert Fires(cs, meta.Kind().value);
    }
  }

  // ---------------------------------------------------------------------
  // Sorting the issue keys
  // ---------------------------------------------------------------------

  /** Strictly ascending in the ordinal order of `Less`. */
  predicate Ascending(ks: seq<string>) {
    forall i, j :: 0 <= i < j < |ks| ==> Less(ks[i], ks[j])
  }

  /** `least` comes before every other key of `keys`. */
  predicate IsLeast(least: string, keys: set<string>) {
    least in keys && forall k :: k in keys && k != least ==> Less(least, k)
  }

  /** A non-empty set of keys has exactly one least key. */
  lemma {:induction false} LeastKeyExists(keys: set<string>)
    requires keys != {}
    ensures exists least :: IsLeast(least, keys)
    decreases |keys|
  {
    var x :| x in keys;
    if keys == {x} {
      assert IsLeast(x, keys);
    } else {
      var rest := keys - {x};
      LeastKeyExists(rest);
      var m :| IsLeast(m, rest);
      if Less(x, m) {
        forall k | k in keys && k != x ensures Less(x, k) {
          if k != m { LessTransitive(x, m, k); }
        }
        assert IsLeast(x, keys);
      } else {
        LessTotal(x, m);
        assert IsLeast(m, keys);
      }
    }
  }

  lemma LeastKeyUnique(keys: set<string>)
    ensures forall a, b :: IsLeast(a, keys) && IsLeast(b, keys) ==> a == b
  {
    forall a, b | IsLeast(a, keys) && IsLeast(b, keys) ensures a == b {
      if a != b {
        LessAsymmetric(a, b);
      }
    }
  }

  /** The keys of a map in ascending order, as `sort` with the key comparison
      leaves them. */
  function SortedKeys(keys: set<string>): (ks: seq<string>)
    ensures |ks| == |keys|
    ensures forall k :: k in ks <==> k in keys
    ensures Ascending(ks)
    decreases |keys|
  {
    if keys == {} then []
    else
      LeastKeyExists(keys);
      LeastKeyUnique(keys);
      var least :| IsLeast(least, keys);
      var rest := SortedKeys(keys - {least});
      assert forall k :: k in rest ==> Less(least, k);
      [least] + rest
  }

  /** There is only one ascending arrangement of a set of keys, so the order
      in which the map yields its entries does not show in the result. */
  lemma {:induction false} AscendingUnique(xs: seq<string>, ys: seq<string>)
    requires Ascending(xs) && Ascending(ys)
    requires forall k :: k in xs <==> k in ys
    ensures xs == ys
    decreases |xs|
  {
    if |xs| > 0 { assert xs[0] in xs; }
    if |ys| > 0 { assert ys[0] in ys; }
    if |xs| > 0 && |ys| > 0 {
      if xs[0] != ys[0] {
        var j :| 0 <= j < |ys| && ys[j] == xs[0];
        var i :| 0 <= i < |xs| && xs[i] == ys[0];
        assert Less(ys[0], xs[0]);
        LessAsymmetric(ys[0], xs[0]);
        assert false;
      }
      assert xs == [xs[0]] + xs[1..] && ys == [ys[0]] + ys[1..];
      forall k ensures k in xs[1..] <==> k in ys[1..] {
        if k in xs[1..] {
          var i :| 1 <= i < |xs| && xs[i] == k;
          assert Less(xs[0], k);
          LessIrreflexive(k);
          assert k in ys && k != ys[0];
        }
        if k in ys[1..] {
          var i :| 1 <= i < |ys| && ys[i] == k;
          assert Less(ys[0], k);
          LessIrreflexive(k);
          assert k in xs && k != xs[0];
        }
      }
      AscendingUnique(xs[1..], ys[1..]);
      assert xs == [xs[0]] + xs[1..] && ys == [ys[0]] + ys[1..];
    }
  }

  // ---------------------------------------------------------------------
  // buildOutputArtifact
  // ---------------------------------------------------------------------

  /** One report entry per key: the key, its browse link and its commits. */
  function IssuesFor(keys: seq<string>, issueMap: map<string, seq<string>>, jiraBaseUrl: string): (issues: seq<JiraIssue>)
    requires forall k :: k in keys ==> k in issueMap
    ensures |issues| == |keys|
    ensures forall i :: 0 <= i < |keys| ==>
              issues[i] == JiraIssue(keys[i], Jira.BuildIssueBrowseUrl(jiraBaseUrl, keys[i]), issueMap[keys[i]])
  {
    seq(|keys|, i requires 0 <= i < |keys| =>
      JiraIssue(keys[i], Jira.BuildIssueBrowseUrl(jiraBaseUrl, keys[i]), issueMap[keys[i]]))
  }

  /** The report's keys, in report order. */
  function KeysOf(issues: seq<JiraIssue>): (keys: seq<string>)
    ensures |keys| == |issues|
    ensures forall i :: 0 <= i < |issues| ==> keys[i] == issues[i].key
  {
    seq(|issues|, i requires 0 <= i < |issues| => issues[i].key)
  }

  /** The report's links, in report order. */
  function UrlsOf(issues: seq<JiraIssue>): (urls: seq<string>)
    ensures |urls| == |issues|
    ensures forall i :: 0 <= i < |issues| ==> urls[i] == issues[i].url
  {
    seq(|issues|, i requires 0 <= i < |issues| => issues[i].url)
  }

  /** `buildOutputArtifact(issueMap, jiraBaseUrl, repository, changeset,
      totalCommits)` without `generatedAt`: one entry per key of the map,
      carrying the key's link and its commits unchanged, in ascending key
      order; the totals count the keys and pass the commit count through. */
  function BuildOutputArtifact(issueMap: map<string, seq<string>>, jiraBaseUrl: string, repository: string,
                               changeset: ChangesetInput, totalCommits: nat): (a: OutputArtifact)
    ensures |a.issues| == |issueMap|
    ensures forall k :: k in issueMap <==> k in KeysOf(a.issues)
    ensures forall i :: 0 <= i < |a.issues| ==>
              a.issues[i].key in issueMap
              && a.issues[i].commits == issueMap[a.issues[i].key]
              && a.issues[i].url == Jira.BuildIssueBrowseUrl(jiraBaseUrl, a.issues[i].key)
    ensures Ascending(KeysOf(a.issues))
    ensures a.metadata.jiraBaseUrl == jiraBaseUrl && a.metadata.repository == repository
    ensures a.metadata.changeset == BuildChangesetMetadata(changeset)
    ensures a.metadata.totalIssues == |a.issues| && a.metadata.totalCommits == totalCommits
  {
    var keys := SortedKeys(issueMap.Keys);
    var issues := IssuesFor(keys, issueMap, jiraBaseUrl);
    assert KeysOf(issues) == keys;
    OutputArtifact(
      OutputMetadata(jiraBaseUrl, repository, BuildChangesetMetadata(changeset), |issues|, totalCommits),
      issues)
  }

  /** An empty issue map gives an empty report. */
  lemma EmptyMapEmptyReport(jiraBaseUrl: string, repository: string, changeset: ChangesetInput, totalCommits: nat)
    ensures var a := BuildOutputArtifact(map[], jiraBaseUrl, repository, changeset, totalCommits);
            a.issues == [] && a.metadata.totalIssues == 0
  {
  }

  /** The report's entries are determined by the map alone: any ascending
      list of entries carrying, per key, its link and commits is the one built. */
  lemma ReportIsTheSortedEntries(issueMap: map<string, seq<string>>, jiraBaseUrl: string, repository: string,
                                 changeset: ChangesetInput, totalCommits: nat, issues: seq<JiraIssue>)
    requires Ascending(KeysOf(issues))
    requires forall k :: k in issueMap <==> k in KeysOf(issues)
    requires forall i :: 0 <= i < |issues| ==>
               issues[i].key in issueMap
               && issues[i].commits == issueMap[issues[i].key]
               && issues[i].url == Jira.BuildIssueBrowseUrl(jiraBaseUrl, issues[i].key)
    ensures BuildOutputArtifact(issueMap, jiraBaseUrl, repository, changeset, totalCommits).issues == issues
  {
    var built := BuildOutputArtifact(issueMap, jiraBaseUrl, repository, changeset, totalCommits).issues;
    AscendingUnique(KeysOf(built), KeysOf(issues));
    assert |built| == |issues| by {
      assert |KeysOf(built)| == |KeysOf(issues)|;
    }
    forall i | 0 <= i < |issues| ensures built[i] == issues[i] {
      assert KeysOf(built)[i] == KeysOf(issues)[i];
    }
  }

  // ---------------------------------------------------------------------
  // buildIssueKeysString / buildIssueLinksString
  // ---------------------------------------------------------------------

  /** `buildIssueKeysString(artifact)`: the keys joined by commas. */
  function BuildIssueKeysString(a: OutputArtifact): (s: string)
    ensures a.issues == [] ==> s == ""
    ensures |a.issues| == 1 ==> s == a.issues[0].key
  {
    Join(KeysOf(a.issues), ",")
  }

  /** `buildIssueLinksString(artifact)`: the links joined by commas. */
  function BuildIssueLinksString(a: OutputArtifact): (s: string)
    ensures a.issues == [] ==> s == ""
    ensures |a.issues| == 1 ==> s == a.issues[0].url
  {
    Join(UrlsOf(a.issues), ",")
  }

  /** Splitting the keys string at its commas gives the keys back in report
      order, when no key holds a comma. */
  lemma KeysStringSplits(a: OutputArtifact)
    requires |a.issues| > 0
    requires forall i :: 0 <= i < |a.issues| ==> ',' !in a.issues[i].key
    ensures Split(BuildIssueKeysString(a), ',') == KeysOf(a.issues)
  {
    SplitJoin(KeysOf(a.issues), ',');
  }

  /** Splitting the links string at its commas gives the links back in report
      order, when no link holds a comma. */
  lemma LinksStringSplits(a: OutputArtifact)
    requires |a.issues| > 0
    requires forall i :: 0 <= i < |a.issues| ==> ',' !in a.issues[i].url
    ensures Split(BuildIssueLinksString(a), ',') == UrlsOf(a.issues)
  {
    SplitJoin(UrlsOf(a.issues), ',');
  }

  /** Both strings list the report's issues in the same order: the n-th link
      is the browse link of the n-th key. */
  lemma LinksFollowKeys(issueMap: map<string, seq<string>>, jiraBaseUrl: string, repository: string,
                        changeset: ChangesetInput, totalCommits: nat)
    ensures var a := BuildOutputArtifact(issueMap, jiraBaseUrl, repository, changeset, totalCommits);
            forall i :: 0 <= i < |a.issues| ==>
              UrlsOf(a.issues)[i] == Jira.BuildIssueBrowseUrl(jiraBaseUrl, KeysOf(a.issues)[i])
  {
  }
}
