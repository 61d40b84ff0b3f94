/** Facts that connect the parts of the action: the two mode dispatchers
    (the `git log` arguments and the report's changeset description) agree on
    every validated changeset, and the keys the scanner reports can be read
    back from the comma-joined output string. */
module Pipeline {
  import opened Wrappers
  import opened Strings
  import opened Numbers
  import opened Types
  import Scanner
  import Git
  import Inputs
  import Output

  // ---------------------------------------------------------------------
  // The two dispatchers
  // ---------------------------------------------------------------------

  /** With at most one primary field present, the report describes the mode
      whose arguments `git log` receives, and it says `unknown` exactly when
      `git log` gets the base arguments only. */
  lemma DispatchersAgree(cs: ChangesetInput)
    requires AtMostOneDefined(cs)
    ensures Output.BuildChangesetMetadata(cs).Kind() == FirstFired(cs, Git.GitOrder)
    ensures Output.BuildChangesetMetadata(cs) == Unknown
        <==> Git.BaseArgs + Git.ModeArgs(cs, FirstFired(cs, Git.GitOrder)) == Git.BaseArgs
  {
    Output.MetadataOrderIsComplete();
    Git.GitOrderIsComplete();
    FirstFiredOrderIrrelevant(cs, Output.MetadataOrder, Git.GitOrder);
    AppendNothingIff(Git.BaseArgs, Git.ModeArgs(cs, FirstFired(cs, Git.GitOrder)));
  }

  /** Appending leaves a sequence unchanged exactly when nothing is appended. */
  lemma AppendNothingIff(a: seq<string>, b: seq<string>)
    ensures a + b == a <==> b == []
  {
    if a + b == a {
      assert |a + b| == |a| + |b|;
    }
  }

  /** Every changeset that passes input validation gets the same mode from
      both dispatchers. */
  lemma ValidatedChangesetsAgree(raw: Inputs.RawInputs)
    requires Inputs.ParseInputs(raw).Success?
    ensures var cs := Inputs.ParseInputs(raw).value.changeset;
            Output.BuildChangesetMetadata(cs).Kind() == FirstFired(cs, Git.GitOrder)
  {
    Inputs.ValidChangesetHasOneMode(raw);
    DispatchersAgree(Inputs.ParseInputs(raw).value.changeset);
  }

  /** Without validation the dispatchers can disagree: a release count next to
      a commit count is reported as `releases` while `git log` is limited by
      the commit count. */
  lemma DispatchersDisagreeWithoutValidation()
    ensures var cs := ChangesetInput(Some(Num(3)), None, None, Some(Num(5)), None, None, None, None, None, None, None);
            Output.BuildChangesetMetadata(cs) == Releases(Num(3))
            && FirstFired(cs, Git.GitOrder) == Some(CommitCount)
  {
    var cs := ChangesetInput(Some(Num(3)), None, None, Some(Num(5)), None, None, None, None, None, None, None);
    Git.CountTakesPrecedence(cs);
  }

  // ---------------------------------------------------------------------
  // Scanner keys in the output strings
  // ---------------------------------------------------------------------

  /** A key matched with a valid prefix holds no comma: it is letters and
      digits, a dash and digits. */
  lemma KeyHasNoComma(x: string, p: string)
    requires Scanner.ValidPrefix(p)
    requires Scanner.IsKeyOf(x, p)
    ensures ',' !in x
  {
    forall j | 0 <= j < |x| ensures x[j] != ',' {
      if j < |p| {
        assert x[j] == x[..|p|][j] == UpperChar(p[j]);
      } else if j > |p| {
        assert x[j] == x[|p| + 1..][j - |p| - 1];
      }
    }
  }

  /** No key the scan reports holds a comma. */
  lemma {:induction false} IssueKeysHaveNoComma(commits: seq<Commit>, ps: seq<string>, x: string)
    requires Scanner.Alternation(ps).Valid()
    requires x in Scanner.IssueKeys(commits, Scanner.Alternation(ps))
    ensures ',' !in x
    decreases |commits|
  {
    var init := commits[..|commits| - 1];
    if x in Scanner.IssueKeys(init, Scanner.Alternation(ps)) {
      IssueKeysHaveNoComma(init, ps, x);
    } else {
      Scanner.ExtractIssuesSound(commits[|commits| - 1].message, ps, x);
      var k :| 0 <= k < |ps| && Scanner.IsKeyOf(x, ps[k]);
      KeyHasNoComma(x, ps[k]);
    }
  }

  /** The keys output of a report built from a scan splits back, at its
      commas, into the scanned keys in ascending order. */
  lemma ScannedKeysReadBack(commits: seq<Commit>, prefixes: seq<string>, issueMap: map<string, seq<string>>,
                            jiraBaseUrl: string, repository: string, changeset: ChangesetInput, totalCommits: nat)
    requires Scanner.ValidPrefixes(prefixes)
    requires issueMap.Keys == Scanner.IssueKeys(commits, Scanner.BuildIssuePattern(prefixes))
    requires |issueMap| > 0
    ensures var a := Output.BuildOutputArtifact(issueMap, jiraBaseUrl, repository, changeset, totalCommits);
            Split(Output.BuildIssueKeysString(a), ',') == Output.SortedKeys(issueMap.Keys)
  {
    var a := Output.BuildOutputArtifact(issueMap, jiraBaseUrl, repository, changeset, totalCommits);
    var pattern := Scanner.BuildIssuePattern(prefixes);
    if |prefixes| == 0 {
      Scanner.IssueKeysNeverMatches(commits);
    }
    assert pattern == Scanner.Alternation(prefixes);
    forall i | 0 <= i < |a.issues| ensures ',' !in a.issues[i].key {
      IssueKeysHaveNoComma(commits, prefixes, a.issues[i].key);
    }
    Output.KeysStringSplits(a);
    Output.AscendingUnique(Output.KeysOf(a.issues), Output.SortedKeys(issueMap.Keys));
  }
}
