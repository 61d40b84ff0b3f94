/** The Jira side of the action that is pure logic: telling Cloud from Data
    Center by the host name, choosing the client's authentication, filtering the
    project keys the search returned against an allow-list, and building an
    issue's browse link. The HTTP request itself is not part of this model. */
module Jira {
  import opened Wrappers
  import opened Strings

  /** The host-name fragment that marks an Atlassian Cloud site. */
  const CloudMarker: string := ".atlassian.net"

  const MissingEmailMessage: string := "jira-user-email is required for JIRA Cloud authentication"

  /** `isJiraCloud(baseUrl)`: the URL contains `.atlassian.net` anywhere, that
      is, the marker occurs at some index. */
  function IsJiraCloud(baseUrl: string): (cloud: bool)
    ensures cloud <==> exists i :: OccursAt(baseUrl, CloudMarker, i)
  {
    ContainsIff(baseUrl, CloudMarker);
    Contains(baseUrl, CloudMarker)
  }

  /** `baseUrl.replace(/\/$/, '')`: one trailing slash, if any, is removed. */
  function StripTrailingSlash(url: string): (r: string)
    ensures |url| > 0 && url[|url| - 1] == '/' ==> url == r + "/"
    ensures !(|url| > 0 && url[|url| - 1] == '/') ==> r == url
  {
    if |url| > 0 && url[|url| - 1] == '/' then url[..|url| - 1] else url
  }

  /** Removing a trailing slash never changes whether the URL is a Cloud URL:
      the marker does not end in a slash. */
  lemma StripKeepsCloud(url: string)
    ensures IsJiraCloud(StripTrailingSlash(url)) == IsJiraCloud(url)
  {
    var r := StripTrailingSlash(url);
    if r != url {
      if exists i :: OccursAt(url, CloudMarker, i) {
        var i :| OccursAt(url, CloudMarker, i);
        var n := |CloudMarker|;
        assert CloudMarker[n - 1] == 't';
        assert url[i..i + n][n - 1] == url[i + n - 1];
        assert url[i + n - 1] != '/';
        assert i + n <= |r|;
        assert r[i..i + |CloudMarker|] == url[i..i + |CloudMarker|];
        assert OccursAt(r, CloudMarker, i);
      }
      if exists i :: OccursAt(r, CloudMarker, i) {
        var i :| OccursAt(r, CloudMarker, i);
        assert url[i..i + |CloudMarker|] == r[i..i + |CloudMarker|];
        assert OccursAt(url, CloudMarker, i);
      }
    }
  }

  /** `buildIssueBrowseUrl(baseUrl, issueKey)`. */
  function BuildIssueBrowseUrl(baseUrl: string, issueKey: string): (url: string)
    ensures |baseUrl| > 0 && baseUrl[|baseUrl| - 1] == '/' ==> url == baseUrl + "browse/" + issueKey
    ensures !(|baseUrl| > 0 && baseUrl[|baseUrl| - 1] == '/') ==> url == baseUrl + "/browse/" + issueKey
  {
    StripTrailingSlash(baseUrl) + "/browse/" + issueKey
  }

  /** The link ends in the key, so the key can be read back off the link. */
  lemma BrowseUrlEndsWithKey(baseUrl: string, issueKey: string)
    ensures var url := BuildIssueBrowseUrl(baseUrl, issueKey);
            |url| >= |issueKey| + 8 && url[|url| - |issueKey|..] == issueKey
            && url[|url| - |issueKey| - 8..|url| - |issueKey|] == "/browse/"
  {
  }

  /** A base URL written with or without its trailing slash gives the same link. */
  lemma BrowseUrlIgnoresTrailingSlash(baseUrl: string, issueKey: string)
    requires |baseUrl| == 0 || baseUrl[|baseUrl| - 1] != '/'
    ensures BuildIssueBrowseUrl(baseUrl + "/", issueKey) == BuildIssueBrowseUrl(baseUrl, issueKey)
  {
    assert (baseUrl + "/")[..|baseUrl|] == baseUrl;
  }

  // ---------------------------------------------------------------------
  // createJiraClient
  // ---------------------------------------------------------------------

  /** The two clients: REST v3 with basic authentication (Cloud: e-mail and API
      token), or REST v2 with an OAuth 2 access token (Data Center / Server). */
  datatype JiraClient =
    | Version3Basic(host: string, email: string, apiToken: string)
    | Version2OAuth(host: string, accessToken: string)

  /** `createJiraClient(baseUrl, token, email)`: a Cloud URL needs a truthy
      e-mail and gets basic authentication; any other URL gets the token as an
      OAuth 2 access token. The host is the URL without its trailing slash. */
  function CreateJiraClient(baseUrl: string, token: string, email: Option<string>): (r: Result<JiraClient, string>)
    ensures r.Failure? <==> IsJiraCloud(baseUrl) && !(email.Some? && email.value != "")
    ensures r.Failure? ==> r.error == MissingEmailMessage
    ensures r.Success? ==> r.value.host == StripTrailingSlash(baseUrl)
    ensures r.Success? ==> (r.value.Version3Basic? <==> IsJiraCloud(baseUrl))
    ensures r.Success? && r.value.Version3Basic? ==> r.value.email == email.value && r.value.apiToken == token
    ensures r.Success? && r.value.Version2OAuth? ==> r.value.accessToken == token
  {
    var normalizedUrl := StripTrailingSlash(baseUrl);
    StripKeepsCloud(baseUrl);
    if IsJiraCloud(normalizedUrl) then
      if !(email.Some? && email.value != "") then Failure(MissingEmailMessage)
      else Success(Version3Basic(normalizedUrl, email.value, token))
    else Success(Version2OAuth(normalizedUrl, token))
  }

  // ---------------------------------------------------------------------
  // The key filter of fetchProjectKeys
  // ---------------------------------------------------------------------

  /** A project as the search returns it; its key may be missing. */
  datatype Project = Project(key: Option<string>)

  /** `projects.map(p => p.key).filter(k => k !== undefined)`. */
  function DefinedKeys(projects: seq<Project>): (keys: seq<string>)
    ensures forall k :: k in keys <==> Project(Some(k)) in projects
    ensures |keys| <= |projects|
    decreases |projects|
  {
    if |projects| == 0 then []
    else
      var init := projects[..|projects| - 1];
      var last := projects[|projects| - 1];
      assert projects == init + [last];
      DefinedKeys(init) + (match last.key case Some(k) => [k] case None => [])
  }

  /** The keys keep the order of the projects: the keys of a concatenation are
      the keys of its parts, one after the other. */
  lemma {:induction false} DefinedKeysAppend(a: seq<Project>, b: seq<Project>)
    ensures DefinedKeys(a + b) == DefinedKeys(a) + DefinedKeys(b)
    decreases |b|
  {
    if |b| == 0 {
      assert a + b == a;
    } else {
      var init := b[..|b| - 1];
      assert a + b == (a + init) + [b[|b| - 1]];
      assert b == init + [b[|b| - 1]];
      DefinedKeysAppend(a, init);
    }
  }

  /** A single project contributes its key when it has one. */
  lemma DefinedKeysOfOne(p: Project)
    ensures DefinedKeys([p]) == (if p.key.Some? then [p.key.value] else [])
  {
    assert [p][..0] == [];
  }

  /** `keys.filter(k => allowedSet.has(k.toUpperCase()))`, with the allowed set
      holding the upper-cased allowed keys. */
  function KeepAllowed(keys: seq<string>, allowedUpper: seq<string>): (kept: seq<string>)
    ensures IsSubsequence(kept, keys)
    ensures forall k {:trigger multiset(kept)[k]} :: multiset(kept)[k] == if UpperStr(k) in allowedUpper then multiset(keys)[k] else 0
    decreases |keys|
  {
    if |keys| == 0 then []
    else
      var init := keys[..|keys| - 1];
      var last := keys[|keys| - 1];
      assert keys == init + [last];
      var tail := if UpperStr(last) in allowedUpper then [last] else [];
      SubsequenceAppend(KeepAllowed(init, allowedUpper), init, tail, [last]);
      assert multiset(keys) == multiset(init) + multiset{last};
      KeepAllowed(init, allowedUpper) + tail
  }

  /** A key is kept exactly when it is upper-cased in the allowed set. */
  lemma {:induction false} KeepAllowedMembers(keys: seq<string>, allowedUpper: seq<string>)
    ensures forall k :: k in KeepAllowed(keys, allowedUpper) <==> k in keys && UpperStr(k) in allowedUpper
    decreases |keys|
  {
    if |keys| > 0 {
      var init := keys[..|keys| - 1];
      KeepAllowedMembers(init, allowedUpper);
      assert keys == init + [keys[|keys| - 1]];
    }
  }

  /** The keys `fetchProjectKeys` returns for a search response: `values`
      (missing means none), keys that are defined, and, when an allow-list with
      at least one entry is given, only those equal to an allowed key up to
      case. */
  function FilterProjectKeys(values: Option<seq<Project>>, allowedKeys: Option<seq<string>>): (keys: seq<string>)
    ensures forall k :: k in keys <==>
              (values.Some? && Project(Some(k)) in values.value)
              && (allowedKeys.Some? && |allowedKeys.value| > 0 ==> exists a :: a in allowedKeys.value && UpperStr(a) == UpperStr(k))
    ensures IsSubsequence(keys, DefinedKeys(values.GetOr([])))
    ensures forall k {:trigger multiset(keys)[k]} :: multiset(keys)[k] ==
              if allowedKeys.Some? && |allowedKeys.value| > 0 && UpperStr(k) !in UpperAll(allowedKeys.value) then 0
              else multiset(DefinedKeys(values.GetOr([])))[k]
    ensures allowedKeys.Some? && |allowedKeys.value| > 0
            ==> keys == KeepAllowed(DefinedKeys(values.GetOr([])), UpperAll(allowedKeys.value))
  {
    var projects := values.GetOr([]);
    var keys := DefinedKeys(projects);
    if allowedKeys.Some? && |allowedKeys.value| > 0 then
      var allowedUpper := UpperAll(allowedKeys.value);
      assert forall k :: UpperStr(k) in allowedUpper <==> exists a :: a in allowedKeys.value && UpperStr(a) == UpperStr(k) by {
        forall k ensures UpperStr(k) in allowedUpper <==> exists a :: a in allowedKeys.value && UpperStr(a) == UpperStr(k) {
          if UpperStr(k) in allowedUpper {
            var n :| 0 <= n < |allowedUpper| && allowedUpper[n] == UpperStr(k);
            assert allowedKeys.value[n] in allowedKeys.value;
          }
        }
      }
      KeepAllowedMembers(keys, allowedUpper);
      KeepAllowed(keys, allowedUpper)
    else
      SubsequenceReflexive(keys);
      keys
  }

  /** Without an allow-list, or with an empty one, every defined key is kept in
      search order. */
  lemma NoAllowListKeepsAll(values: Option<seq<Project>>, allowedKeys: Option<seq<string>>)
    requires allowedKeys.None? || allowedKeys.value == []
    ensures FilterProjectKeys(values, allowedKeys) == DefinedKeys(values.GetOr([]))
  {
  }

  /** Filtering the result again with the same allow-list changes nothing. */
  lemma {:induction false} KeepAllowedIdempotent(keys: seq<string>, allowedUpper: seq<string>)
    ensures KeepAllowed(KeepAllowed(keys, allowedUpper), allowedUpper) == KeepAllowed(keys, allowedUpper)
    decreases |keys|
  {
    if |keys| > 0 {
      var init := keys[..|keys| - 1];
      var last := keys[|keys| - 1];
      KeepAllowedIdempotent(init, allowedUpper);
      KeepAllowedSnoc(init, last, allowedUpper);
      assert keys == init + [last];
      if UpperStr(last) in allowedUpper {
        assert KeepAllowed(keys, allowedUpper) == KeepAllowed(init, allowedUpper) + [last];
        KeepAllowedSnoc(KeepAllowed(init, allowedUpper), last, allowedUpper);
      } else {
        assert KeepAllowed(keys, allowedUpper) == KeepAllowed(init, allowedUpper) + [];
        assert KeepAllowed(init, allowedUpper) + [] == KeepAllowed(init, allowedUpper);
      }
    }
  }

  lemma KeepAllowedSnoc(keys: seq<string>, x: string, allowedUpper: seq<string>)
    ensures KeepAllowed(keys + [x], allowedUpper)
         == KeepAllowed(keys, allowedUpper) + (if UpperStr(x) in allowedUpper then [x] else [])
  {
    assert (keys + [x])[..|keys|] == keys;
  }

  /** The allow-list match ignores case on both sides. */
  lemma AllowListIgnoresCase()
    ensures FilterProjectKeys(Some([Project(Some("Proj")), Project(None), Project(Some("OTHER"))]), Some(["proj"]))
         == ["Proj"]
  {
    DefinedKeysSkipsMissing("Proj", "OTHER");
    KeepAllowedTwo("Proj", "OTHER", UpperAll(["proj"]));
    UpperExamples();
  }

  lemma DefinedKeysSkipsMissing(a: string, c: string)
    ensures DefinedKeys([Project(Some(a)), Project(None), Project(Some(c))]) == [a, c]
  {
    var projects := [Project(Some(a)), Project(None), Project(Some(c))];
    assert projects[..2] == [Project(Some(a)), Project(None)];
    assert projects[..2][..1] == [Project(Some(a))];
    assert [Project(Some(a))][..0] == [];
    assert DefinedKeys([Project(Some(a))]) == [a];
    assert DefinedKeys(projects[..2]) == [a];
  }

  lemma KeepAllowedTwo(a: string, c: string, allowedUpper: seq<string>)
    ensures KeepAllowed([a, c], allowedUpper)
         == (if UpperStr(a) in allowedUpper then [a] else []) + (if UpperStr(c) in allowedUpper then [c] else [])
  {
    KeepAllowedSnoc([a], c, allowedUpper);
    KeepAllowedSnoc([], a, allowedUpper);
    assert [a] + [c] == [a, c];
    assert [] + [a] == [a];
  }

  lemma UpperExamples()
    ensures UpperAll(["proj"]) == ["PROJ"]
    ensures UpperStr("Proj") == "PROJ" && UpperStr("OTHER") == "OTHER"
  {
    assert UpperStr("proj") == "PROJ";
  }
}
