/** The issue-key scanner: a matcher for `(<p1>|<p2>|...)-\d+` with the `i`
    flag, written out by hand instead of through a regular-expression engine;
    the global scan of one message; the deduplication of its matches; and the
    fold of all commits into a map from issue key to commit shas. */
module Scanner {
  import opened Wrappers
  import opened Strings
  import opened Types

  // ---------------------------------------------------------------------
  // Prefixes and the pattern
  // ---------------------------------------------------------------------

  /** A project prefix: a non-empty ASCII alphanumeric code, so that it holds
      no regular-expression metacharacter. */
  predicate ValidPrefix(p: string) {
    |p| > 0 && forall i :: 0 <= i < |p| ==> IsAsciiAlnum(p[i])
  }

  predicate ValidPrefixes(ps: seq<string>) {
    forall k :: 0 <= k < |ps| ==> ValidPrefix(ps[k])
  }

  /** The compiled pattern: `(?!)`, which matches nothing, or the alternation
      of the prefixes followed by `-` and one or more digits. */
  datatype IssuePattern = NeverMatches | Alternation(prefixes: seq<string>)
  {
    predicate Valid() {
      Alternation? ==> |prefixes| > 0 && ValidPrefixes(prefixes)
    }
  }

  /** Case-insensitive (ASCII) occurrence of prefix `p` at index `i`. */
  predicate PrefixAt(msg: string, i: nat, p: string) {
    i + |p| <= |msg| && UpperStr(msg[i..i + |p|]) == UpperStr(p)
  }

  /** `msg[i..e]` is `p` (any case), `-`, and the longest run of digits there. */
  predicate IsKeyMatch(msg: string, i: nat, p: string, e: nat) {
    && PrefixAt(msg, i, p)
    && i + |p| < |msg| && msg[i + |p|] == '-'
    && i + |p| + 1 < e <= |msg|
    && (forall j :: i + |p| + 1 <= j < e ==> IsDigit(msg[j]))
    && (e == |msg| || !IsDigit(msg[e]))
  }

  /** Some alternative of `ps` matches at `i`, ending at `e`. */
  predicate KeyMatchAt(msg: string, i: nat, ps: seq<string>, e: nat) {
    exists k :: 0 <= k < |ps| && IsKeyMatch(msg, i, ps[k], e)
  }

  /** The end of the greedy `\d+` starting at `k` (equal to `k` when there is no digit). */
  function DigitRunEnd(msg: string, k: nat): (e: nat)
    requires k <= |msg|
    ensures k <= e <= |msg|
    ensures forall j :: k <= j < e ==> IsDigit(msg[j])
    ensures e == |msg| || !IsDigit(msg[e])
    decreases |msg| - k
  {
    if k < |msg| && IsDigit(msg[k]) then DigitRunEnd(msg, k + 1) else k
  }

  /** Tries one alternative at `i`: the end of its match, if it matches. */
  function PrefixMatchEnd(msg: string, i: nat, p: string): (r: Option<nat>)
    ensures r.Some? ==> IsKeyMatch(msg, i, p, r.value)
    ensures r.None? ==> forall e :: !IsKeyMatch(msg, i, p, e)
  {
    if i + |p| < |msg| && PrefixAt(msg, i, p) && msg[i + |p|] == '-' then
      var e := DigitRunEnd(msg, i + |p| + 1);
      if e > i + |p| + 1 then Some(e) else None
    else None
  }

  /** The pattern at index `i`: the alternatives are tried in the order given,
      and the first one that matches wins. */
  function MatchAt(msg: string, i: nat, ps: seq<string>): (r: Option<nat>)
    ensures r.Some? ==> i < r.value <= |msg| && KeyMatchAt(msg, i, ps, r.value)
    ensures r.None? ==> forall k, e :: 0 <= k < |ps| ==> !IsKeyMatch(msg, i, ps[k], e)
    decreases |ps|
  {
    if |ps| == 0 then None
    else
      match PrefixMatchEnd(msg, i, ps[0])
      case Some(e) => assert IsKeyMatch(msg, i, ps[0], e); Some(e)
      case None =>
        var r := MatchAt(msg, i, ps[1..]);
        assert r.Some? ==> KeyMatchAt(msg, i, ps, r.value) by {
          if r.Some? {
            var k :| 0 <= k < |ps[1..]| && IsKeyMatch(msg, i, ps[1..][k], r.value);
            assert ps[1..][k] == ps[k + 1];
          }
        }
        assert r.None? ==> forall k, e :: 0 <= k < |ps| ==> !IsKeyMatch(msg, i, ps[k], e) by {
          if r.None? {
            forall k, e | 0 <= k < |ps| ensures !IsKeyMatch(msg, i, ps[k], e) {
              if k > 0 { assert ps[k] == ps[1..][k - 1]; }
            }
          }
        }
        r
  }

  /** Two valid prefixes that both match at one index end at the same place and
      are the same word up to case: a prefix followed by `-` cannot be the start
      of a longer alphanumeric prefix. */
  lemma KeyMatchUnique(msg: string, i: nat, p: string, e: nat, q: string, f: nat)
    requires ValidPrefix(p) && ValidPrefix(q)
    requires IsKeyMatch(msg, i, p, e) && IsKeyMatch(msg, i, q, f)
    ensures e == f && UpperStr(p) == UpperStr(q)
  {
    NoDashInPrefix(msg, i, p);
    NoDashInPrefix(msg, i, q);
    assert |p| == |q|;
  }

  /** The text a valid prefix matches holds no `-`. */
  lemma NoDashInPrefix(msg: string, i: nat, p: string)
    requires ValidPrefix(p) && PrefixAt(msg, i, p)
    ensures forall j :: i <= j < i + |p| ==> msg[j] != '-'
  {
    forall j | i <= j < i + |p| ensures msg[j] != '-' {
      assert UpperStr(msg[i..i + |p|])[j - i] == UpperChar(msg[j]);
      assert UpperStr(p)[j - i] == UpperChar(p[j - i]);
    }
  }

  /** With valid prefixes, the order of the alternatives does not change what
      matches at an index. */
  lemma MatchAtOrderIrrelevant(msg: string, i: nat, ps: seq<string>, qs: seq<string>)
    requires ValidPrefixes(ps) && ValidPrefixes(qs)
    requires forall p :: p in ps <==> p in qs
    ensures MatchAt(msg, i, ps) == MatchAt(msg, i, qs)
  {
    if MatchAt(msg, i, ps).Some? {
      MatchTransfers(msg, i, ps, qs);
    } else if MatchAt(msg, i, qs).Some? {
      MatchTransfers(msg, i, qs, ps);
    }
  }

  /** A match found with one ordering of the prefixes is found, with the same
      end, with any other ordering of them. */
  lemma MatchTransfers(msg: string, i: nat, ps: seq<string>, qs: seq<string>)
    requires ValidPrefixes(ps) && ValidPrefixes(qs)
    requires forall p :: p in ps <==> p in qs
    requires MatchAt(msg, i, ps).Some?
    ensures MatchAt(msg, i, qs) == MatchAt(msg, i, ps)
  {
    var e := MatchAt(msg, i, ps).value;
    var k :| 0 <= k < |ps| && IsKeyMatch(msg, i, ps[k], e);
    assert ps[k] in qs;
    var k' :| 0 <= k' < |qs| && qs[k'] == ps[k];
    var r := MatchAt(msg, i, qs);
    assert r.Some?;
    var l :| 0 <= l < |qs| && IsKeyMatch(msg, i, qs[l], r.value);
    KeyMatchUnique(msg, i, ps[k], e, qs[l], r.value);
  }

  // ---------------------------------------------------------------------
  // The global scan of one message
  // ---------------------------------------------------------------------

  datatype Span = Span(start: nat, end: nat)

  /** Index `j` lies inside one of the spans. */
  predicate Covered(spans: seq<Span>, j: int) {
    exists k :: 0 <= k < |spans| && spans[k].start <= j < spans[k].end
  }

  /** What `message.match(/.../gi)` visits from index `i` on: at each index the
      pattern is tried; a match is recorded and the scan resumes at its end,
      otherwise the scan moves one character on. */
  function MatchSpans(msg: string, ps: seq<string>, i: nat): (spans: seq<Span>)
    ensures forall k :: 0 <= k < |spans| ==>
              i <= spans[k].start && MatchAt(msg, spans[k].start, ps) == Some(spans[k].end)
    ensures forall k :: 0 <= k < |spans| - 1 ==> spans[k].end <= spans[k + 1].start
    decreases |msg| - i
  {
    if i >= |msg| then []
    else
      match MatchAt(msg, i, ps)
      case Some(e) => [Span(i, e)] + MatchSpans(msg, ps, e)
      case None => MatchSpans(msg, ps, i + 1)
  }

  /** The scan is leftmost: at no index it steps over does the pattern match. */
  lemma {:induction false} MatchSpansLeftmost(msg: string, ps: seq<string>, i: nat, j: int)
    requires i <= j < |msg|
    requires !Covered(MatchSpans(msg, ps, i), j)
    ensures MatchAt(msg, j, ps) == None
    decreases |msg| - i, 1
  {
    var r := MatchAt(msg, i, ps);
    if r.Some? {
      LeftmostPastMatch(msg, ps, i, r.value, j);
    } else if i < j {
      LeftmostPastMiss(msg, ps, i, j);
    }
  }

  /** The step of MatchSpansLeftmost over an index `i < j` where nothing matches. */
  lemma {:induction false} LeftmostPastMiss(msg: string, ps: seq<string>, i: nat, j: int)
    requires i < j < |msg| && MatchAt(msg, i, ps) == None
    requires !Covered(MatchSpans(msg, ps, i), j)
    ensures MatchAt(msg, j, ps) == None
    decreases |msg| - i, 0
  {
    SpansAfterNoMatch(msg, ps, i);
    MatchSpansLeftmost(msg, ps, i + 1, j);
  }

  /** The step of MatchSpansLeftmost over a match at `i` ending at `e`. */
  lemma {:induction false} LeftmostPastMatch(msg: string, ps: seq<string>, i: nat, e: nat, j: int)
    requires i <= j < |msg| && MatchAt(msg, i, ps) == Some(e)
    requires !Covered(MatchSpans(msg, ps, i), j)
    ensures MatchAt(msg, j, ps) == None
    decreases |msg| - i, 0
  {
    SpansAfterMatch(msg, ps, i, e);
    CoveredCons(Span(i, e), MatchSpans(msg, ps, e), j);
    if e <= j {
      MatchSpansLeftmost(msg, ps, e, j);
    }
  }

  /** An index is covered by spans with one more in front exactly when the
      first covers it or the others do. */
  lemma CoveredCons(sp: Span, rest: seq<Span>, j: int)
    ensures Covered([sp] + rest, j) <==> (sp.start <= j < sp.end || Covered(rest, j))
  {
    var spans := [sp] + rest;
    if Covered(rest, j) {
      var k :| 0 <= k < |rest| && rest[k].start <= j < rest[k].end;
      assert spans[k + 1] == rest[k];
    }
    if Covered(spans, j) {
      var k :| 0 <= k < |spans| && spans[k].start <= j < spans[k].end;
      if k > 0 {
        assert spans[k] == rest[k - 1];
      }
    }
    assert spans[0] == sp;
  }

  /** The matched texts, in the order `match` returns them. */
  function RawMatches(msg: string, ps: seq<string>): (ms: seq<string>)
    ensures var spans := MatchSpans(msg, ps, 0);
            |ms| == |spans|
            && forall k :: 0 <= k < |spans| ==>
                 spans[k].end <= |msg| && ms[k] == msg[spans[k].start..spans[k].end]
  {
    var spans := MatchSpans(msg, ps, 0);
    seq(|spans|, k requires 0 <= k < |spans| =>
      assert MatchAt(msg, spans[k].start, ps) == Some(spans[k].end);
      msg[spans[k].start..spans[k].end])
  }

  // ---------------------------------------------------------------------
  // Deduplication: `[...new Set(xs)]`
  // ---------------------------------------------------------------------

  /** The index of the first occurrence of `x` in `s`. */
  function FirstIndex<T(==)>(s: seq<T>, x: T): (i: nat)
    requires x in s
    ensures i < |s| && s[i] == x && x !in s[..i]
    decreases |s|
  {
    if s[0] == x then 0 else 1 + FirstIndex(s[1..], x)
  }

  /** The distinct elements of `s` in the order a `Set` built from `s` holds
      them: the order of their first occurrence. */
  function Dedup<T(==,!new)>(s: seq<T>): (r: seq<T>)
    ensures NoDuplicates(r)
    ensures forall x :: x in r <==> x in s
    decreases |s|
  {
    if |s| == 0 then []
    else
      var d := Dedup(s[..|s| - 1]);
      var x := s[|s| - 1];
      assert forall y :: y in s <==> y in s[..|s| - 1] || y == x by {
        assert s == s[..|s| - 1] + [x];
      }
      if x in d then d else d + [x]
  }

  lemma FirstIndexPrefix<T>(s: seq<T>, x: T, y: T)
    requires y in s
    ensures FirstIndex(s + [x], y) == FirstIndex(s, y)
  {
    var i := FirstIndex(s, y);
    var j := FirstIndex(s + [x], y);
    assert (s + [x])[i] == y;
  }

  /** Deduplication keeps first-occurrence order. */
  lemma {:induction false} DedupFirstSeenOrder<T(!new)>(s: seq<T>)
    ensures forall i, j :: 0 <= i < j < |Dedup(s)| ==> FirstIndex(s, Dedup(s)[i]) < FirstIndex(s, Dedup(s)[j])
    decreases |s|
  {
    if |s| > 0 {
      var init := s[..|s| - 1];
      var x := s[|s| - 1];
      assert s == init + [x];
      DedupFirstSeenOrder(init);
      var d := Dedup(init);
      forall y | y in init ensures FirstIndex(s, y) == FirstIndex(init, y) {
        FirstIndexPrefix(init, x, y);
      }
      if x !in d {
        assert x !in init;
        assert FirstIndex(s, x) == |init|;
      }
    }
  }

  // ---------------------------------------------------------------------
  // extractIssues and the shape of an issue key
  // ---------------------------------------------------------------------

  /** `x` is `p` in upper case, `-`, and one or more digits. */
  predicate IsKeyOf(x: string, p: string) {
    |x| > |p| + 1 && x[..|p|] == UpperStr(p) && x[|p|] == '-' && AllDigits(x[|p| + 1..])
  }

  /** The upper-cased text of `msg` at `i` is `x`. */
  predicate UpperOccursAt(msg: string, x: string, i: int) {
    0 <= i <= |msg| - |x| && UpperStr(msg[i..i + |x|]) == x
  }

  /** `extractIssues(message, pattern)`: every match of the pattern, upper-cased,
      without repetitions, in order of first appearance. */
  function ExtractIssues(message: string, pattern: IssuePattern): (issues: seq<string>)
    requires pattern.Valid()
    ensures NoDuplicates(issues)
    ensures pattern.NeverMatches? ==> issues == []
  {
    match pattern
    case NeverMatches => []
    case Alternation(ps) =>
      var matches := RawMatches(message, ps);
      if |matches| == 0 then [] else Dedup(UpperAll(matches))
  }

  /** `buildIssuePattern(prefixes)`: no prefixes give the pattern that matches
      nothing, so no message yields an issue. */
  function BuildIssuePattern(prefixes: seq<string>): (pattern: IssuePattern)
    requires ValidPrefixes(prefixes)
    ensures pattern.Valid()
    ensures |prefixes| == 0 ==> forall m :: ExtractIssues(m, pattern) == []
    ensures |prefixes| > 0 ==> pattern == Alternation(prefixes)
  {
    if |prefixes| == 0 then NeverMatches else Alternation(prefixes)
  }

  /** A match of a prefix, upper-cased, is that prefix upper-cased, `-`, digits. */
  lemma KeyMatchShape(msg: string, i: nat, p: string, e: nat)
    requires IsKeyMatch(msg, i, p, e)
    ensures IsKeyOf(UpperStr(msg[i..e]), p)
  {
    var x := UpperStr(msg[i..e]);
    assert msg[i..e] == msg[i..i + |p|] + msg[i + |p|..e];
    UpperStrAppend(msg[i..i + |p|], msg[i + |p|..e]);
    assert x[|p|] == UpperChar(msg[i + |p|]);
    forall j | |p| + 1 <= j < |x| ensures IsDigit(x[j]) {
      assert x[j] == UpperChar(msg[i + j]);
    }
  }

  /** Every key `extractIssues` returns is one of the prefixes in upper case,
      `-` and digits, and it is the upper-cased text of the message somewhere. */
  lemma ExtractIssuesSound(message: string, ps: seq<string>, x: string)
    requires Alternation(ps).Valid()
    requires x in ExtractIssues(message, Alternation(ps))
    ensures exists k :: 0 <= k < |ps| && IsKeyOf(x, ps[k])
    ensures exists i :: UpperOccursAt(message, x, i)
  {
    var matches := RawMatches(message, ps);
    var found := UpperAll(matches);
    assert x in found;
    var n :| 0 <= n < |found| && found[n] == x;
    RawMatchSound(message, ps, n);
  }

  /** The `n`-th raw match, upper-cased, is a key of some prefix and occurs
      upper-cased in the message. */
  lemma RawMatchSound(message: string, ps: seq<string>, n: nat)
    requires n < |RawMatches(message, ps)|
    ensures var x := UpperStr(RawMatches(message, ps)[n]);
            (exists k :: 0 <= k < |ps| && IsKeyOf(x, ps[k])) && (exists i :: UpperOccursAt(message, x, i))
  {
    var spans := MatchSpans(message, ps, 0);
    var sp := spans[n];
    var x := UpperStr(RawMatches(message, ps)[n]);
    assert MatchAt(message, sp.start, ps) == Some(sp.end);
    var k :| 0 <= k < |ps| && IsKeyMatch(message, sp.start, ps[k], sp.end);
    KeyMatchShape(message, sp.start, ps[k], sp.end);
    assert UpperOccursAt(message, x, sp.start);
  }

  /** Every match of the scan appears, upper-cased, among the keys. */
  lemma ExtractIssuesComplete(message: string, ps: seq<string>)
    requires Alternation(ps).Valid()
    ensures forall sp :: sp in MatchSpans(message, ps, 0) ==>
              UpperStr(message[sp.start..sp.end]) in ExtractIssues(message, Alternation(ps))
  {
    var spans := MatchSpans(message, ps, 0);
    var matches := RawMatches(message, ps);
    forall sp | sp in spans
      ensures UpperStr(message[sp.start..sp.end]) in ExtractIssues(message, Alternation(ps))
    {
      var n :| 0 <= n < |spans| && spans[n] == sp;
      assert UpperAll(matches)[n] == UpperStr(message[sp.start..sp.end]);
    }
  }

  /** The keys come in the order in which each first appears in the message. */
  lemma ExtractIssuesFirstSeenOrder(message: string, ps: seq<string>)
    requires Alternation(ps).Valid()
    ensures var issues := ExtractIssues(message, Alternation(ps));
            var found := UpperAll(RawMatches(message, ps));
            forall i, j :: 0 <= i < j < |issues| ==>
              issues[i] in found && issues[j] in found && FirstIndex(found, issues[i]) < FirstIndex(found, issues[j])
  {
    DedupFirstSeenOrder(UpperAll(RawMatches(message, ps)));
  }

  /** No key is returned exactly when the pattern matches at no index. */
  lemma ExtractIssuesEmptyIff(message: string, ps: seq<string>)
    requires Alternation(ps).Valid()
    ensures ExtractIssues(message, Alternation(ps)) == [] <==>
              forall j :: 0 <= j < |message| ==> MatchAt(message, j, ps) == None
  {
    var spans := MatchSpans(message, ps, 0);
    if ExtractIssues(message, Alternation(ps)) == [] {
      assert |spans| == 0;
      forall j | 0 <= j < |message| ensures MatchAt(message, j, ps) == None {
        assert !Covered(spans, j);
        MatchSpansLeftmost(message, ps, 0, j);
      }
    } else {
      assert |spans| > 0;
      assert MatchAt(message, spans[0].start, ps).Some?;
    }
  }

  lemma {:induction false} MatchSpansOrderIrrelevant(msg: string, ps: seq<string>, qs: seq<string>, i: nat)
    requires ValidPrefixes(ps) && ValidPrefixes(qs)
    requires forall p :: p in ps <==> p in qs
    ensures MatchSpans(msg, ps, i) == MatchSpans(msg, qs, i)
    decreases |msg| - i
  {
    if i < |msg| {
      MatchAtOrderIrrelevant(msg, i, ps, qs);
      match MatchAt(msg, i, ps)
      case Some(e) => MatchSpansOrderIrrelevant(msg, ps, qs, e);
      case None => MatchSpansOrderIrrelevant(msg, ps, qs, i + 1);
    }
  }

  /** The order in which the prefixes are listed does not change the keys
      found, nor their order. */
  lemma ExtractIssuesOrderIrrelevant(message: string, ps: seq<string>, qs: seq<string>)
    requires Alternation(ps).Valid() && Alternation(qs).Valid()
    requires forall p :: p in ps <==> p in qs
    ensures ExtractIssues(message, Alternation(ps)) == ExtractIssues(message, Alternation(qs))
  {
    MatchSpansOrderIrrelevant(message, ps, qs, 0);
    var m1, m2 := RawMatches(message, ps), RawMatches(message, qs);
    assert m1 == m2;
  }

  // ---------------------------------------------------------------------
  // Scanning the keys output again
  // ---------------------------------------------------------------------

  /** At the start of a key of one of the prefixes, when no digit follows it,
      the pattern matches exactly that key. */
  lemma KeyMatchesItself(msg: string, i: nat, ps: seq<string>, x: string)
    requires ValidPrefixes(ps)
    requires exists k :: 0 <= k < |ps| && IsKeyOf(x, ps[k])
    requires i + |x| <= |msg| && msg[i..i + |x|] == x
    requires i + |x| == |msg| || !IsDigit(msg[i + |x|])
    ensures MatchAt(msg, i, ps) == Some(i + |x|)
  {
    var k :| 0 <= k < |ps| && IsKeyOf(x, ps[k]);
    var p := ps[k];
    var e := i + |x|;
    assert msg[i..i + |p|] == x[..|p|];
    UpperStrIdempotent(p);
    assert msg[i + |p|] == x[|p|];
    forall j | i + |p| + 1 <= j < e ensures IsDigit(msg[j]) {
      assert msg[j] == x[j - i] == x[|p| + 1..][j - i - |p| - 1];
    }
    assert IsKeyMatch(msg, i, p, e);
    var r := MatchAt(msg, i, ps);
    assert r.Some?;
    var l :| 0 <= l < |ps| && IsKeyMatch(msg, i, ps[l], r.value);
    KeyMatchUnique(msg, i, p, e, ps[l], r.value);
  }

  /** Nothing matches at a comma: every prefix starts with a letter or a digit. */
  lemma NoMatchAtComma(msg: string, i: nat, ps: seq<string>)
    requires ValidPrefixes(ps)
    requires i < |msg| && msg[i] == ','
    ensures MatchAt(msg, i, ps) == None
  {
    forall k, e | 0 <= k < |ps| ensures !IsKeyMatch(msg, i, ps[k], e) {
      var p := ps[k];
      assert IsAsciiAlnum(p[0]);
      assert i + |p| <= |msg| ==> UpperStr(msg[i..i + |p|])[0] == UpperChar(msg[i]);
      assert UpperStr(p)[0] == UpperChar(p[0]);
    }
  }

  /** The spans cut exactly the strings `xs` out of `msg`, one each, in order. */
  predicate SpansSpell(msg: string, spans: seq<Span>, xs: seq<string>) {
    && |spans| == |xs|
    && forall n :: 0 <= n < |xs| ==>
         spans[n].start <= spans[n].end <= |msg| && msg[spans[n].start..spans[n].end] == xs[n]
  }

  lemma SpansSpellCons(msg: string, sp: Span, spans: seq<Span>, x: string, xs: seq<string>)
    requires SpansSpell(msg, spans, xs)
    requires sp.start <= sp.end <= |msg| && msg[sp.start..sp.end] == x
    ensures SpansSpell(msg, [sp] + spans, [x] + xs)
  {
    forall n | 1 <= n < |xs| + 1 ensures ([sp] + spans)[n] == spans[n - 1] && ([x] + xs)[n] == xs[n - 1] {
    }
  }

  /** `msg` from index `i` on is the strings `xs` with a comma between each two. */
  predicate JoinedAt(msg: string, i: nat, xs: seq<string>)
    decreases |xs|
  {
    if |xs| == 0 then i == |msg|
    else
      && i + |xs[0]| <= |msg| && msg[i..i + |xs[0]|] == xs[0]
      && if |xs| == 1 then i + |xs[0]| == |msg|
         else i + |xs[0]| < |msg| && msg[i + |xs[0]|] == ',' && JoinedAt(msg, i + |xs[0]| + 1, xs[1..])
  }

  /** What `join(',')` writes is joined in that sense. */
  lemma {:induction false} JoinIsJoinedAt(msg: string, i: nat, xs: seq<string>)
    requires i <= |msg| && msg[i..] == Join(xs, ",")
    ensures JoinedAt(msg, i, xs)
    decreases |xs|
  {
    if |xs| == 1 {
      assert msg[i..i + |xs[0]|] == msg[i..];
    } else if |xs| > 1 {
      var x := xs[0];
      assert msg[i..] == x + "," + Join(xs[1..], ",");
      assert msg[i..i + |x|] == msg[i..][..|x|];
      assert msg[i + |x|] == msg[i..][|x|];
      assert msg[i + |x| + 1..] == msg[i..][|x| + 1..];
      JoinIsJoinedAt(msg, i + |x| + 1, xs[1..]);
    }
  }

  /** After a match the scan resumes at its end. */
  lemma SpansAfterMatch(msg: string, ps: seq<string>, i: nat, e: nat)
    requires i < |msg| && MatchAt(msg, i, ps) == Some(e)
    ensures MatchSpans(msg, ps, i) == [Span(i, e)] + MatchSpans(msg, ps, e)
  {
  }

  /** Without a match the scan moves one character on. */
  lemma SpansAfterNoMatch(msg: string, ps: seq<string>, i: nat)
    requires i < |msg| && MatchAt(msg, i, ps) == None
    ensures MatchSpans(msg, ps, i) == MatchSpans(msg, ps, i + 1)
  {
  }

  /** The scan takes a key followed by a comma as one match and goes on after
      the comma. */
  lemma ScanOverKeyAndComma(msg: string, ps: seq<string>, i: nat, x: string)
    requires ValidPrefixes(ps)
    requires exists k :: 0 <= k < |ps| && IsKeyOf(x, ps[k])
    requires i + |x| < |msg| && msg[i..i + |x|] == x && msg[i + |x|] == ','
    ensures MatchSpans(msg, ps, i) == [Span(i, i + |x|)] + MatchSpans(msg, ps, i + |x| + 1)
  {
    NoMatchAtComma(msg, i + |x|, ps);
    KeyMatchesItself(msg, i, ps, x);
    SpansOverMatchAndMiss(msg, ps, i, i + |x|);
  }

  /** A match followed by an index where nothing matches: the scan records the
      match and goes on one character after it. */
  lemma SpansOverMatchAndMiss(msg: string, ps: seq<string>, i: nat, e: nat)
    requires e < |msg| && MatchAt(msg, i, ps) == Some(e) && MatchAt(msg, e, ps) == None
    ensures MatchSpans(msg, ps, i) == [Span(i, e)] + MatchSpans(msg, ps, e + 1)
  {
    SpansAfterMatch(msg, ps, i, e);
    SpansAfterNoMatch(msg, ps, e);
  }

  /** Every string of `xs` is a key of one of the prefixes. */
  predicate AllKeysOf(xs: seq<string>, ps: seq<string>) {
    forall x :: x in xs ==> exists k :: 0 <= k < |ps| && IsKeyOf(x, ps[k])
  }

  lemma AllKeysOfTail(xs: seq<string>, ps: seq<string>)
    requires |xs| > 0 && AllKeysOf(xs, ps)
    ensures AllKeysOf(xs[1..], ps)
  {
    forall x | x in xs[1..] ensures x in xs {
    }
  }

  /** Where the strings `xs` lie when they are written from index `i` on with
      a comma between each two. */
  function KeySpans(i: nat, xs: seq<string>): (spans: seq<Span>)
    ensures |spans| == |xs|
    decreases |xs|
  {
    if |xs| == 0 then [] else [Span(i, i + |xs[0]|)] + KeySpans(i + |xs[0]| + 1, xs[1..])
  }

  /** Those places spell `xs` in a message joined from index `i` on. */
  lemma {:induction false} KeySpansSpell(msg: string, i: nat, xs: seq<string>)
    requires JoinedAt(msg, i, xs)
    ensures SpansSpell(msg, KeySpans(i, xs), xs)
    decreases |xs|
  {
    if |xs| == 1 {
      assert KeySpans(i, xs) == [Span(i, i + |xs[0]|)];
    } else if |xs| > 1 {
      KeySpansSpell(msg, i + |xs[0]| + 1, xs[1..]);
      SpansSpellCons(msg, Span(i, i + |xs[0]|), KeySpans(i + |xs[0]| + 1, xs[1..]), xs[0], xs[1..]);
      assert [xs[0]] + xs[1..] == xs;
    }
  }

  /** KeySpans of one more string in front. */
  lemma KeySpansCons(i: nat, x: string, rest: seq<string>)
    ensures KeySpans(i, [x] + rest) == [Span(i, i + |x|)] + KeySpans(i + |x| + 1, rest)
  {
    assert ([x] + rest)[1..] == rest;
  }

  /** Scanning keys joined by commas, from where they start, finds each key
      where it was written, once, in order, and nothing else. */
  lemma {:induction false} ScanOfJoinedKeys(msg: string, ps: seq<string>, i: nat, xs: seq<string>)
    requires ValidPrefixes(ps) && AllKeysOf(xs, ps)
    requires JoinedAt(msg, i, xs)
    ensures MatchSpans(msg, ps, i) == KeySpans(i, xs)
    decreases |xs|
  {
    if |xs| > 0 {
      var x, rest := xs[0], xs[1..];
      assert xs == [x] + rest && x in xs;
      KeySpansCons(i, x, rest);
      AllKeysOfTail(xs, ps);
      if |rest| == 0 {
        KeyMatchesItself(msg, i, ps, x);
        SpansAfterMatch(msg, ps, i, i + |x|);
      } else {
        ScanOfJoinedKeys(msg, ps, i + |x| + 1, rest);
        ScanOverKeyAndComma(msg, ps, i, x);
      }
    }
  }

  /** A sequence without repetitions is its own deduplication. */
  lemma {:induction false} DedupOfDistinct<T(!new)>(s: seq<T>)
    requires NoDuplicates(s)
    ensures Dedup(s) == s
    decreases |s|
  {
    if |s| > 0 {
      var init := s[..|s| - 1];
      var x := s[|s| - 1];
      forall j | 0 <= j < |init| ensures init[j] != x {
        assert init[j] == s[j];
      }
      DedupOfDistinct(init);
      assert s == init + [x];
    }
  }

  /** The raw matches of keys joined by commas are those keys. */
  lemma RawMatchesOfJoinedKeys(ps: seq<string>, xs: seq<string>)
    requires ValidPrefixes(ps) && AllKeysOf(xs, ps)
    ensures RawMatches(Join(xs, ","), ps) == xs
  {
    var joined := Join(xs, ",");
    assert joined[0..] == joined;
    JoinIsJoinedAt(joined, 0, xs);
    ScanOfJoinedKeys(joined, ps, 0, xs);
    KeySpansSpell(joined, 0, xs);
  }

  /** Distinct upper-case keys of the prefixes, joined by commas, scan back to
      themselves. */
  lemma RescanKeys(ps: seq<string>, xs: seq<string>)
    requires Alternation(ps).Valid() && AllKeysOf(xs, ps) && NoDuplicates(xs)
    requires forall n :: 0 <= n < |xs| ==> UpperStr(xs[n]) == xs[n]
    ensures ExtractIssues(Join(xs, ","), Alternation(ps)) == xs
  {
    RawMatchesOfJoinedKeys(ps, xs);
    assert UpperAll(xs) == xs;
    DedupOfDistinct(xs);
  }

  /** Scanning the keys of a message, joined by commas as the action outputs
      them, gives back the same keys in the same order. */
  lemma ExtractIssuesIdempotent(message: string, pattern: IssuePattern)
    requires pattern.Valid()
    ensures var xs := ExtractIssues(message, pattern);
            ExtractIssues(Join(xs, ","), pattern) == xs
  {
    match pattern
    case NeverMatches =>
    case Alternation(ps) =>
      var xs := ExtractIssues(message, pattern);
      forall x | x in xs ensures exists k :: 0 <= k < |ps| && IsKeyOf(x, ps[k]) {
        ExtractIssuesSound(message, ps, x);
      }
      var found := UpperAll(RawMatches(message, ps));
      forall n | 0 <= n < |xs| ensures UpperStr(xs[n]) == xs[n] {
        assert xs[n] in found;
        var j :| 0 <= j < |found| && found[j] == xs[n];
        UpperStrIdempotent(RawMatches(message, ps)[j]);
      }
      RescanKeys(ps, xs);
  }

  // ---------------------------------------------------------------------
  // scanCommits
  // ---------------------------------------------------------------------

  /** Every key that some commit's message yields. */
  function IssueKeys(commits: seq<Commit>, pattern: IssuePattern): set<string>
    requires pattern.Valid()
    decreases |commits|
  {
    if |commits| == 0 then {}
    else
      var found := ExtractIssues(commits[|commits| - 1].message, pattern);
      IssueKeys(commits[..|commits| - 1], pattern) + set x | x in found
  }

  /** The shas, in commit order, of the commits whose message yields `key`. */
  function ShasMentioning(commits: seq<Commit>, pattern: IssuePattern, key: string): seq<string>
    requires pattern.Valid()
    decreases |commits|
  {
    if |commits| == 0 then []
    else
      var last := commits[|commits| - 1];
      ShasMentioning(commits[..|commits| - 1], pattern, key)
      + if key in ExtractIssues(last.message, pattern) then [last.sha] else []
  }

  /** A key is reported exactly when some commit mentions it, so no reported
      key has an empty list. */
  lemma {:induction false} ShasMentioningNonEmptyIff(commits: seq<Commit>, pattern: IssuePattern, key: string)
    requires pattern.Valid()
    ensures |ShasMentioning(commits, pattern, key)| > 0 <==> key in IssueKeys(commits, pattern)
    decreases |commits|
  {
    if |commits| > 0 {
      ShasMentioningNonEmptyIff(commits[..|commits| - 1], pattern, key);
    }
  }

  /** The shas listed for a key are an order-preserving selection of the
      commits' shas, each commit contributing at most once. */
  lemma {:induction false} ShasMentioningSubsequence(commits: seq<Commit>, pattern: IssuePattern, key: string)
    requires pattern.Valid()
    ensures IsSubsequence(ShasMentioning(commits, pattern, key), Shas(commits))
    ensures |ShasMentioning(commits, pattern, key)| <= |commits|
    decreases |commits|
  {
    if |commits| > 0 {
      var init := commits[..|commits| - 1];
      var last := commits[|commits| - 1];
      ShasMentioningSubsequence(init, pattern, key);
      assert Shas(commits) == Shas(init) + [last.sha];
      var tail: seq<string> := if key in ExtractIssues(last.message, pattern) then [last.sha] else [];
      SubsequenceAppend(ShasMentioning(init, pattern, key), Shas(init), tail, [last.sha]);
    }
  }

  function Shas(commits: seq<Commit>): (r: seq<string>)
    ensures |r| == |commits|
    ensures forall i :: 0 <= i < |commits| ==> r[i] == commits[i].sha
  {
    seq(|commits|, i requires 0 <= i < |commits| => commits[i].sha)
  }

  /** `scanCommits(commits, prefixes)`: one pass over the commits; for each key
      a commit's message yields, the commit's sha is appended to that key's
      list, which is created on first sight. */
  method ScanCommits(commits: seq<Commit>, prefixes: seq<string>) returns (issueMap: map<string, seq<string>>)
    requires ValidPrefixes(prefixes)
    ensures issueMap.Keys == IssueKeys(commits, BuildIssuePattern(prefixes))
    ensures forall key :: key in issueMap ==>
              issueMap[key] == ShasMentioning(commits, BuildIssuePattern(prefixes), key)
              && |issueMap[key]| > 0
    ensures |prefixes| == 0 ==> issueMap == map[]
  {
    issueMap := map[];
    var pattern := BuildIssuePattern(prefixes);
    if |prefixes| == 0 {
      assert IssueKeys(commits, pattern) == {} by { IssueKeysNeverMatches(commits); }
      return;
    }
    var i := 0;
    while i < |commits|
      invariant 0 <= i <= |commits|
      invariant issueMap.Keys == IssueKeys(commits[..i], pattern)
      invariant forall key :: key in issueMap ==> issueMap[key] == ShasMentioning(commits[..i], pattern, key)
    {
      var commit := commits[i];
      var issues := ExtractIssues(commit.message, pattern);
      ghost var before := issueMap;
      var j := 0;
      while j < |issues|
        invariant 0 <= j <= |issues|
        invariant issueMap == AppendSha(before, issues[..j], commit.sha)
      {
        var issue := issues[j];
        var existing := if issue in issueMap then issueMap[issue] else [];
        issueMap := issueMap[issue := existing + [commit.sha]];
        AppendShaSnoc(before, issues[..j], issue, commit.sha);
        assert issues[..j + 1] == issues[..j] + [issue];
        j := j + 1;
      }
      assert issues[..j] == issues;
      AppendShaSpec(before, issues, commit.sha);
      ScanStep(commits, i, pattern, before, issueMap);
      i := i + 1;
    }
    assert commits[..i] == commits;
    forall key | key in issueMap ensures |issueMap[key]| > 0 {
      ShasMentioningNonEmptyIff(commits, pattern, key);
    }
  }

  /** The map after appending `sha` to the list of each key of `keys` in turn,
      creating a list for a key not yet present. */
  function AppendSha(m: map<string, seq<string>>, keys: seq<string>, sha: string): map<string, seq<string>>
    decreases |keys|
  {
    if |keys| == 0 then m
    else
      var prev := AppendSha(m, keys[..|keys| - 1], sha);
      var k := keys[|keys| - 1];
      prev[k := (if k in prev then prev[k] else []) + [sha]]
  }

  lemma AppendShaSnoc(m: map<string, seq<string>>, keys: seq<string>, k: string, sha: string)
    ensures var prev := AppendSha(m, keys, sha);
            AppendSha(m, keys + [k], sha) == prev[k := (if k in prev then prev[k] else []) + [sha]]
  {
    assert (keys + [k])[..|keys|] == keys;
  }

  /** With distinct keys, each key's list grows by exactly one `sha`, and no
      other list changes. */
  lemma {:induction false} AppendShaSpec(m: map<string, seq<string>>, keys: seq<string>, sha: string)
    requires NoDuplicates(keys)
    ensures AppendSha(m, keys, sha).Keys == m.Keys + (set x | x in keys)
    ensures forall k :: k in AppendSha(m, keys, sha) ==>
              AppendSha(m, keys, sha)[k] == (if k in m then m[k] else []) + (if k in keys then [sha] else [])
    decreases |keys|
  {
    if |keys| > 0 {
      var init := keys[..|keys| - 1];
      assert keys == init + [keys[|keys| - 1]];
      AppendShaSpec(m, init, sha);
    }
  }

  /** One round of the outer loop: folding commit `i`'s keys into the map for
      `commits[..i]` gives the map for `commits[..i + 1]`. */
  lemma ScanStep(commits: seq<Commit>, i: nat, pattern: IssuePattern,
                 before: map<string, seq<string>>, after: map<string, seq<string>>)
    requires pattern.Valid() && i < |commits|
    requires before.Keys == IssueKeys(commits[..i], pattern)
    requires forall key :: key in before ==> before[key] == ShasMentioning(commits[..i], pattern, key)
    requires var issues := ExtractIssues(commits[i].message, pattern);
             && after.Keys == before.Keys + (set x | x in issues)
             && forall key :: key in after ==>
                  after[key] == (if key in before then before[key] else [])
                                + (if key in issues then [commits[i].sha] else [])
    ensures after.Keys == IssueKeys(commits[..i + 1], pattern)
    ensures forall key :: key in after ==> after[key] == ShasMentioning(commits[..i + 1], pattern, key)
  {
    var next := commits[..i + 1];
    assert next[..|next| - 1] == commits[..i];
    assert next[|next| - 1] == commits[i];
    var issues := ExtractIssues(commits[i].message, pattern);
    assert IssueKeys(next, pattern) == IssueKeys(commits[..i], pattern) + (set x | x in issues);
    forall key | key in after ensures after[key] == ShasMentioning(next, pattern, key) {
      assert ShasMentioning(next, pattern, key)
          == ShasMentioning(commits[..i], pattern, key) + (if key in issues then [commits[i].sha] else []);
      if key !in before {
        ShasMentioningNonEmptyIff(commits[..i], pattern, key);
      }
    }
  }

  lemma {:induction false} IssueKeysNeverMatches(commits: seq<Commit>)
    ensures IssueKeys(commits, NeverMatches) == {}
    decreases |commits|
  {
    if |commits| > 0 { IssueKeysNeverMatches(commits[..|commits| - 1]); }
  }

  // ---------------------------------------------------------------------
  // Worked cases
  // ---------------------------------------------------------------------

  /** There is no word boundary: the `PROJ` inside `NOTPROJ` matches, and the
      digit run stops at the first non-digit. */
  lemma NoWordBoundaryExample()
    ensures ExtractIssues("NOTPROJ-12x", Alternation(["PROJ"])) == ["PROJ-12"]
  {
    var msg := "NOTPROJ-12x";
    var ps := ["PROJ"];
    NoWordBoundaryMatches();
    assert MatchSpans(msg, ps, 10) == [];
    assert MatchSpans(msg, ps, 0) == [Span(3, 10)];
    assert msg[3..10] == "PROJ-12";
    assert RawMatches(msg, ps) == ["PROJ-12"];
    assert UpperStr("PROJ-12") == "PROJ-12";
    assert UpperAll(["PROJ-12"]) == ["PROJ-12"];
  }

  lemma NoWordBoundaryMatches()
    ensures MatchAt("NOTPROJ-12x", 0, ["PROJ"]) == None
    ensures MatchAt("NOTPROJ-12x", 1, ["PROJ"]) == None
    ensures MatchAt("NOTPROJ-12x", 2, ["PROJ"]) == None
    ensures MatchAt("NOTPROJ-12x", 3, ["PROJ"]) == Some(10)
    ensures MatchAt("NOTPROJ-12x", 10, ["PROJ"]) == None
  {
    var msg := "NOTPROJ-12x";
    assert UpperStr(msg[0..4])[0] == 'N';
    assert UpperStr(msg[1..5])[0] == 'O';
    assert UpperStr(msg[2..6])[0] == 'T';
    assert msg[3..7] == "PROJ";
    assert UpperStr("PROJ") == "PROJ";
    assert DigitRunEnd(msg, 8) == 10;
  }

  /** Matches differing only in case are one key. */
  lemma CaseDedupExample()
    ensures ExtractIssues("ab-7 AB-7", Alternation(["Ab"])) == ["AB-7"]
  {
    CaseDedupRaw();
    CaseDedupUpper();
    CaseDedupDedup();
  }

  lemma CaseDedupRaw()
    ensures RawMatches("ab-7 AB-7", ["Ab"]) == ["ab-7", "AB-7"]
  {
    CaseDedupSpans();
    RawMatchesOfTwoSpans("ab-7 AB-7", ["Ab"], 0, 4, 5, 9);
    CaseDedupSlices();
  }

  lemma CaseDedupSlices()
    ensures "ab-7 AB-7"[0..4] == "ab-7" && "ab-7 AB-7"[5..9] == "AB-7"
  {
  }

  lemma CaseDedupUpper()
    ensures UpperAll(["ab-7", "AB-7"]) == ["AB-7", "AB-7"]
  {
    assert UpperStr("ab-7") == "AB-7";
    assert UpperStr("AB-7") == "AB-7";
  }

  lemma CaseDedupDedup()
    ensures Dedup(["AB-7", "AB-7"]) == ["AB-7"]
  {
    assert ["AB-7", "AB-7"][..1] == ["AB-7"];
  }

  lemma RawMatchesOfTwoSpans(msg: string, ps: seq<string>, a: nat, b: nat, c: nat, d: nat)
    requires MatchSpans(msg, ps, 0) == [Span(a, b), Span(c, d)]
    ensures a <= b <= |msg| && c <= d <= |msg|
    ensures RawMatches(msg, ps) == [msg[a..b], msg[c..d]]
  {
    var spans := MatchSpans(msg, ps, 0);
    assert spans[0] == Span(a, b) && spans[1] == Span(c, d);
    assert MatchAt(msg, spans[0].start, ps) == Some(spans[0].end);
    assert MatchAt(msg, spans[1].start, ps) == Some(spans[1].end);
  }

  lemma CaseDedupSpans()
    ensures MatchSpans("ab-7 AB-7", ["Ab"], 0) == [Span(0, 4), Span(5, 9)]
  {
    var msg := "ab-7 AB-7";
    assert UpperStr("Ab") == "AB";
    assert UpperStr(msg[0..2]) == "AB";
    assert DigitRunEnd(msg, 3) == 4;
    assert UpperStr(msg[5..7]) == "AB";
    assert DigitRunEnd(msg, 8) == 9;
    assert MatchAt(msg, 0, ["Ab"]) == Some(4);
    assert MatchAt(msg, 4, ["Ab"]) == None;
    assert MatchAt(msg, 5, ["Ab"]) == Some(9);
  }
}
