/** `get_api_endpoint` (gh-pr-notify.py:40-46): the repository URL is
    matched against `^https://github.com/([^/]+)/([^/]+)` and rebuilt as
    the API base URL. The regex dot in "github.com" matches any character
    but a newline, `[^/]` matches any character but a slash (a newline
    included), and nothing is required after the repository segment. */
module Endpoint {
  import opened Wrappers

  const WebPrefix: string := "https://github.com/"
  const ApiPrefix: string := "https://api.github.com/repos/"
  const ErrorPrefix: string := "Failed to parse Github repo URL: "

  predicate SlashFree(t: string) {
    forall i :: 0 <= i < |t| ==> t[i] != '/'
  }

  /** The first 19 characters match `https://github.com/`, where the dot
      stands for any character other than a newline. */
  predicate HostMatches(s: string) {
    |s| >= |WebPrefix|
    && s[..14] == WebPrefix[..14]
    && s[14] != '\n'
    && s[15..19] == WebPrefix[15..19]
  }

  /** The end of the slash-free run that starts at `i`. */
  function SegmentEnd(s: string, i: nat): (j: nat)
    requires i <= |s|
    ensures i <= j <= |s|
    ensures SlashFree(s[i..j])
    ensures j < |s| ==> s[j] == '/'
    decreases |s| - i
  {
    if i < |s| && s[i] != '/' then SegmentEnd(s, i + 1) else i
  }

  function ApiUrl(org: string, repo: string): string {
    ApiPrefix + org + "/" + repo
  }

  /** The regex matches `s` with `org` and `repo` as its two groups: the
      groups are non-empty runs without a slash, separated by one slash,
      right after the host, and `repo` runs as far as the greedy `[^/]+`
      takes it (to the end of `s` or to the next slash). */
  ghost predicate RegexMatch(s: string, org: string, repo: string) {
    var o := |WebPrefix|;
    var r := o + |org| + 1;
    && HostMatches(s)
    && |org| > 0 && |repo| > 0 && SlashFree(org) && SlashFree(repo)
    && r + |repo| <= |s|
    && s[o..o + |org|] == org
    && s[o + |org|] == '/'
    && s[r..r + |repo|] == repo
    && (r + |repo| == |s| || s[r + |repo|] == '/')
  }

  /** The API base URL for the repository, or the exception's message when
      the URL does not match. */
  function ParseEndpoint(s: string): (r: Result<string, string>)
    ensures r.Ok? ==> exists org, repo :: RegexMatch(s, org, repo) && r.value == ApiUrl(org, repo)
    ensures r.Err? ==> r.error == ErrorPrefix + s
  {
    if !HostMatches(s) then Err(ErrorPrefix + s)
    else
      var o := |WebPrefix|;
      var e1 := SegmentEnd(s, o);
      if e1 == o || e1 == |s| then Err(ErrorPrefix + s)
      else
        var e2 := SegmentEnd(s, e1 + 1);
        if e2 == e1 + 1 then Err(ErrorPrefix + s)
        else
          assert RegexMatch(s, s[o..e1], s[e1 + 1..e2]);
          Ok(ApiUrl(s[o..e1], s[e1 + 1..e2]))
  }

  lemma SegmentEndMaximal(s: string, i: nat, t: string)
    requires i + |t| <= |s| && s[i..i + |t|] == t && SlashFree(t)
    requires i + |t| == |s| || s[i + |t|] == '/'
    ensures SegmentEnd(s, i) == i + |t|
    decreases |t|
  {
    if |t| > 0 {
      assert s[i] == t[0];
      assert s[i + 1..i + |t|] == t[1..];
      SegmentEndMaximal(s, i + 1, t[1..]);
    }
  }

  /** Every URL the regex matches parses, to the endpoint built from its
      two groups; with the soundness half in ParseEndpoint's contract,
      parsing fails exactly on the URLs the regex does not match. */
  lemma ParseEndpointComplete(s: string, org: string, repo: string)
    requires RegexMatch(s, org, repo)
    ensures ParseEndpoint(s) == Ok(ApiUrl(org, repo))
  {
    var o := |WebPrefix|;
    SegmentEndMaximal(s, o, org);
    SegmentEndMaximal(s, o + |org| + 1, repo);
  }

  /** Parsing fails exactly when the regex does not match. */
  lemma ParseEndpointFails(s: string)
    ensures ParseEndpoint(s).Err? <==> forall org, repo :: !RegexMatch(s, org, repo)
  {
    if exists org, repo :: RegexMatch(s, org, repo) {
      var org, repo :| RegexMatch(s, org, repo);
      ParseEndpointComplete(s, org, repo);
    }
  }

  /** A URL without a repository segment does not parse. */
  lemma MissingRepoFails()
    ensures ParseEndpoint("https://github.com/org").Err?
    ensures ParseEndpoint("https://github.com/org/").Err?
  {
    var a, b := "https://github.com/org", "https://github.com/org/";
    assert HostMatches(a) && HostMatches(b);
    assert SegmentEnd(a, 19) == |a| by { SegmentEndMaximal(a, 19, "org"); }
    assert SegmentEnd(b, 19) == 22 by { SegmentEndMaximal(b, 19, "org"); }
    assert SegmentEnd(b, 23) == 23;
  }

  /** The unescaped dot in the pattern accepts any character (but a
      newline) between "github" and "com". */
  lemma LooseHost()
    ensures ParseEndpoint("https://githubXcom/o/r") == Ok("https://api.github.com/repos/o/r")
  {
    var a := "https://githubXcom/o/r";
    assert a[..14] == WebPrefix[..14] && a[14] == 'X' && a[15..19] == WebPrefix[15..19];
    assert a[19..20] == "o" && a[20] == '/' && a[21..22] == "r";
    assert ApiUrl("o", "r") == "https://api.github.com/repos/o/r";
    ParseEndpointComplete(a, "o", "r");
  }

  /** The pattern is not anchored at the end: a pull request's own web
      URL names its repository. */
  lemma LooseSuffix()
    ensures ParseEndpoint("https://github.com/o/r/pulls/7") == Ok("https://api.github.com/repos/o/r")
  {
    var b := "https://github.com/o/r/pulls/7";
    assert b[..19] == WebPrefix;
    assert b[19..20] == "o" && b[20] == '/' && b[21..22] == "r" && b[22] == '/';
    assert ApiUrl("o", "r") == "https://api.github.com/repos/o/r";
    ParseEndpointComplete(b, "o", "r");
  }
}
