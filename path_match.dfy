/** `get_path_matcher` (gh-pr-notify.py:98-105): a changed file matches
    when one of the configured strings is a plain prefix of its path,
    character by character, with no notion of path segments. */
module PathMatch {

  /** Python's `path.startswith(prefix)`. */
  predicate StartsWith(path: string, prefix: string) {
    |prefix| <= |path| && path[..|prefix|] == prefix
  }

  predicate MatchesAny(prefixes: seq<string>, path: string) {
    exists i :: 0 <= i < |prefixes| && StartsWith(path, prefixes[i])
  }

  /** The matcher: tries the candidates in order and stops at the first
      one that is a prefix of the path. */
  method Matcher(prefixes: seq<string>, path: string) returns (m: bool)
    ensures m <==> MatchesAny(prefixes, path)
  {
    var k := 0;
    while k < |prefixes|
      invariant 0 <= k <= |prefixes|
      invariant forall i :: 0 <= i < k ==> !StartsWith(path, prefixes[i])
    {
      if StartsWith(path, prefixes[k]) {
        return true;
      }
      k := k + 1;
    }
    return false;
  }

  /** An empty candidate matches every path. */
  lemma EmptyCandidateMatchesAll(prefixes: seq<string>, path: string)
    requires "" in prefixes
    ensures MatchesAny(prefixes, path)
  {
    var i :| 0 <= i < |prefixes| && prefixes[i] == "";
    assert StartsWith(path, prefixes[i]);
  }

  /** Matching is by characters, not by path segments: "src" matches
      "src2/x". */
  lemma NotSegmentAware()
    ensures MatchesAny(["src"], "src2/x")
  {
    assert StartsWith("src2/x", ["src"][0]);
  }

  /** The result depends only on which candidates are configured, not on
      their order or repetition. */
  lemma OrderIndependent(a: seq<string>, b: seq<string>, path: string)
    requires forall p :: p in a <==> p in b
    ensures MatchesAny(a, path) <==> MatchesAny(b, path)
  {
    if MatchesAny(a, path) {
      var i :| 0 <= i < |a| && StartsWith(path, a[i]);
      assert a[i] in b;
      var j :| 0 <= j < |b| && b[j] == a[i];
    }
    if MatchesAny(b, path) {
      var j :| 0 <= j < |b| && StartsWith(path, b[j]);
      assert b[j] in a;
      var i :| 0 <= i < |a| && a[i] == b[j];
    }
  }
}
