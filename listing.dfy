/** The report printed at the end of a run (gh-pr-notify.py:154-157): the
    matched URLs, sorted as Python sorts strings, each on its own line
    after "- ". */
module Listing {

  /** Python's `<` on strings: code point by code point, and a proper
      prefix before the longer string. */
  predicate Less(a: string, b: string)
    decreases |a|
  {
    if a == [] then b != []
    else b != [] && (a[0] < b[0] || (a[0] == b[0] && Less(a[1..], b[1..])))
  }

  lemma {:induction false} LessIrreflexive(a: string)
    ensures !Less(a, a)
    decreases |a|
  {
    if a != [] {
      LessIrreflexive(a[1..]);
    }
  }

  lemma {:induction false} LessTransitive(a: string, b: string, c: string)
    requires Less(a, b) && Less(b, c)
    ensures Less(a, c)
    decreases |a|
  {
    if a != [] && a[0] == b[0] == c[0] {
      LessTransitive(a[1..], b[1..], c[1..]);
    }
  }

  lemma {:induction false} LessTotal(a: string, b: string)
    ensures a == b || Less(a, b) || Less(b, a)
    decreases |a|
  {
    if a != [] && b != [] && a[0] == b[0] {
      LessTotal(a[1..], b[1..]);
      if a[1..] == b[1..] {
        assert a == [a[0]] + a[1..] && b == [b[0]] + b[1..];
      }
    }
  }

  predicate StrictlySorted(s: seq<string>) {
    forall i, j :: 0 <= i < j < |s| ==> Less(s[i], s[j])
  }

  /** A sorted listing has no line twice. */
  lemma SortedDistinct(s: seq<string>)
    requires StrictlySorted(s)
    ensures forall i, j :: 0 <= i < j < |s| ==> s[i] != s[j]
  {
    forall i, j | 0 <= i < j < |s|
      ensures s[i] != s[j]
    {
      LessIrreflexive(s[i]);
    }
  }

  /** Every finite non-empty set of strings has a least element. */
  lemma {:induction false} Minimum(s: set<string>) returns (m: string)
    requires s != {}
    ensures m in s && forall y :: y in s && y != m ==> Less(m, y)
    decreases |s|
  {
    var x :| x in s;
    var rest := s - {x};
    if rest == {} {
      m := x;
      forall y | y in s
        ensures y == x
      {
        assert y !in rest;
      }
    } else {
      var r := Minimum(rest);
      LessTotal(x, r);
      if Less(x, r) {
        m := x;
        forall y | y in s && y != x
          ensures Less(x, y)
        {
          if y != r {
            LessTransitive(x, r, y);
          }
        }
      } else {
        m := r;
      }
    }
  }

  /** `sorted(matched_prs)`: the elements of the set in increasing order. */
  method SortUrls(s: set<string>) returns (r: seq<string>)
    ensures StrictlySorted(r)
    ensures forall u :: u in r <==> u in s
  {
    var rem := s;
    r := [];
    while rem != {}
      invariant rem <= s
      invariant forall u :: u in r <==> u in s && u !in rem
      invariant StrictlySorted(r)
      invariant forall i, y :: 0 <= i < |r| && y in rem ==> Less(r[i], y)
      decreases rem
    {
      ghost var least := Minimum(rem);
      var m :| m in rem && forall y :: y in rem && y != m ==> Less(m, y);
      r := r + [m];
      rem := rem - {m};
    }
  }

  /** Kept apart from SortedUnique: there, with `a` empty, `b[0]` would
      be checked in a branch its hypotheses already rule out. */
  lemma HeadIsMember(b: seq<string>)
    ensures b != [] ==> b[0] in b
  {
  }

  /** A set has only one sorted listing. */
  lemma {:induction false} SortedUnique(a: seq<string>, b: seq<string>)
    requires StrictlySorted(a) && StrictlySorted(b)
    requires forall u :: u in a <==> u in b
    ensures a == b
    decreases |a|
  {
    if a != [] {
      assert b != [] by { assert a[0] in b; }
      if a[0] != b[0] {
        assert a[0] in b;
        var j :| 0 <= j < |b| && b[j] == a[0];
        assert b[0] in a;
        var i :| 0 <= i < |a| && a[i] == b[0];
        LessTransitive(a[0], b[0], a[0]);
        LessIrreflexive(a[0]);
        assert false;
      }
      SortedDistinct(a);
      SortedDistinct(b);
      forall u
        ensures u in a[1..] <==> u in b[1..]
      {
        if u in a[1..] {
          var i :| 1 <= i < |a| && a[i] == u;
          assert u != a[0] && u in a;
          assert u in b;
          var j :| 0 <= j < |b| && b[j] == u;
        }
        if u in b[1..] {
          var j :| 1 <= j < |b| && b[j] == u;
          assert u != b[0] && u in b;
          assert u in a;
          var i :| 0 <= i < |a| && a[i] == u;
        }
      }
      SortedUnique(a[1..], b[1..]);
      assert a == [a[0]] + a[1..] && b == [b[0]] + b[1..];
    } else {
      HeadIsMember(b);
    }
  }

  /** `sep.join(xs)`. */
  function Join(sep: string, xs: seq<string>): string
    decreases |xs|
  {
    if xs == [] then ""
    else if |xs| == 1 then xs[0]
    else xs[0] + sep + Join(sep, xs[1..])
  }

  /** What `print("-", "\n- ".join(urls))` writes, and nothing when no
      pull request matched. */
  function Report(urls: seq<string>): string {
    if urls == [] then "" else "- " + Join("\n- ", urls) + "\n"
  }

  /** One line "- <url>" per URL. */
  function Lines(urls: seq<string>): string
    decreases |urls|
  {
    if urls == [] then "" else "- " + urls[0] + "\n" + Lines(urls[1..])
  }

  /** The printed report is one line "- <url>" per URL, in order. */
  lemma {:induction false} ReportIsLines(urls: seq<string>)
    ensures Report(urls) == Lines(urls)
    decreases |urls|
  {
    if |urls| >= 2 {
      var u, rest := urls[0], urls[1..];
      ReportIsLines(rest);
      calc {
        Report(urls);
        "- " + (u + "\n- " + Join("\n- ", rest)) + "\n";
        ("- " + u + "\n") + ("- " + Join("\n- ", rest) + "\n");
        ("- " + u + "\n") + Report(rest);
        ("- " + u + "\n") + Lines(rest);
      }
    }
  }
}
