/** The two API reads (gh-pr-notify.py:83-96), with the API's JSON replaced
    by the records it is decoded into: `get_prs` keeps the pull requests
    above the watermark, `get_pr_files` lists a pull request's files. */
module Pulls {
  import opened Wrappers
  import opened Decimal

  /** An element of the `pulls` response: its `url` and `html_url`. */
  datatype PullRecord = PullRecord(url: string, htmlUrl: string)
  /** An element of the `pulls/<n>/files` response: its `filename`. */
  datatype FileRecord = FileRecord(filename: string)
  /** A listed pull request: its number and its `html_url`. */
  datatype Pr = Pr(number: nat, url: string)

  /** POSIX `os.path.basename`: what follows the last slash. */
  function Basename(p: string): string
  {
    if p == [] || p[|p| - 1] == '/' then []
    else Basename(p[..|p| - 1]) + [p[|p| - 1]]
  }

  /** The basename is the whole slash-free tail of the path. */
  lemma {:induction false} BasenameIsLastSegment(p: string)
    ensures var r := Basename(p);
      && |r| <= |p| && r == p[|p| - |r|..]
      && (forall i :: 0 <= i < |r| ==> r[i] != '/')
      && (|r| < |p| ==> p[|p| - |r| - 1] == '/')
  {
    if p != [] && p[|p| - 1] != '/' {
      BasenameIsLastSegment(p[..|p| - 1]);
    }
  }

  /** The basename of `dir/name` is `name`, when `name` has no slash. */
  lemma {:induction false} BasenameAfterSlash(dir: string, name: string)
    requires forall i :: 0 <= i < |name| ==> name[i] != '/'
    ensures Basename(dir + "/" + name) == name
    decreases |name|
  {
    var p := dir + "/" + name;
    if name != [] {
      assert p[..|p| - 1] == dir + "/" + name[..|name| - 1];
      BasenameAfterSlash(dir, name[..|name| - 1]);
      assert name == name[..|name| - 1] + [name[|name| - 1]];
    }
  }

  /** `int(os.path.basename(url))`, for a basename of decimal digits. */
  function PrNumber(url: string): Option<nat> {
    var b := Basename(url);
    if |b| > 0 && AllDigits(b) then Some(Value(b)) else None
  }

  /** A URL ending in "/<n>" has number n. */
  lemma PrNumberOfUrl(dir: string, n: nat)
    ensures PrNumber(dir + "/" + Show(n)) == Some(n)
  {
    var d := Show(n);
    assert forall i :: 0 <= i < |d| ==> d[i] != '/' by {
      assert forall i :: 0 <= i < |d| ==> IsDigit(d[i]);
    }
    BasenameAfterSlash(dir, d);
    ValueOfShow(n);
  }

  predicate Numbered(recs: seq<PullRecord>) {
    forall i :: 0 <= i < |recs| ==> PrNumber(recs[i].url).Some?
  }

  /** `rec` is the API record that `p` was taken from. */
  predicate IsEntryOf(rec: PullRecord, p: Pr) {
    PrNumber(rec.url) == Some(p.number) && rec.htmlUrl == p.url
  }

  function Entry(rec: PullRecord): (p: Pr)
    requires PrNumber(rec.url).Some?
    ensures IsEntryOf(rec, p)
  {
    Pr(PrNumber(rec.url).value, rec.htmlUrl)
  }

  /** Every record as a (number, url) pair, in API order. */
  function Entries(recs: seq<PullRecord>): (r: seq<Pr>)
    requires Numbered(recs)
    ensures |r| == |recs|
    ensures forall i :: 0 <= i < |recs| ==> IsEntryOf(recs[i], r[i])
  {
    if recs == [] then []
    else Entries(recs[..|recs| - 1]) + [Entry(recs[|recs| - 1])]
  }

  /** The pull requests above the watermark, in API order. */
  function Newer(recs: seq<PullRecord>, last: int): (r: seq<Pr>)
    requires Numbered(recs)
    ensures |r| <= |recs|
    ensures forall i :: 0 <= i < |r| ==> r[i].number > last
  {
    if recs == [] then []
    else
      var init := Newer(recs[..|recs| - 1], last);
      var e := Entry(recs[|recs| - 1]);
      if e.number <= last then init else init + [e]
  }

  /** One more record: `Newer` of the longer prefix extends that of the shorter. */
  lemma NewerExtend(recs: seq<PullRecord>, k: nat, last: int)
    requires k < |recs| && Numbered(recs[..k]) && PrNumber(recs[k].url).Some?
    ensures Numbered(recs[..k + 1])
    ensures var e := Entry(recs[k]);
      Newer(recs[..k + 1], last)
        == if e.number <= last then Newer(recs[..k], last) else Newer(recs[..k], last) + [e]
  {
    var s := recs[..k + 1];
    assert s[..k] == recs[..k];
    assert s[k] == recs[k];
    assert Numbered(s) by {
      forall i | 0 <= i < |s| ensures PrNumber(s[i].url).Some? {
        if i < k { assert s[i] == recs[..k][i]; }
      }
    }
  }

  /** Record `i` is the first whose URL does not end in a number: the one
      `int(...)` raises at. */
  predicate FirstUnnumbered(recs: seq<PullRecord>, i: nat)
    requires i < |recs|
  {
    PrNumber(recs[i].url).None? && forall j :: 0 <= j < i ==> PrNumber(recs[j].url).Some?
  }

  /** `get_prs`: parses every record's number, raising (here: returning
      the offending URL) at the first one that is not a number, and keeps
      in order the pull requests numbered above `last`. */
  method GetPrs(recs: seq<PullRecord>, last: int) returns (r: Result<seq<Pr>, string>)
    ensures r.Ok? <==> Numbered(recs)
    ensures r.Ok? ==> r.value == Newer(recs, last)
    ensures r.Err? ==> exists i :: 0 <= i < |recs| && r.error == recs[i].url && FirstUnnumbered(recs, i)
  {
    var prs := [];
    var k := 0;
    while k < |recs|
      invariant 0 <= k <= |recs|
      invariant Numbered(recs[..k])
      invariant prs == Newer(recs[..k], last)
    {
      var n := PrNumber(recs[k].url);
      if n.None? {
        assert FirstUnnumbered(recs, k) by {
          forall j | 0 <= j < k ensures PrNumber(recs[j].url).Some? {
            assert recs[j] == recs[..k][j];
          }
        }
        return Err(recs[k].url);
      }
      NewerExtend(recs, k, last);
      if n.value <= last {
        k := k + 1;
        continue;
      }
      prs := prs + [Pr(n.value, recs[k].htmlUrl)];
      k := k + 1;
    }
    assert recs[..k] == recs;
    return Ok(prs);
  }

  /** `get_pr_files`: the file names, in the order the API lists them. */
  function PrFiles(files: seq<FileRecord>): (r: seq<string>)
    ensures |r| == |files|
    ensures forall i :: 0 <= i < |files| ==> r[i] == files[i].filename
  {
    seq(|files|, i requires 0 <= i < |files| => files[i].filename)
  }

  /** `a` is `b` with some elements left out, the rest in the same order. */
  ghost predicate Subsequence<T>(a: seq<T>, b: seq<T>)
    decreases |b|
  {
    if b == [] then a == []
    else
      (a != [] && a[|a| - 1] == b[|b| - 1] && Subsequence(a[..|a| - 1], b[..|b| - 1]))
      || Subsequence(a, b[..|b| - 1])
  }

  /** A listed pull request is exactly a record numbered above the
      watermark, paired with its `html_url`. */
  lemma {:induction false} NewerMembers(recs: seq<PullRecord>, last: int, p: Pr)
    requires Numbered(recs)
    ensures p in Newer(recs, last) <==> p.number > last && exists i :: 0 <= i < |recs| && IsEntryOf(recs[i], p)
  {
    if recs != [] {
      var k := |recs| - 1;
      var init := recs[..k];
      assert Numbered(init) by {
        forall i | 0 <= i < k ensures PrNumber(init[i].url).Some? {
          assert init[i] == recs[i];
        }
      }
      NewerMembers(init, last, p);
      assert recs[..k + 1] == recs;
      NewerExtend(recs, k, last);
      if p in Newer(recs, last) && p !in Newer(init, last) {
        assert p == Entry(recs[k]);
      }
      if p.number > last && exists i :: 0 <= i < |recs| && IsEntryOf(recs[i], p) {
        var i :| 0 <= i < |recs| && IsEntryOf(recs[i], p);
        if i < k {
          assert IsEntryOf(init[i], p);
        } else {
          assert p == Entry(recs[k]);
        }
      }
    }
  }

  /** The listed pull requests keep the API's order: they are a
      subsequence of all the records. */
  lemma {:induction false} NewerInOrder(recs: seq<PullRecord>, last: int)
    requires Numbered(recs)
    ensures Subsequence(Newer(recs, last), Entries(recs))
  {
    if recs != [] {
      var init := recs[..|recs| - 1];
      NewerInOrder(init, last);
      var n := Newer(recs, last);
      var e := Entries(recs);
      assert e[..|e| - 1] == Entries(init);
      if Entry(recs[|recs| - 1]).number > last {
        assert n[..|n| - 1] == Newer(init, last);
      }
    }
  }

  /** A higher watermark lists a subsequence of what a lower one lists. */
  lemma {:induction false} NewerMonotone(recs: seq<PullRecord>, lo: int, hi: int)
    requires Numbered(recs) && lo <= hi
    ensures Subsequence(Newer(recs, hi), Newer(recs, lo))
  {
    if recs != [] {
      var init := recs[..|recs| - 1];
      NewerMonotone(init, lo, hi);
      var nh, nl := Newer(recs, hi), Newer(recs, lo);
      var e := Entry(recs[|recs| - 1]);
      if e.number > hi {
        assert nh[..|nh| - 1] == Newer(init, hi);
        assert nl[..|nl| - 1] == Newer(init, lo);
      } else if e.number > lo {
        assert nl[..|nl| - 1] == Newer(init, lo);
        assert nh == Newer(init, hi);
      }
    }
  }

  /** The pairs numbered above `last`, filtered front to back: each pair
      is kept once for each time it occurs. */
  function Above(prs: seq<Pr>, last: int): seq<Pr>
    decreases |prs|
  {
    if prs == [] then []
    else (if prs[0].number > last then [prs[0]] else []) + Above(prs[1..], last)
  }

  /** Filtering distributes over appending one more pair. */
  lemma {:induction false} AboveSnoc(prs: seq<Pr>, p: Pr, last: int)
    ensures Above(prs + [p], last) == Above(prs, last) + (if p.number > last then [p] else [])
    decreases |prs|
  {
    if prs != [] {
      assert (prs + [p])[1..] == prs[1..] + [p];
      AboveSnoc(prs[1..], p, last);
    } else {
      assert [p][1..] == [];
    }
  }

  /** `get_prs` lists exactly the filter of all records' pairs, with the
      same multiplicity and order. */
  lemma {:induction false} NewerIsAbove(recs: seq<PullRecord>, last: int)
    requires Numbered(recs)
    ensures Newer(recs, last) == Above(Entries(recs), last)
    decreases |recs|
  {
    if recs != [] {
      var k := |recs| - 1;
      var init := recs[..k];
      assert Numbered(init) by {
        forall i | 0 <= i < k ensures PrNumber(init[i].url).Some? {
          assert init[i] == recs[i];
        }
      }
      NewerIsAbove(init, last);
      var e := Entry(recs[k]);
      assert Entries(recs) == Entries(init) + [e];
      AboveSnoc(Entries(init), e, last);
      assert Newer(recs, last) == Newer(init, last) + (if e.number > last then [e] else []);
    }
  }

  /** The number of a record whose URL ends in a number. */
  function Num(rec: PullRecord): nat
    requires PrNumber(rec.url).Some?
  {
    PrNumber(rec.url).value
  }

  /** The API lists pull requests newest first: numbers strictly decrease
      and are positive, as GitHub numbers them from 1. */
  predicate NewestFirst(recs: seq<PullRecord>)
    requires Numbered(recs)
  {
    && (forall i :: 0 <= i < |recs| ==> Num(recs[i]) > 0)
    && (forall i, j :: 0 <= i < j < |recs| ==> Num(recs[i]) > Num(recs[j]))
  }

  /** When the first record is above the watermark, it is listed first. */
  lemma {:induction false} NewerHead(recs: seq<PullRecord>, last: int)
    requires Numbered(recs) && recs != [] && Num(recs[0]) > last
    ensures Newer(recs, last) != [] && Newer(recs, last)[0] == Entry(recs[0])
    decreases |recs|
  {
    if |recs| > 1 {
      var init := recs[..|recs| - 1];
      assert init[0] == recs[0];
      NewerHead(init, last);
    }
  }

  /** Nothing is listed when no record is above the watermark. */
  lemma {:induction false} NewerEmpty(recs: seq<PullRecord>, last: int)
    requires Numbered(recs)
    requires forall i :: 0 <= i < |recs| ==> Num(recs[i]) <= last
    ensures Newer(recs, last) == []
    decreases |recs|
  {
    if recs != [] {
      NewerEmpty(recs[..|recs| - 1], last);
    }
  }
}
