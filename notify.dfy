/** One run of the script (gh-pr-notify.py:132-162): the starting
    watermark, the scan of the listed pull requests and their files, the
    printed report and the write-back of the newest pull request seen.
    The API is given as its responses: the `pulls` records, and
    `filesOf(n)` for the files of pull request n. */
module Notify {
  import opened Wrappers
  import opened StateStore
  import opened Endpoint
  import opened Pulls
  import opened PathMatch
  import opened Listing

  /** The exceptions that abort a run before anything is printed. */
  datatype Failure =
    | NotAscii(repo: string)       // `encode('ascii')` in get_state_filename
    | BadRepoUrl(message: string)  // get_api_endpoint
    | BadPrNumber(url: string)     // `int(...)` in get_prs

  /** What a completed run leaves behind: the sorted URLs it reports, the
      text on standard output, and the filesystem. */
  datatype Outcome = Outcome(listed: seq<string>, stdout: string, fs: map<string, string>)

  /** Python's truth value of `newest_pr`: None and 0 are false. */
  predicate Truthy(newest: Option<nat>) {
    newest.Some? && newest.value != 0
  }

  /** `--last-pr` when it is given and not zero, else the stored value. */
  function StartWatermark(cliLastPr: Option<int>, fs: map<string, string>, path: string): int {
    if cliLastPr.Some? && cliLastPr.value != 0 then cliLastPr.value else ReadLastPr(fs, path)
  }

  predicate HasMatchingFile(files: seq<string>, prefixes: seq<string>) {
    exists i :: 0 <= i < |files| && MatchesAny(prefixes, files[i])
  }

  /** The URLs of the pull requests in `prs` that touch a matching file. */
  function Matched(prs: seq<Pr>, filesOf: nat -> seq<FileRecord>, prefixes: seq<string>): set<string>
    decreases |prs|
  {
    if prs == [] then {}
    else
      var p := prs[|prs| - 1];
      Matched(prs[..|prs| - 1], filesOf, prefixes)
      + (if HasMatchingFile(PrFiles(filesOf(p.number)), prefixes) then {p.url} else {})
  }

  /** `newest_pr` after scanning `prs`: it is set whenever it is still
      falsy, so it ends as the first non-zero number (None for no pull
      requests). */
  function NewestSeen(prs: seq<Pr>): Option<nat>
    decreases |prs|
  {
    if prs == [] then None
    else
      var before := NewestSeen(prs[..|prs| - 1]);
      if Truthy(before) then before else Some(prs[|prs| - 1].number)
  }

  /** Lines 161-162: the newest pull request is stored when it is truthy
      and differs from the starting watermark. */
  function NextState(fs: map<string, string>, path: string, start: int, newest: Option<nat>): map<string, string> {
    if Truthy(newest) && newest.value != start then WriteLastPr(fs, path, newest.value) else fs
  }

  /** Lines 142-152: every listed pull request's files are scanned up to
      the first match, collecting the matched URLs and the newest number. */
  method Scan(prs: seq<Pr>, filesOf: nat -> seq<FileRecord>, prefixes: seq<string>)
    returns (matched: set<string>, newest: Option<nat>)
    ensures matched == Matched(prs, filesOf, prefixes)
    ensures newest == NewestSeen(prs)
  {
    matched := {};
    newest := None;
    var k := 0;
    while k < |prs|
      invariant 0 <= k <= |prs|
      invariant matched == Matched(prs[..k], filesOf, prefixes)
      invariant newest == NewestSeen(prs[..k])
    {
      assert prs[..k + 1][..k] == prs[..k];
      var pr := prs[k];
      if !Truthy(newest) {
        newest := Some(pr.number);
      }
      var files := PrFiles(filesOf(pr.number));
      var j := 0;
      while j < |files|
        invariant 0 <= j <= |files|
        invariant matched == Matched(prs[..k], filesOf, prefixes)
        invariant forall t :: 0 <= t < j ==> !MatchesAny(prefixes, files[t])
      {
        var m := Matcher(prefixes, files[j]);
        if m {
          matched := matched + {pr.url};
          break;
        }
        j := j + 1;
      }
      k := k + 1;
    }
    assert prs[..k] == prs;
  }

  /** The main block. Failures come in the order the script meets them:
      the state file name, then the repository URL, then the PR numbers. */
  method Run(repo: string, stateDir: string, cliLastPr: Option<int>, fs: map<string, string>,
             pulls: seq<PullRecord>, filesOf: nat -> seq<FileRecord>, prefixes: seq<string>)
    returns (r: Result<Outcome, Failure>)
    ensures !IsAscii(repo) ==> r == Err(NotAscii(repo))
    ensures IsAscii(repo) && ParseEndpoint(repo).Err? ==> r == Err(BadRepoUrl(ParseEndpoint(repo).error))
    ensures r.Ok? <==> IsAscii(repo) && ParseEndpoint(repo).Ok? && Numbered(pulls)
    ensures IsAscii(repo) && ParseEndpoint(repo).Ok? && !Numbered(pulls) ==>
      r.Err? && r.error.BadPrNumber?
      && exists i :: 0 <= i < |pulls| && pulls[i].url == r.error.url && FirstUnnumbered(pulls, i)
    ensures r.Ok? ==>
      var path := StateFilename(stateDir, repo).value;
      var start := StartWatermark(cliLastPr, fs, path);
      var prs := Newer(pulls, start);
      && StrictlySorted(r.value.listed)
      && (forall u :: u in r.value.listed <==> u in Matched(prs, filesOf, prefixes))
      && r.value.stdout == Report(r.value.listed)
      && r.value.fs == NextState(fs, path, start, NewestSeen(prs))
  {
    var path := StateFilename(stateDir, repo);
    if path.None? {
      return Err(NotAscii(repo));
    }
    var lastPr := StartWatermark(cliLastPr, fs, path.value);
    var endpoint := ParseEndpoint(repo);
    if endpoint.Err? {
      return Err(BadRepoUrl(endpoint.error));
    }
    var listing := GetPrs(pulls, lastPr);
    if listing.Err? {
      return Err(BadPrNumber(listing.error));
    }
    var outcome := Finish(lastPr, listing.value, filesOf, prefixes, fs, path.value);
    return Ok(outcome);
  }

  /** Lines 142-162, once the listing is in: scan it, print the sorted
      matches, and store the newest pull request when it changed. */
  method Finish(lastPr: int, prs: seq<Pr>, filesOf: nat -> seq<FileRecord>, prefixes: seq<string>,
                fs: map<string, string>, path: string)
    returns (o: Outcome)
    ensures StrictlySorted(o.listed)
    ensures forall u :: u in o.listed <==> u in Matched(prs, filesOf, prefixes)
    ensures o.stdout == Report(o.listed)
    ensures o.fs == NextState(fs, path, lastPr, NewestSeen(prs))
  {
    var matched, newest := Scan(prs, filesOf, prefixes);
    var listed := SortUrls(matched);
    var fs' := fs;
    if Truthy(newest) && lastPr != newest.value {
      fs' := WriteLastPr(fs, path, newest.value);
    }
    return Outcome(listed, Report(listed), fs');
  }

  /** A URL is reported exactly when some listed pull request with that
      `html_url` has a matching file. */
  lemma {:induction false} MatchedMembers(prs: seq<Pr>, filesOf: nat -> seq<FileRecord>, prefixes: seq<string>, u: string)
    ensures u in Matched(prs, filesOf, prefixes) <==>
      exists i :: 0 <= i < |prs| && prs[i].url == u && HasMatchingFile(PrFiles(filesOf(prs[i].number)), prefixes)
    decreases |prs|
  {
    if prs != [] {
      var init := prs[..|prs| - 1];
      MatchedMembers(init, filesOf, prefixes, u);
      if exists i :: 0 <= i < |prs| && prs[i].url == u && HasMatchingFile(PrFiles(filesOf(prs[i].number)), prefixes) {
        var i :| 0 <= i < |prs| && prs[i].url == u && HasMatchingFile(PrFiles(filesOf(prs[i].number)), prefixes);
        if i < |init| {
          assert init[i] == prs[i];
        }
      }
    }
  }

  /** The newest pull request seen is the first one with a non-zero
      number; with real (positive) numbers, the first one listed, in API
      order rather than the largest. */
  lemma {:induction false} NewestIsFirstNonZero(prs: seq<Pr>, i: nat)
    requires i < |prs| && prs[i].number != 0
    requires forall j :: 0 <= j < i ==> prs[j].number == 0
    ensures NewestSeen(prs) == Some(prs[i].number)
    decreases |prs|
  {
    var init := prs[..|prs| - 1];
    if i < |prs| - 1 {
      assert forall j :: 0 <= j < i ==> init[j] == prs[j];
      NewestIsFirstNonZero(init, i);
    } else {
      assert forall j :: 0 <= j < |init| ==> init[j].number == 0;
      NewestAllZero(init);
    }
  }

  lemma {:induction false} NewestAllZero(prs: seq<Pr>)
    requires forall j :: 0 <= j < |prs| ==> prs[j].number == 0
    ensures !Truthy(NewestSeen(prs))
    decreases |prs|
  {
    if prs != [] {
      NewestAllZero(prs[..|prs| - 1]);
    }
  }

  /** An empty listing leaves no newest pull request, so no write. */
  lemma NothingListedNothingWritten(fs: map<string, string>, path: string, start: int)
    ensures NewestSeen([]) == None
    ensures NextState(fs, path, start, NewestSeen([])) == fs
  {
  }

  /** A truthy newest value is the number of a listed pull request. */
  lemma {:induction false} NewestIsListed(prs: seq<Pr>)
    requires Truthy(NewestSeen(prs))
    ensures exists i :: 0 <= i < |prs| && prs[i].number == NewestSeen(prs).value
    decreases |prs|
  {
    var init := prs[..|prs| - 1];
    if Truthy(NewestSeen(init)) {
      NewestIsListed(init);
      var i :| 0 <= i < |init| && init[i].number == NewestSeen(init).value;
      assert prs[i] == init[i];
    }
  }

  /** Whatever a run writes is a listed number, so it is above the
      starting watermark; if nothing was listed, nothing is written. */
  lemma PersistedAboveStart(pulls: seq<PullRecord>, start: int, fs: map<string, string>, path: string)
    requires Numbered(pulls)
    ensures var prs := Newer(pulls, start);
      var fs' := NextState(fs, path, start, NewestSeen(prs));
      && (prs == [] ==> fs' == fs)
      && (Truthy(NewestSeen(prs)) ==>
            NewestSeen(prs).value > start
            && fs' == WriteLastPr(fs, path, NewestSeen(prs).value)
            && ReadLastPr(fs', path) == NewestSeen(prs).value)
  {
    var prs := Newer(pulls, start);
    if Truthy(NewestSeen(prs)) {
      NewestIsListed(prs);
      ReadAfterWrite(fs, path, NewestSeen(prs).value);
    }
  }

  /** Without an override the stored watermark never goes down. */
  lemma WatermarkNeverDecreases(cliLastPr: Option<int>, pulls: seq<PullRecord>, fs: map<string, string>, path: string)
    requires Numbered(pulls)
    requires cliLastPr.None? || cliLastPr.value == 0
    ensures var start := StartWatermark(cliLastPr, fs, path);
      ReadLastPr(NextState(fs, path, start, NewestSeen(Newer(pulls, start))), path) >= ReadLastPr(fs, path)
  {
    PersistedAboveStart(pulls, StartWatermark(cliLastPr, fs, path), fs, path);
  }

  /** `--last-pr 0` is falsy, so the stored value is used, exactly as
      when the option is absent. */
  lemma ZeroOverrideFallsBack(fs: map<string, string>, path: string, n: int)
    ensures StartWatermark(Some(0), fs, path) == StartWatermark(None, fs, path) == ReadLastPr(fs, path)
    ensures n != 0 ==> StartWatermark(Some(n), fs, path) == n
  {
  }

  /** When the API lists newest first, a run that saw new pull requests
      stores the newest one, and an immediate second run (without an
      override, on the same listing) finds nothing new, reports nothing
      and writes nothing. */
  lemma RerunFindsNothing(cliLastPr: Option<int>, pulls: seq<PullRecord>, filesOf: nat -> seq<FileRecord>,
                          prefixes: seq<string>, fs: map<string, string>, path: string)
    requires Numbered(pulls) && NewestFirst(pulls)
    requires Newer(pulls, StartWatermark(cliLastPr, fs, path)) != []
    ensures var start := StartWatermark(cliLastPr, fs, path);
      var fs1 := NextState(fs, path, start, NewestSeen(Newer(pulls, start)));
      var start2 := StartWatermark(None, fs1, path);
      && start2 == Num(pulls[0])
      && Newer(pulls, start2) == []
      && Matched(Newer(pulls, start2), filesOf, prefixes) == {}
      && NextState(fs1, path, start2, NewestSeen(Newer(pulls, start2))) == fs1
  {
    var start := StartWatermark(cliLastPr, fs, path);
    var v := Num(pulls[0]);
    FirstRunStoresHead(pulls, start, fs, path);
    var fs1 := NextState(fs, path, start, NewestSeen(Newer(pulls, start)));
    ReadAfterWrite(fs, path, v);
    assert StartWatermark(None, fs1, path) == v;
    assert forall i :: 0 <= i < |pulls| ==> Num(pulls[i]) <= v;
    NewerEmpty(pulls, v);
  }

  /** With a newest-first listing that has something new, the first
      record is the newest pull request seen, and it is stored. */
  lemma FirstRunStoresHead(pulls: seq<PullRecord>, start: int, fs: map<string, string>, path: string)
    requires Numbered(pulls) && NewestFirst(pulls)
    requires Newer(pulls, start) != []
    ensures Num(pulls[0]) > start
    ensures NewestSeen(Newer(pulls, start)) == Some(Num(pulls[0]))
    ensures NextState(fs, path, start, NewestSeen(Newer(pulls, start))) == WriteLastPr(fs, path, Num(pulls[0]))
  {
    var prs := Newer(pulls, start);
    var v := Num(pulls[0]);
    assert v > start by {
      NewerMembers(pulls, start, prs[0]);
      var i :| 0 <= i < |pulls| && IsEntryOf(pulls[i], prs[0]);
      assert v >= Num(pulls[i]);
    }
    NewerHead(pulls, start);
    NewestIsFirstNonZero(prs, 0);
  }

  /** The listing of the end-to-end example below. */
  lemma ExampleListing(api: string)
    ensures var pulls := [PullRecord(api + "/" + Decimal.Show(10), "#10"), PullRecord(api + "/" + Decimal.Show(9), "#9")];
      Numbered(pulls) && Newer(pulls, 0) == [Pr(10, "#10"), Pr(9, "#9")]
  {
    var pulls := [PullRecord(api + "/" + Decimal.Show(10), "#10"), PullRecord(api + "/" + Decimal.Show(9), "#9")];
    PrNumberOfUrl(api, 10);
    PrNumberOfUrl(api, 9);
    assert Entry(pulls[0]) == Pr(10, "#10") && Entry(pulls[1]) == Pr(9, "#9");
    assert Newer(pulls[..1], 0) == [Pr(10, "#10")] by {
      assert pulls[..1][..0] == [];
    }
  }

  /** The matching of the end-to-end example below. */
  lemma ExampleMatches(filesOf: nat -> seq<FileRecord>)
    requires filesOf(10) == [FileRecord("readme.md")] && filesOf(9) == [FileRecord("src/x.go")]
    ensures Matched([Pr(10, "#10"), Pr(9, "#9")], filesOf, ["src/"]) == {"#9"}
  {
    var prs := [Pr(10, "#10"), Pr(9, "#9")];
    assert !StartsWith("readme.md", "src/") by {
      assert "readme.md"[0] != "src/"[0];
    }
    assert !HasMatchingFile(PrFiles(filesOf(10)), ["src/"]) by {
      assert PrFiles(filesOf(10)) == ["readme.md"];
    }
    assert HasMatchingFile(PrFiles(filesOf(9)), ["src/"]) by {
      assert PrFiles(filesOf(9)) == ["src/x.go"];
      assert StartsWith("src/x.go", ["src/"][0]);
      assert MatchesAny(["src/"], PrFiles(filesOf(9))[0]);
    }
    assert prs[..1] == [Pr(10, "#10")];
    assert Matched(prs[..1], filesOf, ["src/"]) == {} by {
      assert prs[..1][..0] == [];
    }
  }

  /** The end-to-end example: #10 touches only "readme.md", #9 touches
      "src/x.go", the filter is "src/" and nothing is stored yet. Only #9
      is reported, and 10 is stored although #10 did not match. */
  lemma ExampleRun(fs: map<string, string>, path: string, api: string, filesOf: nat -> seq<FileRecord>)
    requires path !in fs
    requires filesOf(10) == [FileRecord("readme.md")] && filesOf(9) == [FileRecord("src/x.go")]
    ensures var pulls := [PullRecord(api + "/" + Decimal.Show(10), "#10"), PullRecord(api + "/" + Decimal.Show(9), "#9")];
      var start := StartWatermark(None, fs, path);
      && start == 0
      && Numbered(pulls)
      && Newer(pulls, start) == [Pr(10, "#10"), Pr(9, "#9")]
      && Matched(Newer(pulls, start), filesOf, ["src/"]) == {"#9"}
      && NextState(fs, path, start, NewestSeen(Newer(pulls, start))) == WriteLastPr(fs, path, 10)
      && Report(["#9"]) == "- #9\n"
  {
    ExampleListing(api);
    ExampleMatches(filesOf);
    NewestIsFirstNonZero([Pr(10, "#10"), Pr(9, "#9")], 0);
  }
}
