# gh-pr-notify, modelled in Dafny

`gh-pr-notify.py` watches one GitHub repository. On each run it lists the
open pull requests numbered above a stored watermark and fetches each one's
changed files. It prints, sorted, the URLs of those that touch a file under
one of the configured path prefixes. It then stores the newest pull request
it saw as the new watermark, in a per-repository JSON file.

This project models that decision core:

- **StateStore** names the state file. The name is the state directory
  joined with the Base64 of the repository URL, plus `.json`. The module
  also reads and writes the one-field document `{"last_pr": n}`. The
  filesystem is a `map<string, string>` from path to content.
- **Base64** is the padded standard-alphabet encoder of section 4 of
  RFC 4648, with a decoder as its partner.
- **Decimal** holds decimal digit strings: the digits Python's `str`
  writes and the digits `int` reads.
- **Endpoint** is the repository-URL regex
  `^https://github.com/([^/]+)/([^/]+)` and the API base URL built from its
  two groups.
- **Pulls** holds `get_prs` and `get_pr_files`. The API responses are given
  as sequences of records.
- **PathMatch** is the prefix matcher.
- **Listing** holds Python's string order, `sorted` and the printed report.
- **Notify** is the main block: the starting watermark, the scan loop over
  pull requests and their files, the report, and the write-back.
  `Notify.Run` ties everything together and returns the exception that
  would abort the script, or the run's outcome: the listed URLs, the
  standard output and the new filesystem.

The parts that loop in the script are methods with loop invariants. Each
is proved equal to a specification function, and the properties are
proved about those functions:

- `Pulls.GetPrs` is proved against `Pulls.Newer`.
- `PathMatch.Matcher` is proved against `PathMatch.MatchesAny`.
- `Notify.Scan` is proved against `Notify.Matched` and `Notify.NewestSeen`.
- `Listing.SortUrls` is proved to be sorted, with the same members.

The rest of the core is single expressions, modelled as functions.

The model follows the code as written, including two behaviours a reader
might not expect:

- The host in the URL pattern is not fixed. The unescaped `.` in
  `github.com` accepts any character except a newline (`Endpoint.LooseHost`).
  The pattern is also not anchored at the end (`Endpoint.LooseSuffix`).
- The stored watermark is not the highest number seen. It is the first
  truthy `newest_pr`: the number of the first listed pull request, in API
  order (`Notify.NewestIsFirstNonZero`). The two agree when the API lists
  newest first (`Notify.RerunFindsNothing`).

## Model

| member | source | states |
|---|---|---|
| StateStore.AsciiBytes | gh-pr-notify.py:17 | `repo.encode('ascii')` succeeds exactly when every character is below 128, and then gives one byte per character with that code |
| Base64.Encode | gh-pr-notify.py:17 | the Base64 text has length 4·⌈n/3⌉ for n bytes |
| Base64.DecodeEncode | gh-pr-notify.py:17 | decoding the encoding gives back the bytes, so no information is lost in the name |
| Base64.EncodeInjective | gh-pr-notify.py:17 | distinct byte strings have distinct encodings |
| StateStore.StateBasename | gh-pr-notify.py:17 | the file name exists exactly for ASCII URLs; it has length 4·⌈n/3⌉ + 5, ends in ".json" and does not start with a slash |
| StateStore.StateFilename | gh-pr-notify.py:16-18 | the state path exists exactly when the URL is ASCII (otherwise the encode raises); it lies under the state directory, in a subdirectory when the Base64 contains '/' |
| StateStore.JoinPathInjective | gh-pr-notify.py:18 | `os.path.join(dir, name)` tells apart two relative names |
| StateStore.StateFilenameInjective | gh-pr-notify.py:16-18 | two repositories never share a state file in the same state directory |
| StateStore.Watermark | gh-pr-notify.py:27 | `data["last_pr"] or 0`: an integer reads as itself, null and false read as 0 |
| StateStore.ReadLastPr | gh-pr-notify.py:20-30 | a missing file reads as 0, content that does not parse reads as 0, and reading never fails |
| StateStore.WriteLastPr | gh-pr-notify.py:32-38 | the state file then holds exactly `{"last_pr": n}` and every other file is unchanged |
| StateStore.ParseSerialise | gh-pr-notify.py:24-38 | `ParseState`, the reader of the state document, reads back what `Serialise` writes (`json.dump({"last_pr": n})`), for every integer n |
| StateStore.ReadAfterWrite | gh-pr-notify.py:20-38 | after `set_last_pr(state, n)`, `get_last_pr(state)` gives n |
| Decimal.Show | gh-pr-notify.py:38 | `str(n)` is a non-empty digit string, with a leading 0 only for 0 itself |
| Decimal.ValueOfShow | gh-pr-notify.py:86 | `int(str(n)) == n` |
| Decimal.ShowInjective | gh-pr-notify.py:38 | distinct numbers are written differently |
| Decimal.ShowInt | gh-pr-notify.py:38 | the written integer is non-empty and starts with '-' exactly when it is negative |
| Endpoint.ParseEndpoint | gh-pr-notify.py:40-46 | on success the result is `https://api.github.com/repos/<org>/<repo>` for groups the regex matches, and on failure the message is "Failed to parse Github repo URL: " followed by the URL |
| Endpoint.ParseEndpointComplete | gh-pr-notify.py:41-46 | every URL the regex matches parses, to the endpoint built from its two maximal slash-free groups |
| Endpoint.ParseEndpointFails | gh-pr-notify.py:41-44 | parsing raises exactly when no org and repo make the regex match |
| Endpoint.MissingRepoFails | gh-pr-notify.py:41-44 | "https://github.com/org" and "https://github.com/org/" raise |
| Endpoint.LooseHost | gh-pr-notify.py:41 | the unescaped dot lets "https://githubXcom/o/r" through |
| Endpoint.LooseSuffix | gh-pr-notify.py:41 | with no `$` anchor, a suffix after the repository segment is ignored |
| Pulls.BasenameIsLastSegment | gh-pr-notify.py:86 | `os.path.basename` is the whole slash-free tail of the URL |
| Pulls.BasenameAfterSlash | gh-pr-notify.py:86 | the basename of `dir/name` is `name` when `name` has no slash |
| Pulls.PrNumberOfUrl | gh-pr-notify.py:86 | `PrNumber`, which is `int(os.path.basename(url))`, reads `dir + "/" + str(n)` as n |
| Pulls.Entries | gh-pr-notify.py:86-91 | every record, as the pair of its number and its `html_url`, in API order |
| Pulls.Newer | gh-pr-notify.py:84-93 | no more pull requests than records, and every one numbered above the watermark |
| Pulls.GetPrs | gh-pr-notify.py:83-93 | succeeds exactly when every record's URL ends in a number, and then returns the records numbered above `last_pr`, in order; otherwise it names the first URL that does not end in a number, where `int(...)` raises |
| Pulls.NewerExtend | gh-pr-notify.py:85-91 | one more record appends its pair when it is above the watermark and skips it otherwise (the `continue`) |
| Pulls.NewerMembers | gh-pr-notify.py:86-91 | a pair is listed exactly when some record has that number and `html_url` and the number is above the watermark |
| Pulls.NewerIsAbove | gh-pr-notify.py:84-93 | the listing is exactly a front-to-back filter (`Above`) of all records' pairs, so each pair appears as often as its records do and in API order |
| Pulls.NewerInOrder | gh-pr-notify.py:85-91 | the listing is a subsequence of all records in API order |
| Pulls.NewerMonotone | gh-pr-notify.py:87 | a higher watermark lists a subsequence of what a lower one lists |
| Pulls.NewerHead | gh-pr-notify.py:85-91 | a first record above the watermark is listed first |
| Pulls.NewerEmpty | gh-pr-notify.py:87-88 | nothing is listed when no record is above the watermark |
| Pulls.PrFiles | gh-pr-notify.py:95-96 | the file names keep the length and order of the file records |
| PathMatch.Matcher | gh-pr-notify.py:98-105 | true exactly when some candidate is a prefix of the path |
| PathMatch.EmptyCandidateMatchesAll | gh-pr-notify.py:100-101 | an empty candidate matches every path |
| PathMatch.NotSegmentAware | gh-pr-notify.py:101 | "src" matches "src2/x" |
| PathMatch.OrderIndependent | gh-pr-notify.py:100-104 | the result depends only on which candidates are configured, not on their order or repetition |
| Listing.LessIrreflexive | gh-pr-notify.py:156 | Python's string order is irreflexive |
| Listing.LessTransitive | gh-pr-notify.py:156 | Python's string order is transitive |
| Listing.LessTotal | gh-pr-notify.py:156 | any two strings are equal or ordered one way or the other |
| Listing.Minimum | gh-pr-notify.py:156 | every non-empty set of URLs has a least element |
| Listing.SortUrls | gh-pr-notify.py:156-157 | `sorted(matched_prs)` is strictly increasing and has exactly the set's members |
| Listing.SortedDistinct | gh-pr-notify.py:156-157 | a sorted listing has no duplicates |
| Listing.SortedUnique | gh-pr-notify.py:156-157 | only one strictly sorted sequence has a given set of members, so the sorted listing is determined |
| Listing.ReportIsLines | gh-pr-notify.py:154-157 | `Report`, the printed text, is one line "- <url>" per URL, in order, and nothing when no URL matched |
| Notify.Scan | gh-pr-notify.py:142-152 | the nested loops with `break` collect exactly the matched set and the newest number of their specification |
| Notify.Finish | gh-pr-notify.py:142-162 | the run's end: the report is sorted, has exactly the matched URLs and is printed as "- " lines, and the state is written as the persistence rule says |
| Notify.Run | gh-pr-notify.py:132-162 | the failures come in the script's order: non-ASCII URL, then bad repository URL, then the first bad PR number; a run succeeds exactly when none applies, and then lists, prints and stores as the rules say |
| Notify.MatchedMembers | gh-pr-notify.py:142-152 | a URL is matched exactly when some listed pull request with that `html_url` has a file that matches |
| Notify.NewestIsFirstNonZero | gh-pr-notify.py:143-147 | the newest seen is the first listed number that is not 0, not the maximum |
| Notify.NewestAllZero | gh-pr-notify.py:146 | with only zero numbers, `newest_pr` stays falsy |
| Notify.NewestIsListed | gh-pr-notify.py:143-147 | a truthy newest value is the number of a listed pull request |
| Notify.NothingListedNothingWritten | gh-pr-notify.py:143-162 | an empty listing leaves `newest_pr` as None and the filesystem unchanged |
| Notify.PersistedAboveStart | gh-pr-notify.py:161-162 | under `NextState`, the rule of lines 161-162, whatever is written is strictly above the starting watermark (every listed number is, by line 87) and reads back as the new watermark; nothing is written for an empty listing |
| Notify.WatermarkNeverDecreases | gh-pr-notify.py:134-162 | without an override, the stored watermark never goes down |
| Notify.ZeroOverrideFallsBack | gh-pr-notify.py:134-137 | in `StartWatermark`, `--last-pr 0` is falsy and falls back to the stored value, exactly as when the option is absent; any other value is used as given |
| Notify.FirstRunStoresHead | gh-pr-notify.py:143-162 | with a newest-first listing that has something new, the first record's number is stored |
| Notify.RerunFindsNothing | gh-pr-notify.py:132-162 | with a newest-first listing, an immediate second run without an override starts at the first record's number, lists nothing, reports nothing and writes nothing |
| Notify.ExampleRun | gh-pr-notify.py:132-162 | #10 touches "readme.md" and #9 touches "src/x.go", with filter "src/" and no stored state: only #9 is reported (as "- #9"), and 10 is stored although #10 did not match |

## Left out

- Token retrieval (`get_api_token`, gh-pr-notify.py:48-67) is a
  subprocess call, a file read and `sys.exit`. It is not modelled, and
  neither is its missing `return` on the non-macOS branch.
- The HTTP layer (`gh_api`, gh-pr-notify.py:69-81) is not modelled. The
  `pulls` response and each `pulls/<n>/files` response are inputs:
  already-decoded records, and a function from a pull request number to
  its file records. The script reads only the first page of each
  response, and the model takes that page as its input. A response without a `url`, `html_url` or `filename` field
  cannot be represented.
- The filesystem is a map from path to content. `os.path.exists`,
  `mkdir(parents=True)`, I/O errors, and `open` on a path that is a
  directory are not modelled.
- Argument parsing and logging (gh-pr-notify.py:14, 108-130) are left out.
  The repository URL, state directory, `--last-pr` and path prefixes are
  parameters of `Notify.Run`.
- StateStore.ReadLastPr: the model parses only the document
  `{"last_pr": v}`, with JSON whitespace, where v is null, true, false or
  an integer. Any other document reads as 0. Python's `json.load` accepts
  more:
  - other keys alongside "last_pr", duplicate keys, and escapes in the key.
    Such a file reads as 0 in the model but as its value in the script.
  - a float, string, list or object value, which the script would pass on
    as `last_pr` and later compare or fail on.
- StateStore.Watermark: `true` reads as 1. Python would pass on `True`,
  which compares as the integer 1.
- Pulls.PrNumber reads only ASCII decimal digits. Python's `int` would
  also accept surrounding whitespace, a sign, underscores and non-ASCII
  digits.
- The model does not restrict pull request numbers to be positive. A
  listed number 0 is falsy and is skipped for `newest_pr`, as in the
  script.
