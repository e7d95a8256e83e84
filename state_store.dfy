/** The per-repository state file: its name, derived from the repository
    URL, and its one-field JSON content `{"last_pr": n}`
    (gh-pr-notify.py:16-38). The filesystem is a map from path to
    content. */
module StateStore {
  import opened Wrappers
  import opened Decimal
  import Base64

  // ---------------------------------------------------------------------
  // File name

  predicate IsAscii(s: string) {
    forall i :: 0 <= i < |s| ==> s[i] as int < 128
  }

  /** `s.encode('ascii')`: one byte per character, or a failure when some
      character is outside ASCII. */
  function AsciiBytes(s: string): (r: Option<seq<Base64.Byte>>)
    ensures r.Some? <==> IsAscii(s)
    ensures r.Some? ==> |r.value| == |s| && forall i :: 0 <= i < |s| ==> r.value[i] == s[i] as int
  {
    if s == [] then Some([])
    else if s[0] as int >= 128 then None
    else
      match AsciiBytes(s[1..])
      case None => None
      case Some(rest) => Some([s[0] as int] + rest)
  }

  /** POSIX `os.path.join(dir, name)` for two components. */
  function JoinPath(dir: string, name: string): string {
    if |name| > 0 && name[0] == '/' then name
    else if dir == [] || dir[|dir| - 1] == '/' then dir + name
    else dir + "/" + name
  }

  /** The state file's own name: the Base64 of the URL, then ".json". */
  function StateBasename(repo: string): (r: Option<string>)
    ensures r.Some? <==> IsAscii(repo)
    ensures r.Some? ==> |r.value| == 4 * ((|repo| + 2) / 3) + 5
    ensures r.Some? ==> r.value[|r.value| - 5..] == ".json"
    ensures r.Some? ==> r.value[0] != '/'
  {
    match AsciiBytes(repo)
    case None => None
    case Some(bytes) =>
      var e := Base64.Encode(bytes);
      assert |bytes| > 0 ==> e[0] == Base64.Sextet(Base64.G0(bytes[0]));
      Some(e + ".json")
  }

  /** `get_state_filename`: the state file lies under the state directory
      (in a subdirectory when the Base64 contains '/'); a repository URL
      that is not ASCII raises. */
  function StateFilename(stateDir: string, repo: string): (r: Option<string>)
    ensures r.Some? <==> IsAscii(repo)
  {
    match StateBasename(repo)
    case None => None
    case Some(name) => Some(JoinPath(stateDir, name))
  }

  lemma JoinPathInjective(dir: string, a: string, b: string)
    requires |a| > 0 && a[0] != '/' && |b| > 0 && b[0] != '/'
    ensures JoinPath(dir, a) == JoinPath(dir, b) ==> a == b
  {
    if JoinPath(dir, a) == JoinPath(dir, b) {
      var d := if dir == [] || dir[|dir| - 1] == '/' then dir else dir + "/";
      assert JoinPath(dir, a) == d + a && JoinPath(dir, b) == d + b;
      assert a == (d + a)[|d|..];
      assert b == (d + b)[|d|..];
    }
  }

  /** Two repositories never share a state file in the same directory. */
  lemma StateFilenameInjective(stateDir: string, repo1: string, repo2: string)
    requires StateFilename(stateDir, repo1).Some? && StateFilename(stateDir, repo2).Some?
    ensures StateFilename(stateDir, repo1) == StateFilename(stateDir, repo2) ==> repo1 == repo2
  {
    var n1, n2 := StateBasename(repo1).value, StateBasename(repo2).value;
    if StateFilename(stateDir, repo1) == StateFilename(stateDir, repo2) {
      JoinPathInjective(stateDir, n1, n2);
      var b1, b2 := AsciiBytes(repo1).value, AsciiBytes(repo2).value;
      var e1, e2 := Base64.Encode(b1), Base64.Encode(b2);
      assert n1 == e1 + ".json" && n2 == e2 + ".json";
      assert e1 == n1[..|n1| - 5] && e2 == n2[..|n2| - 5];
      Base64.EncodeInjective(b1, b2);
      assert |repo1| == |repo2|;
      assert forall i :: 0 <= i < |repo1| ==> repo1[i] as int == b1[i] == b2[i] == repo2[i] as int;
    }
  }

  // ---------------------------------------------------------------------
  // Content

  /** The JSON values the model reads for "last_pr". */
  datatype Stored = JNull | JBool(b: bool) | JInt(i: int)

  /** `data["last_pr"] or 0`: a falsy value reads as 0; `true` compares as
      the integer 1 in Python, so it reads as 1. */
  function Watermark(v: Stored): (n: int)
    ensures v.JInt? ==> n == v.i
    ensures v == JNull || v == JBool(false) ==> n == 0
  {
    match v
    case JNull => 0
    case JBool(b) => if b then 1 else 0
    case JInt(i) => i
  }

  const Key: string := "\"last_pr\""

  /** `json.dump({"last_pr": n})`: the default separators put one space
      after the colon. */
  function Serialise(n: int): string {
    Header + ShowInt(n) + "}"
  }

  predicate IsWs(c: char) {
    c == ' ' || c == '\t' || c == '\n' || c == '\r'
  }

  /** The first index at or after `i` that is not JSON whitespace. */
  function SkipWs(s: string, i: nat): (j: nat)
    requires i <= |s|
    ensures i <= j <= |s|
    ensures j < |s| ==> !IsWs(s[j])
    ensures forall k :: i <= k < j ==> IsWs(s[k])
    decreases |s| - i
  {
    if i < |s| && IsWs(s[i]) then SkipWs(s, i + 1) else i
  }

  /** The first index at or after `i` that is not a decimal digit. */
  function DigitsEnd(s: string, i: nat): (j: nat)
    requires i <= |s|
    ensures i <= j <= |s|
    ensures j < |s| ==> !IsDigit(s[j])
    ensures AllDigits(s[i..j])
    decreases |s| - i
  {
    if i < |s| && IsDigit(s[i]) then DigitsEnd(s, i + 1) else i
  }

  predicate HasAt(s: string, i: nat, lit: string) {
    i + |lit| <= |s| && s[i..i + |lit|] == lit
  }

  /** One JSON value at `i`: null, true, false or an integer (an optional
      minus sign, then 0 or digits without a leading zero), with the index
      just past it. */
  function ParseValue(s: string, i: nat): (r: Option<(Stored, nat)>)
    requires i <= |s|
    ensures r.Some? ==> i < r.value.1 <= |s|
  {
    if i < |s| && s[i] == 'n' then (if HasAt(s, i, "null") then Some((JNull, i + 4)) else None)
    else if i < |s| && s[i] == 't' then (if HasAt(s, i, "true") then Some((JBool(true), i + 4)) else None)
    else if i < |s| && s[i] == 'f' then (if HasAt(s, i, "false") then Some((JBool(false), i + 5)) else None)
    else
      var neg := i < |s| && s[i] == '-';
      var j := if neg then i + 1 else i;
      var e := DigitsEnd(s, j);
      if e == j || (s[j] == '0' && e > j + 1) then None
      else
        var v: int := Value(s[j..e]);
        Some((JInt(if neg then -v else v), e))
  }

  /** The state document: `{ "last_pr" : value }` with JSON whitespace
      allowed around every token, and nothing else. */
  function ParseState(s: string): Option<Stored> {
    var i0 := SkipWs(s, 0);
    if !(i0 < |s| && s[i0] == '{') then None
    else
      var i1 := SkipWs(s, i0 + 1);
      if !HasAt(s, i1, Key) then None
      else
        var i2 := SkipWs(s, i1 + |Key|);
        if !(i2 < |s| && s[i2] == ':') then None
        else
          match ParseValue(s, SkipWs(s, i2 + 1))
          case None => None
          case Some((v, e)) =>
            var i3 := SkipWs(s, e);
            if !(i3 < |s| && s[i3] == '}') then None
            else if SkipWs(s, i3 + 1) != |s| then None
            else Some(v)
  }

  /** `get_last_pr`: 0 when the file is missing or its content cannot be
      read; otherwise the stored value, falsy values reading as 0. Reading
      never fails. */
  function ReadLastPr(fs: map<string, string>, path: string): (n: int)
    ensures path !in fs ==> n == 0
    ensures path in fs && ParseState(fs[path]).None? ==> n == 0
  {
    if path !in fs then 0
    else
      match ParseState(fs[path])
      case None => 0
      case Some(v) => Watermark(v)
  }

  /** `set_last_pr`: the file at `path` now holds exactly `{"last_pr": n}`;
      every other file is as it was. */
  function WriteLastPr(fs: map<string, string>, path: string, n: int): (fs': map<string, string>)
    ensures path in fs' && fs'[path] == Serialise(n)
    ensures forall p :: p != path ==> (p in fs' <==> p in fs)
    ensures forall p :: p != path && p in fs ==> fs'[p] == fs[p]
  {
    fs[path := Serialise(n)]
  }

  lemma {:induction false} DigitsEndAt(s: string, i: nat, k: nat)
    requires i <= k <= |s|
    requires AllDigits(s[i..k]) && (k < |s| ==> !IsDigit(s[k]))
    ensures DigitsEnd(s, i) == k
    decreases k - i
  {
    if i < k {
      assert IsDigit(s[i..k][0]);
      assert s[i + 1..k] == s[i..k][1..];
      DigitsEndAt(s, i + 1, k);
    }
  }

  /** A digit string without a leading zero, at `at` after an optional
      minus sign, parses as its value. */
  lemma ParseDigits(s: string, at: nat, neg: bool, d: string)
    requires |d| > 0 && AllDigits(d) && (d[0] == '0' ==> |d| == 1)
    requires var j := if neg then at + 1 else at;
      j + |d| < |s| && s[j..j + |d|] == d && !IsDigit(s[j + |d|])
      && (neg ==> s[at] == '-')
    ensures var j := if neg then at + 1 else at;
      ParseValue(s, at) == Some((JInt(if neg then -(Value(d) as int) else Value(d)), j + |d|))
  {
    var j := if neg then at + 1 else at;
    assert s[j] == d[0];
    assert neg <==> at < |s| && s[at] == '-';
    DigitsEndAt(s, j, j + |d|);
    var e := DigitsEnd(s, j);
    assert s[j..e] == d;
    assert !(e == j || (s[j] == '0' && e > j + 1));
    var v: int := Value(s[j..e]);
    assert v == Value(d);
    assert ParseValue(s, at) == Some((JInt(if neg then -v else v), e));
  }

  /** A digit string at `at` parses as the number it shows. */
  lemma ParseShowNat(s: string, at: nat, m: nat)
    requires at + |Show(m)| < |s| && s[at..at + |Show(m)|] == Show(m)
    requires !IsDigit(s[at + |Show(m)|])
    ensures ParseValue(s, at) == Some((JInt(m), at + |Show(m)|))
  {
    ParseDigits(s, at, false, Show(m));
    ValueOfShow(m);
  }

  /** A minus sign and a digit string at `at` parse as the negative number. */
  lemma ParseShowNeg(s: string, at: nat, m: nat)
    requires m > 0
    requires at + 1 + |Show(m)| < |s| && s[at] == '-' && s[at + 1..at + 1 + |Show(m)|] == Show(m)
    requires !IsDigit(s[at + 1 + |Show(m)|])
    ensures ParseValue(s, at) == Some((JInt(-(m as int)), at + 1 + |Show(m)|))
  {
    ParseDigits(s, at, true, Show(m));
    ValueOfShow(m);
  }

  /** The number part of a serialised document is read back as the number. */
  lemma ParseShowInt(s: string, at: nat, n: int)
    requires at + |ShowInt(n)| < |s| && s[at..at + |ShowInt(n)|] == ShowInt(n)
    requires !IsDigit(s[at + |ShowInt(n)|])
    ensures ParseValue(s, at) == Some((JInt(n), at + |ShowInt(n)|))
  {
    var d := ShowInt(n);
    if n < 0 {
      assert d == "-" + Show(-n);
      assert s[at] == d[0];
      assert s[at + 1..at + |d|] == d[1..];
      ParseShowNeg(s, at, -n);
    } else {
      ParseShowNat(s, at, n);
    }
  }

  const Header: string := "{" + Key + ": "

  /** The parser gets through the header `{"last_pr": ` that Serialise
      writes. */
  lemma ParseHeader(s: string)
    requires |s| > |Header| && s[..|Header|] == Header && !IsWs(s[|Header|])
    ensures SkipWs(s, 0) == 0 && s[0] == '{'
    ensures SkipWs(s, 1) == 1 && HasAt(s, 1, Key)
    ensures SkipWs(s, 1 + |Key|) == 10 && s[10] == ':'
    ensures SkipWs(s, 11) == 12
  {
    assert s[0] == Header[0] && s[10] == Header[10] && s[11] == Header[11];
    assert s[1..10] == Header[1..10];
  }

  /** A document made of the header, a value and a closing brace parses
      to that value. */
  lemma ParseDocument(s: string, v: Stored, e: nat)
    requires |s| > |Header| && s[..|Header|] == Header && !IsWs(s[|Header|])
    requires ParseValue(s, |Header|) == Some((v, e))
    requires e + 1 == |s| && s[e] == '}'
    ensures ParseState(s) == Some(v)
  {
    ParseHeader(s);
    assert SkipWs(s, e) == e && SkipWs(s, e + 1) == |s|;
  }

  /** What `set_last_pr` writes, `get_last_pr` parses back. */
  lemma ParseSerialise(n: int)
    ensures ParseState(Serialise(n)) == Some(JInt(n))
  {
    var d := ShowInt(n);
    var s := Serialise(n);
    var e := |Header| + |d|;
    assert s == Header + d + "}";
    assert s[..|Header|] == Header;
    assert s[|Header|..e] == d;
    assert s[|Header|] == d[0];
    assert s[e] == '}';
    ParseShowInt(s, |Header|, n);
    ParseDocument(s, JInt(n), e);
  }

  /** The state round trip: after writing n, reading gives n. */
  lemma ReadAfterWrite(fs: map<string, string>, path: string, n: int)
    ensures ReadLastPr(WriteLastPr(fs, path, n), path) == n
  {
    ParseSerialise(n);
  }
}
