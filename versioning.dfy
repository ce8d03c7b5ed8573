/** The release version as both release scripts compute it from the repository:
    the tags `v<major>.<minor>.<patch>` are read from `git tag`, the greatest one
    is the latest release, and the next version bumps its minor part when a
    feature was committed since that tag and its patch part otherwise, with the
    short hash of HEAD appended except on the release-candidate ref. `git` is an
    oracle from its arguments to its output. */
module Versioning {
  import opened Wrappers
  import Strings
  import CommitLog

  /** `semver.VersionInfo` without pre-release and build parts. */
  datatype Version = Version(major: nat, minor: nat, patch: nat)

  /** The semantic-version order: major, then minor, then patch. */
  predicate Less(a: Version, b: Version)
  {
    || a.major < b.major
    || (a.major == b.major && a.minor < b.minor)
    || (a.major == b.major && a.minor == b.minor && a.patch < b.patch)
  }

  predicate AtMost(a: Version, b: Version)
  {
    a == b || Less(a, b)
  }

  lemma LessTransitive(a: Version, b: Version, c: Version)
    requires AtMost(a, b) && Less(b, c)
    ensures Less(a, c)
  {
  }

  // Decimal notation.

  function DigitChar(d: nat): char
    requires d < 10
  {
    (d + '0' as int) as char
  }

  predicate IsDigit(c: char)
  {
    '0' <= c <= '9'
  }

  /** The decimal notation of `n`, as `str(n)` writes it. */
  function NatStr(n: nat): (r: string)
    ensures |r| >= 1 && (forall i :: 0 <= i < |r| ==> IsDigit(r[i]))
    ensures r[0] == '0' ==> n == 0 && r == "0"
  {
    if n < 10 then [DigitChar(n)] else NatStr(n / 10) + [DigitChar(n % 10)]
  }

  /** The number a string of digits denotes. */
  function DigitsValue(s: string): nat
    requires forall i :: 0 <= i < |s| ==> IsDigit(s[i])
  {
    if s == [] then 0
    else
      assert IsDigit(s[|s| - 1]);
      DigitsValue(s[..|s| - 1]) * 10 + (s[|s| - 1] as int - '0' as int)
  }

  /** A version number: one or more digits, without leading zeros. */
  function ParseNat(s: string): (r: Option<nat>)
  {
    if s == [] || (exists i :: 0 <= i < |s| && !IsDigit(s[i])) || (s[0] == '0' && |s| > 1) then None
    else Some(DigitsValue(s))
  }

  lemma {:induction false} DigitsOfNat(n: nat)
    ensures DigitsValue(NatStr(n)) == n
  {
    if n >= 10 {
      DigitsOfNat(n / 10);
      var s := NatStr(n);
      assert s[..|s| - 1] == NatStr(n / 10);
    }
  }

  lemma ParseNatStr(n: nat)
    ensures ParseNat(NatStr(n)) == Some(n)
  {
    DigitsOfNat(n);
  }

  /** `str(version)`: `major.minor.patch`. */
  function Str(v: Version): string
  {
    NatStr(v.major) + "." + NatStr(v.minor) + "." + NatStr(v.patch)
  }

  /** `VersionInfo.parse` for versions without pre-release or build parts. */
  function Parse(s: string): Option<Version>
  {
    var parts := Strings.Split(s, '.');
    if |parts| != 3 then None
    else
      match (ParseNat(parts[0]), ParseNat(parts[1]), ParseNat(parts[2]))
      case (Some(major), Some(minor), Some(patch)) => Some(Version(major, minor, patch))
      case _ => None
  }

  /** Writing a version and parsing it back gives the version. */
  lemma ParseStr(v: Version)
    ensures Parse(Str(v)) == Some(v)
  {
    var parts := [NatStr(v.major), NatStr(v.minor), NatStr(v.patch)];
    assert forall i :: 0 <= i < |parts| ==> '.' !in parts[i] by {
      forall i | 0 <= i < |parts| ensures '.' !in parts[i] {
        assert forall j :: 0 <= j < |parts[i]| ==> IsDigit(parts[i][j]);
      }
    }
    assert Strings.Join(parts, '.') == Str(v) by {
      assert parts[1..][1..] == [NatStr(v.patch)];
      assert Strings.Join(parts[1..], '.') == NatStr(v.minor) + "." + NatStr(v.patch);
    }
    Strings.SplitJoin(parts, '.');
    ParseNatStr(v.major);
    ParseNatStr(v.minor);
    ParseNatStr(v.patch);
  }

  // Reading the tags.

  /** `git` as an oracle: what it prints for the given arguments. */
  type Git = seq<string> -> string

  /** `_git(*args)`: the output, stripped. */
  function Run(git: Git, args: seq<string>): (r: string)
    ensures r == [] || (!Strings.IsSpace(r[0]) && !Strings.IsSpace(r[|r| - 1]))
  {
    Strings.Strip(git(args))
  }

  const TagArgs: seq<string> := ["tag", "--list", "v*", "--format=%(refname:strip=2);%(objectname)"]

  /** `filter(bool, lines)`: the non-empty lines, in order. */
  function NonEmpty(lines: seq<string>): (r: seq<string>)
    ensures forall i :: 0 <= i < |r| ==> r[i] != "" && r[i] in lines
    ensures forall i :: 0 <= i < |lines| && lines[i] != "" ==> lines[i] in r
  {
    if lines == [] then []
    else (if lines[0] != "" then [lines[0]] else []) + NonEmpty(lines[1..])
  }

  /** Filtering two runs of lines in a row filters each: the kept lines stay in
      order, each as often as it occurs. */
  lemma {:induction false} NonEmptyAppend(a: seq<string>, b: seq<string>)
    ensures NonEmpty(a + b) == NonEmpty(a) + NonEmpty(b)
    decreases |a|
  {
    if a == [] {
      assert a + b == b;
    } else {
      assert (a + b)[1..] == a[1..] + b;
      NonEmptyAppend(a[1..], b);
    }
  }

  /** One line is kept when it is not empty and dropped otherwise. */
  lemma NonEmptyOne(line: string)
    ensures NonEmpty([line]) == (if line != "" then [line] else [])
  {
    assert [line][1..] == [];
  }

  /** The tag listing, one `tag;commit` line per tag. */
  function TagLines(git: Git): seq<string>
  {
    NonEmpty(Strings.Split(Strings.Strip(Run(git, TagArgs)), '\n'))
  }

  /** What reading the tags can raise: a line that does not unpack into a tag
      and a commit, or a tag that is not a version. */
  datatype ReleaseError = MalformedTagLine(line: string) | InvalidVersion(tag: string)

  /** One line: `tag;commit`, the tag read as a version after its leading `v`s. */
  function ParseTag(line: string): (r: Result<(Version, string), ReleaseError>)
    ensures r.Ok? ==> exists tag :: line == tag + ";" + r.value.1 && Parse(Strings.LStripChar(tag, 'v')) == Some(r.value.0)
  {
    var parts := Strings.Split(line, ';');
    if |parts| != 2 then Err(MalformedTagLine(line))
    else
      var tag := Strings.LStripChar(parts[0], 'v');
      match Parse(tag)
      case None => Err(InvalidVersion(tag))
      case Some(v) =>
        Strings.JoinSplit(line, ';');
        assert Strings.Join(parts, ';') == parts[0] + ";" + parts[1];
        Ok((v, parts[1]))
  }

  /** `f` applied to every element, in order, or the first error it gives. */
  function TryMap<A, B, E>(xs: seq<A>, f: A -> Result<B, E>): Result<seq<B>, E>
  {
    if xs == [] then Ok([])
    else
      var head :- f(xs[0]);
      var rest :- TryMap(xs[1..], f);
      Ok([head] + rest)
  }

  /** The map succeeds exactly when `f` succeeds on every element. */
  lemma {:induction false} TryMapOkIff<A, B, E>(xs: seq<A>, f: A -> Result<B, E>)
    ensures TryMap(xs, f).Ok? <==> forall i :: 0 <= i < |xs| ==> f(xs[i]).Ok?
  {
    if xs != [] {
      var tail := xs[1..];
      TryMapOkIff(tail, f);
      assert forall i :: 1 <= i < |xs| ==> xs[i] == tail[i - 1];
    }
  }

  /** A successful map holds the result of `f` on each element at its own
      position. */
  lemma {:induction false} TryMapValues<A, B, E>(xs: seq<A>, f: A -> Result<B, E>)
    ensures var r := TryMap(xs, f);
      r.Ok? ==> |r.value| == |xs| && forall i :: 0 <= i < |xs| ==> f(xs[i]) == Ok(r.value[i])
  {
    if xs != [] && TryMap(xs, f).Ok? {
      var tail := xs[1..];
      TryMapValues(tail, f);
      var ys := TryMap(xs, f).value;
      assert ys == [f(xs[0]).value] + TryMap(tail, f).value;
      forall i | 0 < i < |xs| ensures f(xs[i]) == Ok(ys[i]) {
        assert xs[i] == tail[i - 1] && ys[i] == TryMap(tail, f).value[i - 1];
      }
    }
  }

  /** A failed map carries the error of the first element `f` fails on. */
  lemma {:induction false} TryMapFirstError<A, B, E>(xs: seq<A>, f: A -> Result<B, E>)
    ensures var r := TryMap(xs, f);
      r.Err? ==> exists i :: (0 <= i < |xs| && f(xs[i]) == Err(r.error)
        && forall j :: 0 <= j < i ==> f(xs[j]).Ok?)
  {
    if xs != [] && TryMap(xs, f).Err? && f(xs[0]).Ok? {
      var tail := xs[1..];
      TryMapFirstError(tail, f);
      var k :| 0 <= k < |tail| && f(tail[k]) == Err(TryMap(tail, f).error)
        && forall j :: 0 <= j < k ==> f(tail[j]).Ok?;
      assert xs[k + 1] == tail[k];
      forall j | 0 < j < k + 1 ensures f(xs[j]).Ok? {
        assert xs[j] == tail[j - 1];
      }
      assert 0 <= k + 1 < |xs| && f(xs[k + 1]) == Err(TryMap(xs, f).error);
    }
  }

  /** All lines, in order, or the first that fails. */
  function ParseTags(lines: seq<string>): Result<seq<(Version, string)>, ReleaseError>
  {
    TryMap(lines, ParseTag)
  }

  /** Reading the tags succeeds exactly when every line parses, and then gives
      each line's version and commit at its own position; otherwise it fails with
      the error of the first line that does not parse. */
  lemma ParseTagsEach(lines: seq<string>)
    ensures var r := ParseTags(lines);
      && (r.Ok? <==> forall i :: 0 <= i < |lines| ==> ParseTag(lines[i]).Ok?)
      && (r.Ok? ==> |r.value| == |lines| && forall i :: 0 <= i < |lines| ==> ParseTag(lines[i]) == Ok(r.value[i]))
      && (r.Err? ==> exists i :: (0 <= i < |lines| && ParseTag(lines[i]) == Err(r.error)
            && forall j :: 0 <= j < i ==> ParseTag(lines[j]).Ok?))
  {
    TryMapOkIff(lines, ParseTag);
    TryMapValues(lines, ParseTag);
    TryMapFirstError(lines, ParseTag);
  }

  /** The dictionary comprehension of `_versions`: a later tag of the same
      version overwrites an earlier one. */
  function VersionMap(pairs: seq<(Version, string)>): (r: map<Version, string>)
    ensures forall i :: 0 <= i < |pairs| ==> pairs[i].0 in r
    ensures forall v :: v in r ==> exists i :: 0 <= i < |pairs| && pairs[i].0 == v
  {
    if pairs == [] then map[]
    else
      var n := |pairs| - 1;
      var r := VersionMap(pairs[..n])[pairs[n].0 := pairs[n].1];
      assert forall i :: 0 <= i < n ==> pairs[..n][i] == pairs[i];
      r
  }

  /** The commit a version maps to is the one on its last tag line. */
  lemma {:induction false} VersionMapLast(pairs: seq<(Version, string)>, i: nat)
    requires i < |pairs|
    requires forall j :: i < j < |pairs| ==> pairs[j].0 != pairs[i].0
    ensures VersionMap(pairs)[pairs[i].0] == pairs[i].1
    decreases |pairs|
  {
    var n := |pairs| - 1;
    if i < n {
      assert forall j :: i < j < n ==> pairs[..n][j] == pairs[j];
      VersionMapLast(pairs[..n], i);
      assert pairs[..n][i] == pairs[i];
    }
  }

  /** `max(versions)`. */
  function MaxVersion(pairs: seq<(Version, string)>): (r: Version)
    requires pairs != []
    ensures exists i :: 0 <= i < |pairs| && pairs[i].0 == r
    ensures forall i :: 0 <= i < |pairs| ==> AtMost(pairs[i].0, r)
  {
    if |pairs| == 1 then pairs[0].0
    else
      var rest := MaxVersion(pairs[1..]);
      assert forall i :: 1 <= i < |pairs| ==> pairs[i] == pairs[1..][i - 1];
      if Less(pairs[0].0, rest) then rest else pairs[0].0
  }

  /** `_latest_version`: the greatest tagged version and its commit, or `0.0.0`
      and no commit when there are no tags. */
  function Latest(pairs: seq<(Version, string)>): (r: (Version, Option<string>))
    ensures pairs == [] ==> r == (Version(0, 0, 0), None)
    ensures pairs != [] ==>
      && r.1.Some?
      && (exists i :: 0 <= i < |pairs| && pairs[i] == (r.0, r.1.value)
            && forall j :: i < j < |pairs| ==> pairs[j].0 != r.0)
      && (forall i :: 0 <= i < |pairs| ==> AtMost(pairs[i].0, r.0))
      && r.0 in VersionMap(pairs) && r.1.value == VersionMap(pairs)[r.0]
  {
    if pairs == [] then (Version(0, 0, 0), None)
    else
      var v := MaxVersion(pairs);
      var m := VersionMap(pairs);
      var i := LastTagOf(pairs, v);
      VersionMapLast(pairs, i);
      (v, Some(m[v]))
  }

  /** The index of the last tag line of a tagged version. */
  function LastTagOf(pairs: seq<(Version, string)>, v: Version): (i: nat)
    requires exists i :: 0 <= i < |pairs| && pairs[i].0 == v
    ensures i < |pairs| && pairs[i].0 == v
    ensures forall j :: i < j < |pairs| ==> pairs[j].0 != v
  {
    var n := |pairs| - 1;
    if pairs[n].0 == v then n
    else
      var i :| 0 <= i < |pairs| && pairs[i].0 == v;
      assert pairs[..n][i] == pairs[i];
      LastTagOf(pairs[..n], v)
  }

  // The commits since the latest release.

  /** `_commits_since`: `git log --pretty=%s`, limited to `HEAD...hash` when a
      non-empty hash is known. */
  function LogArgs(hash: Option<string>): (r: seq<string>)
    ensures |r| >= 2 && r[..2] == ["log", "--pretty=%s"]
    ensures |r| == 3 <==> hash.Some? && hash.value != ""
    ensures |r| == 3 ==> r[2] == "HEAD..." + hash.value
  {
    ["log", "--pretty=%s"] + (if hash.Some? && hash.value != "" then ["HEAD..." + hash.value] else [])
  }

  /** The subjects of the commits since `hash`, oldest first. */
  function CommitsSince(git: Git, hash: Option<string>): seq<string>
  {
    CommitLog.OldestFirst(Run(git, LogArgs(hash)))
  }

  /** `next_version("minor")` or `next_version("patch")`. */
  function Bump(v: Version, minor: bool): (r: Version)
    ensures Less(v, r)
    ensures minor ==> r.major == v.major && r.minor == v.minor + 1 && r.patch == 0
    ensures !minor ==> r.major == v.major && r.minor == v.minor && r.patch == v.patch + 1
  {
    if minor then Version(v.major, v.minor + 1, 0) else Version(v.major, v.minor, v.patch + 1)
  }

  const HeadArgs: seq<string> := ["log", "--pretty=%h", "--max-count=1"]
  const ReleaseCandidateRef: string := "refs/tags/release-candidate"

  /** Whether a feature was committed: `"feature" in commit_categories`. */
  predicate HasFeature(keywords: seq<string>, commits: seq<string>)
  {
    Some("feature") in CommitLog.Keys(keywords, commits)
  }

  /** The version after the tags `pairs`: the latest one, bumped. */
  function NextAfter(pairs: seq<(Version, string)>, keywords: seq<string>, git: Git): (r: Version)
    ensures Less(Latest(pairs).0, r)
  {
    var latest := Latest(pairs);
    Bump(latest.0, HasFeature(keywords, CommitsSince(git, latest.1)))
  }

  /** The version `version()` prints, before the postfix. */
  function NextVersion(git: Git, keywords: seq<string>): Result<Version, ReleaseError>
  {
    var pairs :- ParseTags(TagLines(git));
    Ok(NextAfter(pairs, keywords, git))
  }

  /** What `version()` prints for the next version `v`: `+<short hash of HEAD>`
      is appended unless `GITHUB_REF` names the release-candidate tag. */
  function Labelled(v: Version, githubRef: Option<string>, head: string): string
  {
    Str(v) + (if githubRef != Some(ReleaseCandidateRef) then "+" + head else "")
  }

  /** `version()`. */
  function VersionString(git: Git, keywords: seq<string>, githubRef: Option<string>)
    : Result<string, ReleaseError>
  {
    var v :- NextVersion(git, keywords);
    Ok(Labelled(v, githubRef, Run(git, HeadArgs)))
  }

  /** A bumped latest version is above every tagged version. */
  lemma BumpAboveTags(pairs: seq<(Version, string)>, minor: bool)
    ensures forall i :: 0 <= i < |pairs| ==> Less(pairs[i].0, Bump(Latest(pairs).0, minor))
  {
    var latest := Latest(pairs).0;
    forall i | 0 <= i < |pairs| ensures Less(pairs[i].0, Bump(latest, minor)) {
      LessTransitive(pairs[i].0, latest, Bump(latest, minor));
    }
  }

  /** The next version is above every tagged version. */
  lemma NextAfterAbove(pairs: seq<(Version, string)>, keywords: seq<string>, git: Git)
    ensures forall i :: 0 <= i < |pairs| ==> Less(pairs[i].0, NextAfter(pairs, keywords, git))
  {
    var latest := Latest(pairs);
    BumpAboveTags(pairs, HasFeature(keywords, CommitsSince(git, latest.1)));
  }

  /** The minor part is bumped exactly when a commit carries the feature
      keyword; otherwise the patch part is. */
  lemma BumpOnFeature(v: Version, keywords: seq<string>, commits: seq<string>)
    ensures (Bump(v, HasFeature(keywords, commits)) == Version(v.major, v.minor + 1, 0))
      <==> exists i :: 0 <= i < |commits| && CommitLog.Key(keywords, commits[i]) == Some("feature")
  {
    CommitLog.KeysOf(keywords, commits, Some("feature"));
  }

  /** For the version after the tags: the minor part of the latest version is
      bumped exactly when a commit since its tag carries the feature keyword. */
  lemma NextAfterFeature(pairs: seq<(Version, string)>, keywords: seq<string>, git: Git)
    ensures var latest := Latest(pairs);
      var commits := CommitsSince(git, latest.1);
      (NextAfter(pairs, keywords, git) == Version(latest.0.major, latest.0.minor + 1, 0))
        <==> exists i :: 0 <= i < |commits| && CommitLog.Key(keywords, commits[i]) == Some("feature")
  {
    var latest := Latest(pairs);
    BumpOnFeature(latest.0, keywords, CommitsSince(git, latest.1));
  }

  /** Without tags the version after `0.0.0` is computed from the whole log. */
  lemma NextAfterNoTags(keywords: seq<string>, git: Git)
    ensures var commits := CommitLog.OldestFirst(Run(git, ["log", "--pretty=%s"]));
      NextAfter([], keywords, git) == Bump(Version(0, 0, 0), HasFeature(keywords, commits))
  {
    assert LogArgs(None) == ["log", "--pretty=%s"];
  }

  /** On the release-candidate ref the printed version parses back to the next
      version; elsewhere the short hash follows a `+`. */
  lemma LabelledShape(v: Version, githubRef: Option<string>, head: string)
    ensures githubRef == Some(ReleaseCandidateRef) ==> Parse(Labelled(v, githubRef, head)) == Some(v)
    ensures githubRef != Some(ReleaseCandidateRef) ==>
      Labelled(v, githubRef, head) == Str(v) + "+" + head && Parse(Labelled(v, githubRef, head)[..|Str(v)|]) == Some(v)
  {
    ParseStr(v);
    assert Str(v) + "" == Str(v);
    assert (Str(v) + "+" + head)[..|Str(v)|] == Str(v);
  }
}
