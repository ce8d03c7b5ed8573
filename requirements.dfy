/** The requirements updater of tools/requirements.py: pinned requirements read
    from `requirements.txt` and the files it includes with `-r`, the ones whose
    latest release differs, and the rewrite of their pins. Text files are held
    by path; the latest version of a package on PyPI is an oracle. */
module RequirementsTool {
  import opened Wrappers
  import Strings
  import Paths

  /** `Requirement`: a pinned name and version, and the file it was read from. */
  datatype Requirement = Requirement(name: string, version: string, source: Paths.Path)

  /** What `get` can raise: a missing file, an include line that does not split
      into two words, a requirement line without `==`, or an include chain deeper
      than the fuel (Python's `RecursionError`). */
  datatype RequirementsError =
    | FileNotFound(path: Paths.Path)
    | BadInclude(line: string)
    | BadRequirement(line: string)
    | OutOfFuel

  /** `str(requirement)`: `name==version (source)`. */
  function Str(q: Requirement): string
  {
    q.name + "==" + q.version + " (" + Paths.Str(q.source) + ")"
  }

  /** For a name without `=`, the string form splits at its first `==` into the
      name and the rest, which starts with the version. */
  lemma StrSplitsAtName(q: Requirement)
    requires '=' !in q.name
    ensures Strings.SplitOnce(Str(q), "==") == Some((q.name, q.version + " (" + Paths.Str(q.source) + ")"))
  {
    var s := Str(q);
    var n := |q.name|;
    assert s == q.name + "==" + (q.version + " (" + Paths.Str(q.source) + ")");
    assert Strings.OccursAt(s, "==", n) by {
      assert s[n..n + 2] == "==";
    }
    forall k | 0 <= k < n ensures !Strings.OccursAt(s, "==", k) {
      if k + 2 <= |s| {
        assert s[k..k + 2][0] == q.name[k];
      }
    }
    var j := Strings.FindFirst(s, "==");
    assert j.Some?;
    assert j.value == n;
    assert s[..n] == q.name;
  }

  // ---------------------------------------------------------------------------
  // `_read_non_empty_lines`

  /** The lines of a file, stripped, without the blank ones, in order. */
  function NonEmptyLines(lines: seq<string>): (r: seq<string>)
    ensures |r| <= |lines|
    ensures forall i :: 0 <= i < |r| ==> r[i] != ""
  {
    if lines == [] then []
    else
      var line := Strings.Strip(lines[0]);
      (if line == "" then [] else [line]) + NonEmptyLines(lines[1..])
  }

  /** Every line kept is stripped already. */
  lemma {:induction false} NonEmptyLinesStripped(lines: seq<string>)
    ensures forall i :: 0 <= i < |NonEmptyLines(lines)| ==> Strings.Strip(NonEmptyLines(lines)[i]) == NonEmptyLines(lines)[i]
  {
    if lines != [] {
      var r, rest := NonEmptyLines(lines), NonEmptyLines(lines[1..]);
      var head := Strings.Strip(lines[0]);
      NonEmptyLinesStripped(lines[1..]);
      var d := if head == "" then 0 else 1;
      assert r == (if head == "" then [] else [head]) + rest;
      forall i | 0 <= i < |r| ensures Strings.Strip(r[i]) == r[i] {
        if i < d {
          assert r[i] == head;
          Strings.StripIdempotent(lines[0]);
        } else {
          assert r[i] == rest[i - d];
        }
      }
    }
  }

  /** Dropping blank lines keeps the order: the lines of a concatenation are the
      lines of the first part followed by those of the second. */
  lemma {:induction false} NonEmptyLinesAppend(a: seq<string>, b: seq<string>)
    ensures NonEmptyLines(a + b) == NonEmptyLines(a) + NonEmptyLines(b)
  {
    if a == [] {
      assert a + b == b;
    } else {
      assert (a + b)[0] == a[0] && (a + b)[1..] == a[1..] + b;
      NonEmptyLinesAppend(a[1..], b);
    }
  }

  /** A line is kept exactly when it is not blank, and then it is kept stripped. */
  lemma NonEmptyLinesOne(line: string)
    ensures NonEmptyLines([line]) == if Strings.Strip(line) == "" then [] else [Strings.Strip(line)]
  {
    assert [line][1..] == [];
  }

  /** One more line adds its stripped text at the end, unless it is blank. */
  lemma NonEmptyLinesSnoc(lines: seq<string>, i: nat)
    requires i < |lines|
    ensures Strings.Strip(lines[i]) == "" ==> NonEmptyLines(lines[..i + 1]) == NonEmptyLines(lines[..i])
    ensures Strings.Strip(lines[i]) != "" ==>
      NonEmptyLines(lines[..i + 1]) == NonEmptyLines(lines[..i]) + [Strings.Strip(lines[i])]
  {
    assert lines[..i + 1] == lines[..i] + [lines[i]];
    NonEmptyLinesAppend(lines[..i], [lines[i]]);
    NonEmptyLinesOne(lines[i]);
  }

  /** The text of a file as `readlines()` cuts it, at each line break. */
  function FileLines(files: map<Paths.Path, string>, path: Paths.Path): seq<string>
    requires path in files
  {
    Strings.Split(files[path], '\n')
  }

  /** `_read_non_empty_lines(path)`: every line of the file, stripped, in order,
      blank ones left out; a missing file is an error. */
  method ReadNonEmptyLines(files: map<Paths.Path, string>, path: Paths.Path)
    returns (r: Result<seq<string>, RequirementsError>)
    ensures r.Err? <==> path !in files
    ensures r.Err? ==> r.error == FileNotFound(path)
    ensures r.Ok? ==> r.value == NonEmptyLines(FileLines(files, path))
  {
    if path !in files {
      return Err(FileNotFound(path));
    }
    var kept := KeepNonEmpty(FileLines(files, path));
    return Ok(kept);
  }

  /** The loop over `readlines()`: each line stripped, kept when non-empty. */
  method KeepNonEmpty(lines: seq<string>) returns (kept: seq<string>)
    ensures kept == NonEmptyLines(lines)
  {
    kept := [];
    var i := 0;
    while i < |lines|
      invariant 0 <= i <= |lines|
      invariant kept == NonEmptyLines(lines[..i])
    {
      var line := Strings.Strip(lines[i]);
      NonEmptyLinesSnoc(lines, i);
      if line != "" {
        kept := kept + [line];
      }
      i := i + 1;
    }
    assert lines[..i] == lines;
  }

  // ---------------------------------------------------------------------------
  // `get`

  /** The yields of one part followed by those of the next, or the first error. */
  function Chain(a: Result<seq<Requirement>, RequirementsError>, b: Result<seq<Requirement>, RequirementsError>)
    : Result<seq<Requirement>, RequirementsError>
  {
    match a
    case Err(e) => Err(e)
    case Ok(x) =>
      match b
      case Err(e) => Err(e)
      case Ok(y) => Ok(x + y)
  }

  lemma ChainAssoc(a: Result<seq<Requirement>, RequirementsError>, b: Result<seq<Requirement>, RequirementsError>,
                   c: Result<seq<Requirement>, RequirementsError>)
    ensures Chain(Chain(a, b), c) == Chain(a, Chain(b, c))
  {
    if a.Ok? && b.Ok? && c.Ok? {
      assert a.value + b.value + c.value == a.value + (b.value + c.value);
    }
  }

  /** `name, version = line.split("==", 1)`: the line is the name, `==` and the
      version, and the name holds no `==`; without a `==` the unpacking fails. */
  function ParseRequirement(line: string, source: Paths.Path): (r: Result<Requirement, RequirementsError>)
    ensures r.Ok? <==> Strings.FindFirst(line, "==").Some?
    ensures r.Ok? ==> r.value.name + "==" + r.value.version == line
    ensures r.Ok? ==> Strings.FindFirst(r.value.name, "==").None? && r.value.source == source
    ensures r.Ok? ==> Strings.FindFirst(line, "==") == Some(|r.value.name|)
    ensures r.Err? ==> r.error == BadRequirement(line)
  {
    match Strings.SplitOnce(line, "==")
    case None => Err(BadRequirement(line))
    case Some((name, version)) => Ok(Requirement(name, version, source))
  }

  /** The requirements of one line of `source`: a `-r` line expands to those of
      the file it names, relative to the directory of `source`; any other line is
      a single requirement. */
  function GetLine(files: map<Paths.Path, string>, source: Paths.Path, line: string, fuel: nat)
    : (r: Result<seq<Requirement>, RequirementsError>)
    requires source in files
    ensures r.Ok? ==> forall i :: 0 <= i < |r.value| ==> r.value[i].source in files
    decreases fuel, 0, 0
  {
    if "-r" <= line then
      var parts := Strings.Split(line, ' ');
      if |parts| != 2 then Err(BadInclude(line))
      else if fuel == 0 then Err(OutOfFuel)
      else GetFile(files, Paths.Join(Paths.Parent(source), parts[1]), fuel - 1)
    else
      var q :- ParseRequirement(line, source);
      Ok([q])
  }

  /** The requirements of the lines of `source`, in order. */
  function GetLines(files: map<Paths.Path, string>, source: Paths.Path, lines: seq<string>, fuel: nat)
    : (r: Result<seq<Requirement>, RequirementsError>)
    requires source in files
    ensures r.Ok? ==> forall i :: 0 <= i < |r.value| ==> r.value[i].source in files
    decreases fuel, 0, |lines|
  {
    if lines == [] then Ok([])
    else Chain(GetLine(files, source, lines[0], fuel), GetLines(files, source, lines[1..], fuel))
  }

  /** `get(path)`: the requirements of the non-empty lines of the file, with every
      include expanded in place. Each requirement comes from a file that exists. */
  function GetFile(files: map<Paths.Path, string>, path: Paths.Path, fuel: nat)
    : (r: Result<seq<Requirement>, RequirementsError>)
    ensures r.Ok? ==> path in files
    ensures r.Ok? ==> forall i :: 0 <= i < |r.value| ==> r.value[i].source in files
    decreases fuel, 1, 0
  {
    if path !in files then Err(FileNotFound(path))
    else GetLines(files, path, NonEmptyLines(FileLines(files, path)), fuel)
  }

  /** `get()`: without an argument, `requirements.txt` in the working directory. */
  function Get(files: map<Paths.Path, string>, requirementsTxt: Option<Paths.Path>, fuel: nat)
    : (r: Result<seq<Requirement>, RequirementsError>)
    ensures requirementsTxt.None? ==> r == GetFile(files, Paths.Parse("requirements.txt"), fuel)
    ensures r.Ok? ==> forall i :: 0 <= i < |r.value| ==> r.value[i].source in files
  {
    GetFile(files, if requirementsTxt.Some? then requirementsTxt.value else Paths.Parse("requirements.txt"), fuel)
  }

  /** Lines are read in order: the requirements of a concatenation of lines are
      those of the first part followed by those of the second. */
  lemma {:induction false} GetLinesAppend(files: map<Paths.Path, string>, source: Paths.Path,
                                          a: seq<string>, b: seq<string>, fuel: nat)
    requires source in files
    ensures GetLines(files, source, a + b, fuel) == Chain(GetLines(files, source, a, fuel), GetLines(files, source, b, fuel))
  {
    if a == [] {
      assert a + b == b;
      var r := GetLines(files, source, b, fuel);
      if r.Ok? {
        assert [] + r.value == r.value;
      }
    } else {
      assert (a + b)[0] == a[0] && (a + b)[1..] == a[1..] + b;
      GetLinesAppend(files, source, a[1..], b, fuel);
      ChainAssoc(GetLine(files, source, a[0], fuel), GetLines(files, source, a[1..], fuel), GetLines(files, source, b, fuel));
    }
  }

  /** `-r link` for a one-word `link` is an include line of two words. */
  lemma IncludeLine(link: string)
    requires ' ' !in link
    ensures "-r" <= "-r " + link && Strings.Split("-r " + link, ' ') == ["-r", link]
  {
    Strings.SplitAfterPiece("-r", ' ', link);
    Strings.SplitWithoutSep(link, ' ');
    assert "-r " + link == "-r" + [' '] + link;
  }

  /** A line `-r link` is replaced, where it stands, by the requirements of
      `link` next to the current file. */
  lemma IncludeInPlace(files: map<Paths.Path, string>, source: Paths.Path,
                       before: seq<string>, link: string, after: seq<string>, fuel: nat)
    requires source in files && ' ' !in link && fuel > 0
    ensures GetLines(files, source, before + ["-r " + link] + after, fuel)
      == Chain(Chain(GetLines(files, source, before, fuel),
                     GetFile(files, Paths.Join(Paths.Parent(source), link), fuel - 1)),
               GetLines(files, source, after, fuel))
  {
    var line := "-r " + link;
    GetLinesAppend(files, source, before + [line], after, fuel);
    GetLinesAppend(files, source, before, [line], fuel);
    IncludeLine(link);
    var inc := GetFile(files, Paths.Join(Paths.Parent(source), link), fuel - 1);
    assert GetLine(files, source, line, fuel) == inc;
    assert [line][1..] == [];
    if inc.Ok? {
      assert inc.value + [] == inc.value;
    }
  }

  /** A requirement line yields one requirement read from the current file. */
  lemma PinnedLine(files: map<Paths.Path, string>, source: Paths.Path, line: string, fuel: nat)
    requires source in files && !("-r" <= line) && Strings.FindFirst(line, "==").Some?
    ensures var r := GetLines(files, source, [line], fuel);
      && r.Ok? && |r.value| == 1
      && r.value[0].name + "==" + r.value[0].version == line
      && r.value[0].source == source
  {
    assert [line][1..] == [];
    assert [line][0] == line;
  }

  /** A file whose only line includes itself never yields, whatever the fuel:
      the recursion does not end before the fuel does. */
  lemma {:induction false} SelfIncludeFails(files: map<Paths.Path, string>, p: Paths.Path, fuel: nat)
    requires p in files && p.parts != [] && Paths.IsComponent(Paths.Name(p)) && ' ' !in Paths.Name(p)
    requires NonEmptyLines(FileLines(files, p)) == ["-r " + Paths.Name(p)]
    ensures GetFile(files, p, fuel) == Err(OutOfFuel)
  {
    if fuel > 0 {
      SelfIncludeFails(files, p, fuel - 1);
    }
    SelfIncludeStep(files, p, fuel);
  }

  /** One round of the self-include: the file yields what it yields with one
      unit of fuel less, and runs out when there is none. */
  lemma SelfIncludeStep(files: map<Paths.Path, string>, p: Paths.Path, fuel: nat)
    requires p in files && p.parts != [] && Paths.IsComponent(Paths.Name(p)) && ' ' !in Paths.Name(p)
    requires NonEmptyLines(FileLines(files, p)) == ["-r " + Paths.Name(p)]
    requires fuel > 0 ==> GetFile(files, p, fuel - 1) == Err(OutOfFuel)
    ensures GetFile(files, p, fuel) == Err(OutOfFuel)
  {
    var link := Paths.Name(p);
    var line := "-r " + link;
    assert GetFile(files, p, fuel) == GetLines(files, p, [line], fuel);
    OneLine(files, p, line, fuel);
    IncludeStep(files, p, link, fuel);
    JoinNameToParent(p);
  }

  /** A path is its name joined to its parent. */
  lemma JoinNameToParent(p: Paths.Path)
    requires p.parts != [] && Paths.IsComponent(Paths.Name(p))
    ensures Paths.Join(Paths.Parent(p), Paths.Name(p)) == p
  {
    var parent := Paths.Parent(p);
    assert p.parts == parent.parts + [Paths.Name(p)];
    Paths.JoinComponent(parent, Paths.Name(p));
  }

  /** A file of one line yields what that line yields. */
  lemma OneLine(files: map<Paths.Path, string>, source: Paths.Path, line: string, fuel: nat)
    requires source in files
    ensures GetLines(files, source, [line], fuel) == GetLine(files, source, line, fuel)
  {
    assert [line][1..] == [];
    var r := GetLine(files, source, line, fuel);
    if r.Ok? {
      assert r.value + [] == r.value;
    }
  }

  /** An include line costs one unit of fuel, and fails when there is none left. */
  lemma IncludeStep(files: map<Paths.Path, string>, source: Paths.Path, link: string, fuel: nat)
    requires source in files && ' ' !in link
    ensures GetLine(files, source, "-r " + link, fuel)
      == if fuel == 0 then Err(OutOfFuel) else GetFile(files, Paths.Join(Paths.Parent(source), link), fuel - 1)
  {
    IncludeLine(link);
  }

  // ---------------------------------------------------------------------------
  // `get_updates` and `update`

  /** The latest version PyPI reports for a package name. */
  type Latest = string -> string

  /** `get_updates`: each requirement with its latest version, kept only when
      that differs from the pinned one, in order. */
  function Updates(reqs: seq<Requirement>, latest: Latest): (r: seq<(Requirement, string)>)
    ensures |r| <= |reqs|
    ensures forall i :: 0 <= i < |r| ==> r[i].1 == latest(r[i].0.name) && r[i].1 != r[i].0.version
  {
    if reqs == [] then []
    else
      var q := reqs[0];
      (if latest(q.name) != q.version then [(q, latest(q.name))] else []) + Updates(reqs[1..], latest)
  }

  /** The updates are exactly the requirements whose latest version differs
      from the pinned one, each with that latest version. */
  lemma {:induction false} UpdatesOf(reqs: seq<Requirement>, latest: Latest)
    ensures forall i :: 0 <= i < |Updates(reqs, latest)| ==>
      && Updates(reqs, latest)[i].0 in reqs
      && Updates(reqs, latest)[i].1 == latest(Updates(reqs, latest)[i].0.name)
      && Updates(reqs, latest)[i].1 != Updates(reqs, latest)[i].0.version
    ensures forall q :: q in reqs && latest(q.name) != q.version ==> (q, latest(q.name)) in Updates(reqs, latest)
  {
    if reqs != [] {
      UpdatesOf(reqs[1..], latest);
      var q := reqs[0];
      var head := if latest(q.name) != q.version then [(q, latest(q.name))] else [];
      var rest := Updates(reqs[1..], latest);
      var r := Updates(reqs, latest);
      assert r == head + rest;
      forall i | 0 <= i < |r| ensures r[i].0 in reqs && r[i].1 == latest(r[i].0.name) && r[i].1 != r[i].0.version {
        if i < |head| {
          assert r[i] == head[i];
        } else {
          assert r[i] == rest[i - |head|];
          assert rest[i - |head|].0 in reqs[1..];
        }
      }
      forall x | x in reqs && latest(x.name) != x.version ensures (x, latest(x.name)) in r {
        if x == q {
          assert r[0] == (x, latest(x.name));
        } else {
          assert x in reqs[1..];
          var k :| 0 <= k < |rest| && rest[k] == (x, latest(x.name));
          assert r[k + |head|] == rest[k];
        }
      }
      forall x | x in reqs ensures x == q || x in reqs[1..] {
        var k :| 0 <= k < |reqs| && reqs[k] == x;
        if k > 0 {
          assert reqs[1..][k - 1] == x;
        }
      }
      forall x | x in reqs[1..] ensures x in reqs {
        var k :| 0 <= k < |reqs[1..]| && reqs[1..][k] == x;
        assert reqs[k + 1] == x;
      }
    }
  }

  /** Filtering keeps the order: the updates of a concatenation are the updates
      of the first part followed by those of the second. */
  lemma {:induction false} UpdatesAppend(a: seq<Requirement>, b: seq<Requirement>, latest: Latest)
    ensures Updates(a + b, latest) == Updates(a, latest) + Updates(b, latest)
  {
    if a == [] {
      assert a + b == b;
    } else {
      assert (a + b)[0] == a[0] && (a + b)[1..] == a[1..] + b;
      UpdatesAppend(a[1..], b, latest);
      var q := a[0];
      var head := if latest(q.name) != q.version then [(q, latest(q.name))] else [];
      assert Updates(a + b, latest) == head + Updates(a[1..] + b, latest);
      assert Updates(a, latest) == head + Updates(a[1..], latest);
      assert head + (Updates(a[1..], latest) + Updates(b, latest))
        == (head + Updates(a[1..], latest)) + Updates(b, latest);
    }
  }

  /** The line `update` yields for an update: `name: old => new`. */
  function Announcement(u: (Requirement, string)): string
  {
    u.0.name + ": " + u.0.version + " => " + u.1
  }

  /** A line of a requirements file after an update from pin `pin` to pin
      `repin`: the line that is `pin`, up to surrounding whitespace, becomes
      `repin`; any other line is kept. */
  function PinLine(line: string, pin: string, repin: string): string
  {
    if Strings.Strip(line) == pin then repin else line
  }

  /** The lines of a file after an update: each line on its own. */
  function PinLines(lines: seq<string>, pin: string, repin: string): (r: seq<string>)
    ensures |r| == |lines|
  {
    seq(|lines|, i requires 0 <= i < |lines| => PinLine(lines[i], pin, repin))
  }

  /** The rewrite of a file's text for one update, line by line. */
  function RewritePin(text: string, u: (Requirement, string)): string
  {
    Strings.Join(PinLines(Strings.Split(text, '\n'), u.0.name + "==" + u.0.version, u.0.name + "==" + u.1), '\n')
  }

  /** After the rewrite, the file has the same lines as before except that the
      lines pinning the old version pin the new one. */
  lemma RewritePinLines(text: string, u: (Requirement, string))
    requires '\n' !in u.0.name && '\n' !in u.1
    ensures var pin, repin := u.0.name + "==" + u.0.version, u.0.name + "==" + u.1;
      var before, after := Strings.Split(text, '\n'), Strings.Split(RewritePin(text, u), '\n');
      && |after| == |before|
      && forall i :: 0 <= i < |after| ==> after[i] == PinLine(before[i], pin, repin)
  {
    var pin, repin := u.0.name + "==" + u.0.version, u.0.name + "==" + u.1;
    var before := Strings.Split(text, '\n');
    var lines := PinLines(before, pin, repin);
    assert '\n' !in repin by {
      assert repin == u.0.name + ("==" + u.1);
    }
    forall i | 0 <= i < |lines| ensures '\n' !in lines[i] {
      assert lines[i] == PinLine(before[i], pin, repin);
    }
    Strings.SplitJoin(lines, '\n');
  }

  /** The text `update` writes back, as the source computes it: every occurrence
      of `name==old` in the file replaced, wherever it stands. */
  function RewriteAsWritten(text: string, u: (Requirement, string)): string
  {
    Strings.Replace(text, u.0.name + "==" + u.0.version, u.0.name + "==" + u.1)
  }

  /** The rewrite `update` applies to a file for one update: the source's
      `str.replace` when `asWritten`, the corrected line-wise rewrite otherwise. */
  function Rewrite(text: string, u: (Requirement, string), asWritten: bool): string
  {
    if asWritten then RewriteAsWritten(text, u) else RewritePin(text, u)
  }

  /** Text that starts with `a`, in which no occurrence of `pat` begins, is
      replaced only after `a`. */
  lemma {:induction false} ReplaceAfter(a: string, b: string, pat: string, rep: string)
    requires |pat| > 0
    requires forall i :: 0 <= i < |a| ==> !(pat <= (a + b)[i..])
    ensures Strings.Replace(a + b, pat, rep) == a + Strings.Replace(b, pat, rep)
  {
    var s := a + b;
    if a == [] {
      assert s == b;
    } else {
      assert s[0..] == s;
      ReplaceSkip(s, pat, rep);
      assert s[1..] == a[1..] + b;
      forall i | 0 <= i < |a[1..]| ensures !(pat <= (a[1..] + b)[i..]) {
        assert (a[1..] + b)[i..] == s[i + 1..];
      }
      ReplaceAfter(a[1..], b, pat, rep);
      assert [a[0]] + (a[1..] + Strings.Replace(b, pat, rep)) == a + Strings.Replace(b, pat, rep);
    }
  }

  /** Text that does not start with `pat` keeps its first character. */
  lemma ReplaceSkip(s: string, pat: string, rep: string)
    requires |pat| > 0 && s != [] && !(pat <= s)
    ensures Strings.Replace(s, pat, rep) == [s[0]] + Strings.Replace(s[1..], pat, rep)
  {
    if |s| < |pat| {
      assert Strings.Replace(s[1..], pat, rep) == s[1..];
      assert [s[0]] + s[1..] == s;
    }
  }

  /** Text in which `pat` does not begin inside `prefix`, followed by `pat`: the
      first replacement lands right after `prefix`. */
  lemma ReplaceAfterPrefix(prefix: string, rest: string, pat: string, rep: string)
    requires |pat| > 0
    requires forall i :: 0 <= i < |prefix| ==> !(pat <= (prefix + (pat + rest))[i..])
    ensures Strings.Replace(prefix + (pat + rest), pat, rep) == prefix + (rep + Strings.Replace(rest, pat, rep))
  {
    ReplaceAfter(prefix, pat + rest, pat, rep);
    assert pat <= pat + rest && (pat + rest)[|pat|..] == rest;
  }

  /** The source's rewrite also changes a line that pins another package whose
      name ends with the updated one: updating `mock` from 1.0 to 2.0 in a file
      holding `pytest-mock==1.0` and `mock==1.0` rewrites both lines. */
  lemma RewriteAsWrittenOverreaches(other: string, u: (Requirement, string))
    requires u.0.name != "" && u.0.name[0] != '\n' && other != ""
    requires forall i :: 0 <= i < |other| ==> other[i] != u.0.name[0]
    ensures var pin, repin := u.0.name + "==" + u.0.version, u.0.name + "==" + u.1;
      RewriteAsWritten(other + (pin + ("\n" + pin)), u) == other + (repin + ("\n" + repin))
  {
    var pin, repin := u.0.name + "==" + u.0.version, u.0.name + "==" + u.1;
    assert pin[0] == u.0.name[0];
    forall i | 0 <= i < |other| ensures !(pin <= (other + (pin + ("\n" + pin)))[i..]) {
      assert (other + (pin + ("\n" + pin)))[i..][0] == other[i];
    }
    ReplaceAfterPrefix(other, "\n" + pin, pin, repin);
    assert !(pin <= ("\n" + (pin + ""))[0..]) by {
      assert ("\n" + (pin + ""))[0..][0] == '\n';
    }
    ReplaceAfterPrefix("\n", "", pin, repin);
    assert "\n" + (pin + "") == "\n" + pin;
    assert Strings.Replace("", pin, repin) == "";
    assert "\n" + (repin + "") == "\n" + repin;
  }

  /** The files after a sequence of updates, each one rewriting its source as it
      stands after the previous ones. */
  function Rewritten(files: map<Paths.Path, string>, updates: seq<(Requirement, string)>, asWritten: bool)
    : (r: map<Paths.Path, string>)
    ensures r.Keys == files.Keys
    ensures forall p :: p in files && (forall k :: 0 <= k < |updates| ==> updates[k].0.source != p) ==> r[p] == files[p]
  {
    if updates == [] then files
    else
      var u := updates[|updates| - 1];
      var before := Rewritten(files, updates[..|updates| - 1], asWritten);
      if u.0.source in before then before[u.0.source := Rewrite(before[u.0.source], u, asWritten)] else before
  }

  /** One more update rewrites the file it names, on top of the earlier ones. */
  lemma RewrittenSnoc(files: map<Paths.Path, string>, updates: seq<(Requirement, string)>, asWritten: bool, i: nat)
    requires i < |updates|
    ensures var before := Rewritten(files, updates[..i], asWritten);
      var source := updates[i].0.source;
      Rewritten(files, updates[..i + 1], asWritten)
        == if source in before then before[source := Rewrite(before[source], updates[i], asWritten)] else before
  {
    assert updates[..i + 1][..i] == updates[..i];
  }

  /** Text files that `update` reads and writes back. */
  class TextFiles {
    var files: map<Paths.Path, string>

    constructor (files: map<Paths.Path, string>)
      ensures this.files == files
    {
      this.files := files;
    }

    /** `path.write_text(text)`. */
    method WriteText(path: Paths.Path, text: string)
      modifies this
      ensures files == old(files)[path := text]
    {
      files := files[path := text];
    }
  }

  /** Every update names a requirement read from one of `files`. */
  lemma UpdatesSources(reqs: seq<Requirement>, latest: Latest, files: map<Paths.Path, string>)
    requires forall i :: 0 <= i < |reqs| ==> reqs[i].source in files
    ensures forall k :: 0 <= k < |Updates(reqs, latest)| ==> Updates(reqs, latest)[k].0.source in files
  {
    UpdatesOf(reqs, latest);
  }

  /** One round of `update()`: the line for update `i`, and its source rewritten. */
  method UpdateOne(store: TextFiles, updates: seq<(Requirement, string)>, asWritten: bool, i: nat,
                   ghost files0: map<Paths.Path, string>, lines: seq<string>) returns (lines': seq<string>)
    requires i < |updates| && updates[i].0.source in files0
    requires store.files == Rewritten(files0, updates[..i], asWritten)
    requires Announced(lines, updates, i)
    modifies store
    ensures store.files == Rewritten(files0, updates[..i + 1], asWritten)
    ensures Announced(lines', updates, i + 1)
  {
    RewrittenSnoc(files0, updates, asWritten, i);
    lines' := lines + [Announcement(updates[i])];
    forall k | 0 <= k < i + 1 ensures lines'[k] == Announcement(updates[k]) {
      if k < i { assert lines'[k] == lines[k]; }
    }
    var source := updates[i].0.source;
    store.WriteText(source, Rewrite(store.files[source], updates[i], asWritten));
  }

  /** `lines` are the announcements of the first `n` updates, in order. */
  ghost predicate Announced(lines: seq<string>, updates: seq<(Requirement, string)>, n: nat)
  {
    n <= |updates| && |lines| == n && forall k :: 0 <= k < n ==> lines[k] == Announcement(updates[k])
  }

  /** `update()`: for every requirement with a newer release, the line
      `name: old => new`, and its pin rewritten in its source file. Files that no
      requirement comes from are not touched. With `asWritten` the pin is
      rewritten by `str.replace` as the source does; otherwise by the corrected
      line-wise rewrite. */
  method Update(store: TextFiles, latest: Latest, fuel: nat, asWritten: bool)
    returns (r: Result<seq<string>, RequirementsError>)
    modifies store
    ensures var reqs := Get(old(store.files), None, fuel);
      && (r.Err? <==> reqs.Err?)
      && (r.Err? ==> r.error == reqs.error && store.files == old(store.files))
      && (r.Ok? ==> var updates := Updates(reqs.value, latest);
            && |r.value| == |updates|
            && (forall i :: 0 <= i < |updates| ==> r.value[i] == Announcement(updates[i]))
            && store.files == Rewritten(old(store.files), updates, asWritten))
  {
    var reqs := Get(store.files, None, fuel);
    if reqs.Err? {
      return Err(reqs.error);
    }
    var updates := Updates(reqs.value, latest);
    UpdatesSources(reqs.value, latest, store.files);
    var lines := RewriteAll(store, updates, asWritten);
    return Ok(lines);
  }

  /** The loop of `update()` over the updates found: one line each, and each
      update's source file rewritten, in order. */
  method RewriteAll(store: TextFiles, updates: seq<(Requirement, string)>, asWritten: bool)
    returns (lines: seq<string>)
    requires forall k :: 0 <= k < |updates| ==> updates[k].0.source in store.files
    modifies store
    ensures |lines| == |updates| && forall k :: 0 <= k < |updates| ==> lines[k] == Announcement(updates[k])
    ensures store.files == Rewritten(old(store.files), updates, asWritten)
  {
    ghost var files0 := store.files;
    lines := [];
    var i := 0;
    assert updates[..0] == [];
    while i < |updates|
      invariant 0 <= i <= |updates|
      invariant store.files == Rewritten(files0, updates[..i], asWritten)
      invariant Announced(lines, updates, i)
    {
      lines := UpdateOne(store, updates, asWritten, i, files0, lines);
      i := i + 1;
    }
    assert updates[..i] == updates;
  }
}
