/** The pip adapter shim (scriptenv/pip.py): the argument lists handed to pip, the
    rule that a non-zero return code becomes a `PipError`, and the scan of pip's
    captured output for the names of downloaded distribution files. pip itself is an
    oracle: a function from a command and its arguments to a return code and the
    text it printed. */
module Pip {
  import opened Wrappers
  import Paths

  /** The return code of one pip command and everything it printed to stdout. */
  datatype Completed = Completed(returnCode: int, stdout: string)

  /** `create_command(command).main(args)` with stdout captured. */
  type Runner = (string, seq<string>) -> Completed

  /** The exception raised for a failing pip command, carrying its return code. */
  datatype PipError = PipError(exitCode: int)

  /** One call into pip, as recorded by the adapter. */
  datatype Invocation = Invocation(command: string, args: seq<string>)

  /** `_pip(command, *args)`: pip's captured stdout, or a `PipError` carrying the
      return code exactly when that code is non-zero. */
  function RunPip(run: Runner, command: string, args: seq<string>): (r: Result<string, PipError>)
    ensures r.Err? <==> run(command, args).returnCode != 0
    ensures r.Err? ==> r.error == PipError(run(command, args).returnCode)
    ensures r.Ok? ==> r.value == run(command, args).stdout
  {
    var done := run(command, args);
    if done.returnCode != 0 then Err(PipError(done.returnCode)) else Ok(done.stdout)
  }

  /** The arguments of `pip download`: the destination, then the requirements. */
  function DownloadArgs(requirements: seq<string>, dest: Paths.Path): (args: seq<string>)
    ensures |args| == 2 + |requirements|
    ensures args[..2] == ["--dest", Paths.Str(dest)] && args[2..] == requirements
  {
    ["--dest", Paths.Str(dest)] + requirements
  }

  /** The arguments of `pip install`: no dependencies, not into the user site, into
      `target`, the single distribution file `package`. */
  function InstallArgs(package: Paths.Path, target: Paths.Path): (args: seq<string>)
    ensures |args| == 5 && args[3] == Paths.Str(target) && args[4] == Paths.Str(package)
    ensures args[0] == "--no-deps" && args[1] == "--no-user" && args[2] == "--target"
  {
    ["--no-deps", "--no-user", "--target", Paths.Str(target), Paths.Str(package)]
  }

  /** `download(requirements, dest)`: the set of distribution file names found in
      pip's output. Each of them is a well-formed name; a failing pip run gives its
      `PipError` instead. */
  function DownloadOutcome(run: Runner, requirements: seq<string>, dest: Paths.Path)
    : (r: Result<set<string>, PipError>)
    ensures r.Err? <==> run("download", DownloadArgs(requirements, dest)).returnCode != 0
    ensures r.Ok? ==> forall n :: n in r.value ==> ValidName(n)
  {
    match RunPip(run, "download", DownloadArgs(requirements, dest))
    case Err(e) => Err(e)
    case Ok(out) =>
      NamesAreValid(out);
      Ok(PackageNames(out))
  }

  /** `install(package, target)`: nothing, or the `PipError` of a failing run. */
  function InstallOutcome(run: Runner, package: Paths.Path, target: Paths.Path)
    : (r: Result<(), PipError>)
    ensures r.Err? <==> run("install", InstallArgs(package, target)).returnCode != 0
  {
    match RunPip(run, "install", InstallArgs(package, target))
    case Err(e) => Err(e)
    case Ok(_) => Ok(())
  }

  /** The pip module as the rest of the core sees it: the pip oracle and, for the
      proofs, the log of every command run through it. */
  class Adapter {
    const run: Runner
    ghost var calls: seq<Invocation>

    constructor (run: Runner)
      ensures this.run == run && calls == []
    {
      this.run := run;
      calls := [];
    }

    /** One `pip download` run, logged. */
    method Download(requirements: seq<string>, dest: Paths.Path)
      returns (r: Result<set<string>, PipError>)
      modifies this
      ensures calls == old(calls) + [Invocation("download", DownloadArgs(requirements, dest))]
      ensures r == DownloadOutcome(run, requirements, dest)
    {
      calls := calls + [Invocation("download", DownloadArgs(requirements, dest))];
      r := DownloadOutcome(run, requirements, dest);
    }

    /** One `pip install` run, logged. */
    method Install(package: Paths.Path, target: Paths.Path) returns (r: Result<(), PipError>)
      modifies this
      ensures calls == old(calls) + [Invocation("install", InstallArgs(package, target))]
      ensures r == InstallOutcome(run, package, target)
    {
      calls := calls + [Invocation("install", InstallArgs(package, target))];
      r := InstallOutcome(run, package, target);
    }
  }

  // The scan of `PackageNamePattern`, `(/|\\)(?P<name>[^(/|\\)]+?(\.tar\.gz|\.whl))`,
  // over pip's output with `finditer`.

  /** The first group: a forward or a backward slash. */
  predicate IsSeparator(c: char)
  {
    c == '/' || c == '\\'
  }

  /** The character class `[^(/|\\)]`: anything but `(`, `/`, `|`, `\` and `)`. */
  predicate IsStemChar(c: char)
  {
    c != '(' && c != '/' && c != '|' && c != '\\' && c != ')'
  }

  /** `.tar.gz` stands in `s` at index `k`. */
  predicate TarGzAt(s: string, k: nat)
  {
    && k + 7 <= |s|
    && s[k] == '.' && s[k + 1] == 't' && s[k + 2] == 'a' && s[k + 3] == 'r'
    && s[k + 4] == '.' && s[k + 5] == 'g' && s[k + 6] == 'z'
  }

  /** `.whl` stands in `s` at index `k`. */
  predicate WhlAt(s: string, k: nat)
  {
    k + 4 <= |s| && s[k] == '.' && s[k + 1] == 'w' && s[k + 2] == 'h' && s[k + 3] == 'l'
  }

  /** The length of the extension `(\.tar\.gz|\.whl)` that starts at index `k` of
      `s`, or 0 when neither does. */
  function ExtensionAt(s: string, k: nat): (n: nat)
    ensures n == 0 <==> !TarGzAt(s, k) && !WhlAt(s, k)
    ensures n > 0 ==> k + n <= |s|
  {
    if TarGzAt(s, k) then 7 else if WhlAt(s, k) then 4 else 0
  }

  /** A non-zero length is that of the extension spelled out at `k`. */
  lemma ExtensionSpelled(s: string, k: nat)
    ensures ExtensionAt(s, k) == 7 <==> k + 7 <= |s| && s[k..k + 7] == ".tar.gz"
    ensures ExtensionAt(s, k) == 4 <==> k + 4 <= |s| && s[k..k + 4] == ".whl" && !TarGzAt(s, k)
  {
    if k + 7 <= |s| && s[k..k + 7] == ".tar.gz" {
      var w := s[k..k + 7];
      assert s[k] == w[0] && s[k + 1] == w[1] && s[k + 2] == w[2] && s[k + 3] == w[3];
      assert s[k + 4] == w[4] && s[k + 5] == w[5] && s[k + 6] == w[6];
    }
    if TarGzAt(s, k) {
      assert s[k..k + 7] == ".tar.gz";
    }
    if k + 4 <= |s| && s[k..k + 4] == ".whl" {
      var w := s[k..k + 4];
      assert s[k] == w[0] && s[k + 1] == w[1] && s[k + 2] == w[2] && s[k + 3] == w[3];
    }
    if WhlAt(s, k) {
      assert s[k..k + 4] == ".whl";
    }
  }

  /** The lazy stem `[^(/|\\)]+?` started at an index before `k`, having
      consumed the characters before `k`: the index where the shortest stem that
      is followed by an extension ends, if there is one. */
  function ScanStem(s: string, k: nat): (r: Option<nat>)
    requires k <= |s|
    ensures r.Some? ==> k < r.value <= |s| && ExtensionAt(s, r.value) > 0
    ensures r.Some? ==> forall j :: k <= j < r.value ==> IsStemChar(s[j])
    ensures r.Some? ==> forall j :: k < j < r.value ==> ExtensionAt(s, j) == 0
    decreases |s| - k
  {
    if k < |s| && IsStemChar(s[k]) then
      if ExtensionAt(s, k + 1) > 0 then Some(k + 1) else ScanStem(s, k + 1)
    else None
  }

  /** Where a match of the whole pattern that starts at index `i` ends the stem. */
  function StemEndAt(s: string, i: nat): (r: Option<nat>)
    requires i <= |s|
    ensures r.Some? ==> i < |s| && IsSeparator(s[i]) && i + 1 < r.value <= |s|
  {
    if i < |s| && IsSeparator(s[i]) then ScanStem(s, i + 1) else None
  }

  /** `finditer` from index `i`: every non-overlapping match, left to right, as its
      `name` group (stem and extension). */
  function FindNames(s: string, i: nat): seq<string>
    requires i <= |s|
    decreases |s| - i
  {
    if i == |s| then []
    else match StemEndAt(s, i)
      case None => FindNames(s, i + 1)
      case Some(m) =>
        var e := m + ExtensionAt(s, m);
        [s[i + 1..e]] + FindNames(s, e)
  }

  /** The names that `download` returns for pip's output `stdout`. */
  function PackageNames(stdout: string): set<string>
  {
    set n | n in FindNames(stdout, 0)
  }

  /** The length of the extension a name ends with, or 0. */
  function TrailingExtension(n: string): nat
  {
    if |n| >= 7 && TarGzAt(n, |n| - 7) then 7
    else if |n| >= 4 && WhlAt(n, |n| - 4) then 4
    else 0
  }

  /** What every returned name looks like: a non-empty stem made of stem characters,
      then `.tar.gz` or `.whl`, and no shorter non-empty stem of it is already followed
      by an extension (the stem is lazy). */
  predicate ValidName(n: string)
  {
    var x := TrailingExtension(n);
    && x > 0
    && |n| > x
    && (forall j :: 0 <= j < |n| - x ==> IsStemChar(n[j]))
    && (forall j :: 0 < j < |n| - x ==> ExtensionAt(n, j) == 0)
  }

  /** The name `n` stands in `s` right after the separator at index `i`. */
  predicate NameAfterSeparator(s: string, n: string, i: nat)
  {
    i + 1 + |n| <= |s| && IsSeparator(s[i]) && s[i + 1..i + 1 + |n|] == n
  }

  /** A piece `n` of `s` from `b` on has the extensions of `s` that fit in it. */
  lemma ExtensionInPiece(s: string, b: nat, n: string, j: nat)
    requires b + |n| <= |s| && n == s[b..b + |n|]
    ensures TarGzAt(n, j) ==> TarGzAt(s, b + j)
    ensures WhlAt(n, j) ==> WhlAt(s, b + j)
    ensures j + ExtensionAt(s, b + j) <= |n| ==> ExtensionAt(n, j) == ExtensionAt(s, b + j)
  {
    if j + 4 <= |n| {
      assert n[j] == s[b + j] && n[j + 1] == s[b + j + 1] && n[j + 2] == s[b + j + 2] && n[j + 3] == s[b + j + 3];
    }
    if j + 7 <= |n| {
      assert n[j + 4] == s[b + j + 4] && n[j + 5] == s[b + j + 5] && n[j + 6] == s[b + j + 6];
    }
  }

  /** The name cut from `b` to the end of the extension at `m` ends in that
      extension. */
  lemma NameTail(s: string, b: nat, m: nat)
    requires b < m <= |s| && ExtensionAt(s, m) > 0
    ensures TrailingExtension(s[b..m + ExtensionAt(s, m)]) == ExtensionAt(s, m)
  {
    var x := ExtensionAt(s, m);
    var n := s[b..m + x];
    ExtensionInPiece(s, b, n, m - b);
    if x == 4 && |n| >= 7 {
      assert n[|n| - 1] == s[m + 3] == 'l';
    }
  }

  /** The text from `b` to `m` is a lazy stem and an extension starts at `m`: the
      two together form a valid name. */
  lemma StemAndExtensionValid(s: string, b: nat, m: nat)
    requires b < m <= |s| && ExtensionAt(s, m) > 0
    requires forall j :: b <= j < m ==> IsStemChar(s[j])
    requires forall j :: b < j < m ==> ExtensionAt(s, j) == 0
    ensures ValidName(s[b..m + ExtensionAt(s, m)])
  {
    var x := ExtensionAt(s, m);
    var n := s[b..m + x];
    NameTail(s, b, m);
    assert |n| - x == m - b;
    forall j | 0 < j < |n| - x ensures ExtensionAt(n, j) == 0 {
      ExtensionInPiece(s, b, n, j);
    }
    forall j | 0 <= j < |n| - x ensures IsStemChar(n[j]) {
      assert n[j] == s[b + j];
    }
  }

  /** The name cut out of a match is a valid name. */
  lemma MatchIsValidName(s: string, i: nat, m: nat)
    requires i <= |s| && StemEndAt(s, i) == Some(m)
    ensures ValidName(s[i + 1..m + ExtensionAt(s, m)])
  {
    assert ScanStem(s, i + 1) == Some(m);
    StemAndExtensionValid(s, i + 1, m);
  }

  /** Every name found from index `i` on is valid. */
  lemma {:induction false} FoundNamesAreValid(s: string, i: nat)
    requires i <= |s|
    ensures forall n :: n in FindNames(s, i) ==> ValidName(n)
    decreases |s| - i
  {
    if i < |s| {
      match StemEndAt(s, i)
      case None =>
        FoundNamesAreValid(s, i + 1);
      case Some(m) =>
        var e := m + ExtensionAt(s, m);
        MatchIsValidName(s, i, m);
        FoundNamesAreValid(s, e);
        assert FindNames(s, i) == [s[i + 1..e]] + FindNames(s, e);
    }
  }

  /** Every name found from index `i` on stands right after a separator at or
      after `i`. */
  lemma {:induction false} FoundNamesFollowSeparators(s: string, i: nat)
    requires i <= |s|
    ensures forall n :: n in FindNames(s, i) ==> exists k :: i <= k && NameAfterSeparator(s, n, k)
    decreases |s| - i
  {
    if i < |s| {
      match StemEndAt(s, i)
      case None =>
        FoundNamesFollowSeparators(s, i + 1);
      case Some(m) =>
        var e := m + ExtensionAt(s, m);
        var name := s[i + 1..e];
        FoundNamesFollowSeparators(s, e);
        assert FindNames(s, i) == [name] + FindNames(s, e);
        assert NameAfterSeparator(s, name, i);
    }
  }

  /** Every name `download` returns ends in `.tar.gz` or `.whl` after a non-empty
      lazy stem free of `/ \ ( ) |`, and stands in pip's output right after a `/`
      or a `\`. */
  lemma NamesAreValid(stdout: string)
    ensures forall n :: n in PackageNames(stdout) ==> ValidName(n)
    ensures forall n :: n in PackageNames(stdout) ==>
      exists k :: NameAfterSeparator(stdout, n, k)
  {
    FoundNamesAreValid(stdout, 0);
    FoundNamesFollowSeparators(stdout, 0);
  }

  /** Output without a slash of either kind names no package. */
  lemma {:induction false} NoSeparatorNoNames(s: string, i: nat)
    requires i <= |s|
    requires forall j :: i <= j < |s| ==> !IsSeparator(s[j])
    ensures FindNames(s, i) == []
    decreases |s| - i
  {
    if i < |s| {
      NoSeparatorNoNames(s, i + 1);
    }
  }

  /** A file that pip reports twice is returned once. */
  lemma RepeatedMention()
    ensures PackageNames("/a.whl\\a.whl") == {"a.whl"}
  {
    var s := "/a.whl\\a.whl";
    assert s[2..][1] == 'w' && s[2..][..4] == ".whl";
    assert ExtensionAt(s, 2) == 4;
    assert StemEndAt(s, 0) == Some(2);
    assert s[8..][1] == 'w' && s[8..][..4] == ".whl";
    assert ExtensionAt(s, 8) == 4;
    assert StemEndAt(s, 6) == Some(8);
    assert FindNames(s, 12) == [];
    assert s[7..12] == "a.whl" && s[1..6] == "a.whl";
    assert FindNames(s, 6) == [s[7..12]] + FindNames(s, 12);
    assert FindNames(s, 6) == ["a.whl"];
    assert FindNames(s, 0) == [s[1..6]] + FindNames(s, 6);
    assert FindNames(s, 0) == ["a.whl", "a.whl"];
  }

  /** The stem stops at the first extension that follows it. */
  lemma LazyStem()
    ensures PackageNames("/a.whl.whl") == {"a.whl"}
  {
    var s := "/a.whl.whl";
    assert s[2..][1] == 'w' && s[2..][..4] == ".whl";
    assert ExtensionAt(s, 2) == 4;
    assert StemEndAt(s, 0) == Some(2);
    assert forall i :: 6 <= i < |s| ==> !IsSeparator(s[i]);
    NoSeparatorNoNames(s, 6);
    assert s[1..6] == "a.whl";
    assert FindNames(s, 0) == [s[1..6]] + FindNames(s, 6);
  }
}
