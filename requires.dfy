/** `requires(*requirements)` (scriptenv/requires.py), the oldest of the three
    variants: the cache lives under a fixed base directory, the lock key is the hash
    of the SORTED requirements, and the install loop puts each install directory in
    front of `sys.path` as soon as that package is done, so `sys.path` ends up
    holding them in reverse iteration order. */
module Requires {
  import opened Wrappers
  import Strings
  import Paths
  import Pip
  import Host
  import Installer
  import Collections
  import Sorting

  /** What `requires` can raise: a failing pip command, or a dependency list path
      that exists as a directory, which `read_text` cannot read. */
  datatype RequiresError = PipFailed(error: Pip.PipError) | IsADirectory(path: string)

  /** `base_path / "download"`. */
  function DownloadPath(base: Paths.Path): Paths.Path
  {
    Paths.Join(base, "download")
  }

  /** `base_path / "install"`. */
  function InstallPath(base: Paths.Path): Paths.Path
  {
    Paths.Join(base, "install")
  }

  /** `base_path / "dependencies"`. */
  function DependenciesPath(base: Paths.Path): Paths.Path
  {
    Paths.Join(base, "dependencies")
  }

  /** The three directories sit directly below the base directory and differ. */
  lemma LayoutUnderBase(base: Paths.Path)
    requires Paths.WellFormed(base)
    ensures Paths.Parent(DownloadPath(base)) == base && Paths.Name(DownloadPath(base)) == "download"
    ensures Paths.Parent(InstallPath(base)) == base && Paths.Name(InstallPath(base)) == "install"
    ensures Paths.Parent(DependenciesPath(base)) == base && Paths.Name(DependenciesPath(base)) == "dependencies"
    ensures Paths.Str(DownloadPath(base)) != Paths.Str(InstallPath(base))
    ensures Paths.Str(DownloadPath(base)) != Paths.Str(DependenciesPath(base))
    ensures Paths.Str(InstallPath(base)) != Paths.Str(DependenciesPath(base))
  {
    Paths.JoinComponent(base, "download");
    Paths.JoinComponent(base, "install");
    Paths.JoinComponent(base, "dependencies");
    Paths.JoinDistinct(base, "download", "install");
    Paths.JoinDistinct(base, "download", "dependencies");
    Paths.JoinDistinct(base, "install", "dependencies");
  }

  /** The hashed text: the sorted requirements joined by newlines. */
  function KeyText(requirements: seq<string>): string
  {
    Strings.Join(Sorting.Sort(requirements), '\n')
  }

  /** The order in which the requirements are given does not matter: any
      rearrangement hashes the same text. */
  lemma KeyTextPermutation(xs: seq<string>, ys: seq<string>)
    requires multiset(xs) == multiset(ys)
    ensures KeyText(xs) == KeyText(ys)
  {
    Sorting.SortPermutation(xs, ys);
  }

  /** `dependencies_path / requirements_hash`. */
  function ListFile(base: Paths.Path, hash: string -> string, requirements: seq<string>): string
  {
    Paths.Str(Paths.Join(DependenciesPath(base), hash(KeyText(requirements))))
  }

  /** What resolving a requirement list yields, judged from the paths and files
      present before: an existing list file gives the set of names it records, and
      a directory of that name an `IsADirectory` error; with no such path, the
      outcome of one download into the download directory. */
  function ResolveOutcome(run: Pip.Runner, present: set<string>, files: map<string, seq<string>>,
                          base: Paths.Path, hash: string -> string, requirements: seq<string>)
    : Result<set<string>, RequiresError>
  {
    var list := ListFile(base, hash, requirements);
    if list in present then
      if list in files then Ok(Collections.Elements(files[list])) else Err(IsADirectory(list))
    else
      match Pip.DownloadOutcome(run, requirements, DownloadPath(base))
      case Err(e) => Err(PipFailed(e))
      case Ok(packages) => Ok(packages)
  }

  /** The pip calls of that resolution: none when the list path exists, one
      download into the download directory otherwise. */
  function ResolveCalls(present: set<string>, base: Paths.Path, hash: string -> string,
                        requirements: seq<string>): seq<Pip.Invocation>
  {
    if ListFile(base, hash, requirements) in present then []
    else [Pip.Invocation("download", Pip.DownloadArgs(requirements, DownloadPath(base)))]
  }

  /** The dependency-list part of `requires`: an existing list is read back as a
      set without calling pip; a missing one is filled from one download into the
      download directory, and the downloaded set itself is used. */
  method ResolvePackages(base: Paths.Path, hash: string -> string, disk: Host.Disk, pip: Pip.Adapter,
                         requirements: seq<string>) returns (r: Result<set<string>, RequiresError>)
    modifies disk, pip
    ensures disk.dirs == old(disk.dirs)
    ensures r == ResolveOutcome(pip.run, old(disk.Present()), old(disk.files), base, hash, requirements)
    ensures pip.calls == old(pip.calls) + ResolveCalls(old(disk.Present()), base, hash, requirements)
    ensures r.Ok? ==> disk.Present() == old(disk.Present()) + {ListFile(base, hash, requirements)}
    ensures var list := ListFile(base, hash, requirements);
      if list in old(disk.Present()) then
        && pip.calls == old(pip.calls)
        && disk.files == old(disk.files)
        && r == (if list in old(disk.files) then Ok(Collections.Elements(old(disk.files)[list]))
                 else Err(IsADirectory(list)))
      else
        && pip.calls == old(pip.calls)
             + [Pip.Invocation("download", Pip.DownloadArgs(requirements, DownloadPath(base)))]
        && match Pip.DownloadOutcome(pip.run, requirements, DownloadPath(base))
           case Err(e) => r == Err(PipFailed(e)) && disk.files == old(disk.files)
           case Ok(packages) =>
             && r == Ok(packages)
             && list in disk.files
             && disk.files == old(disk.files)[list := disk.files[list]]
             && Collections.Elements(disk.files[list]) == packages
             && Collections.Distinct(disk.files[list])
  {
    var list := ListFile(base, hash, requirements);
    if !disk.Exists(list) {
      var downloaded := pip.Download(requirements, DownloadPath(base));
      if downloaded.Err? {
        return Err(PipFailed(downloaded.error));
      }
      var listed := Collections.ListOf(downloaded.value);
      assert Collections.Elements(listed) == downloaded.value;
      disk.WriteList(list, listed);
      assert disk.files.Keys == old(disk.files).Keys + {list};
      r := Ok(downloaded.value);
    } else if list in disk.files {
      r := Ok(Collections.Elements(disk.files[list]));
    } else {
      r := Err(IsADirectory(list));
    }
  }

  /** The loop of `requires`: the install loop, where every package that is done
      (installed now or already present) has its install directory put in front of
      `sys.path` at once. After `k` packages `sys.path` starts with their
      directories in reverse order, and a failing install leaves the packages done
      so far in `sys.path`. */
  method InstallAndPrepend(disk: Host.Disk, pip: Pip.Adapter, process: Host.Process,
                           download: Paths.Path, install: Paths.Path, packages: seq<string>)
    returns (r: Result<(), Pip.PipError>)
    modifies disk, pip, process
    ensures var o := Installer.InstallRun(pip.run, old(disk.Present()), download, install, packages);
      && r == o.result
      && pip.calls == old(pip.calls) + o.calls
      && disk.dirs == old(disk.dirs) + o.created
      && disk.files == old(disk.files)
      && process.sysPath
           == Collections.Reverse(Installer.Targets(install, packages[..o.visited])) + old(process.sysPath)
      && process.environ == old(process.environ)
  {
    ghost var start := disk.Present();
    ghost var whole := Installer.InstallRun(pip.run, start, download, install, packages);
    ghost var calls0, dirs0, sys0 := pip.calls, disk.dirs, process.sysPath;
    ghost var calls: seq<Pip.Invocation> := [];
    ghost var created: set<string> := {};
    var i := 0;
    assert start + created == start && packages[i..] == packages && packages[..i] == [];
    while i < |packages|
      invariant 0 <= i <= |packages|
      invariant disk.files == old(disk.files)
      invariant disk.dirs == dirs0 + created
      invariant pip.calls == calls0 + calls
      invariant process.environ == old(process.environ)
      invariant process.sysPath == Collections.Reverse(Installer.Targets(install, packages[..i])) + sys0
      invariant Installer.Composes(whole, calls, created, i,
        Installer.InstallRun(pip.run, start + created, download, install, packages[i..]))
    {
      r, calls, created := Installer.Advance(disk, pip, download, install, packages, i,
        start, whole, calls0, dirs0, calls, created);
      if r.Err? {
        return;
      }
      PrependDir(process, install, packages, i, sys0);
      i := i + 1;
    }
    assert packages[i..] == [] && packages[..i] == packages;
    Installer.ComposesDone(whole, calls, created, i,
      Installer.InstallRun(pip.run, start + created, download, install, packages[i..]));
    r := Ok(());
  }

  /** `sys.path[0:0] = [str(package_install_path)]` for `packages[i]`. */
  method PrependDir(process: Host.Process, install: Paths.Path, packages: seq<string>, i: nat,
                    ghost rest: seq<string>)
    requires i < |packages|
    requires process.sysPath == Collections.Reverse(Installer.Targets(install, packages[..i])) + rest
    modifies process
    ensures process.sysPath == Collections.Reverse(Installer.Targets(install, packages[..i + 1])) + rest
    ensures process.environ == old(process.environ)
  {
    Prepended(install, packages, i, rest);
    process.sysPath := [Installer.Target(install, packages[i])] + process.sysPath;
  }

  /** Putting the next install directory in front keeps `sys.path` the reversed
      directories of the packages done so far. */
  lemma Prepended(install: Paths.Path, packages: seq<string>, i: nat, rest: seq<string>)
    requires i < |packages|
    ensures [Installer.Target(install, packages[i])]
        + (Collections.Reverse(Installer.Targets(install, packages[..i])) + rest)
      == Collections.Reverse(Installer.Targets(install, packages[..i + 1])) + rest
  {
    var t := Installer.Target(install, packages[i]);
    assert packages[..i + 1] == packages[..i] + [packages[i]];
    Installer.TargetsAppend(install, packages[..i], [packages[i]]);
    assert Installer.Targets(install, [packages[i]]) == [t];
    Collections.ReverseAppend(Installer.Targets(install, packages[..i]), [t]);
    assert Collections.Reverse([t]) == [t];
    Collections.AppendAssoc([t], Collections.Reverse(Installer.Targets(install, packages[..i])), rest);
  }

  /** `requires(*requirements)`: create the dependencies directory, resolve the
      packages, then run the install loop over the set in its iteration order
      `order`. On success every package has its install directory and `sys.path`
      starts with those directories in reverse order; in any case `sys.path` grows
      by at most one entry per package and the environment is not touched. */
  method Requires(base: Paths.Path, hash: string -> string, disk: Host.Disk, pip: Pip.Adapter,
                  process: Host.Process, requirements: seq<string>)
    returns (r: Result<(), RequiresError>, ghost order: seq<string>)
    modifies disk, pip, process
    ensures Host.Lineage(DependenciesPath(base)) <= disk.dirs
    ensures process.environ == old(process.environ)
    ensures |process.sysPath| <= |old(process.sysPath)| + |order|
    ensures r.Ok? ==>
      && Collections.Distinct(order)
      && (forall p :: p in order ==> disk.Exists(Installer.Target(InstallPath(base), p)))
      && process.sysPath == Collections.Reverse(Installer.Targets(InstallPath(base), order)) + old(process.sysPath)
    ensures var present := old(disk.Present()) + Host.Lineage(DependenciesPath(base));
      var resolved := ResolveOutcome(pip.run, present, old(disk.files), base, hash, requirements);
      var resolveCalls := ResolveCalls(present, base, hash, requirements);
      if resolved.Err? then
        && r == Err(resolved.error)
        && pip.calls == old(pip.calls) + resolveCalls
        && process.sysPath == old(process.sysPath)
      else
        && Collections.Distinct(order)
        && Collections.Elements(order) == resolved.value
        && var run := Installer.InstallRun(pip.run, present + {ListFile(base, hash, requirements)},
             DownloadPath(base), InstallPath(base), order);
           && pip.calls == old(pip.calls) + resolveCalls + run.calls
           && r == (if run.result.Err? then Err(PipFailed(run.result.error)) else Ok(()))
           && process.sysPath
                == Collections.Reverse(Installer.Targets(InstallPath(base), order[..run.visited])) + old(process.sysPath)
  {
    order := [];
    disk.MakeDirs(DependenciesPath(base));
    ghost var present := disk.Present();
    assert present == old(disk.Present()) + Host.Lineage(DependenciesPath(base));
    assert disk.files == old(disk.files);
    ghost var calls := pip.calls;
    var packages := ResolvePackages(base, hash, disk, pip, requirements);
    if packages.Err? {
      return Err(packages.error), order;
    }
    var listed := Collections.ListOf(packages.value);
    order := listed;
    assert disk.Present() == present + {ListFile(base, hash, requirements)};
    assert pip.calls == calls + ResolveCalls(present, base, hash, requirements);
    r := InstallResolved(base, disk, pip, process, listed);
  }

  /** The second half of `requires` for the resolved packages in iteration order:
      the install loop, with a pip failure reported as `PipFailed`. */
  method InstallResolved(base: Paths.Path, disk: Host.Disk, pip: Pip.Adapter, process: Host.Process,
                         listed: seq<string>) returns (r: Result<(), RequiresError>)
    modifies disk, pip, process
    ensures old(disk.dirs) <= disk.dirs
    ensures process.environ == old(process.environ)
    ensures var o := Installer.InstallRun(pip.run, old(disk.Present()), DownloadPath(base), InstallPath(base), listed);
      && pip.calls == old(pip.calls) + o.calls
      && r == (if o.result.Err? then Err(PipFailed(o.result.error)) else Ok(()))
      && process.sysPath
           == Collections.Reverse(Installer.Targets(InstallPath(base), listed[..o.visited])) + old(process.sysPath)
    ensures |process.sysPath| <= |old(process.sysPath)| + |listed|
    ensures r.Ok? ==>
      && (forall p :: p in listed ==> disk.Exists(Installer.Target(InstallPath(base), p)))
      && process.sysPath == Collections.Reverse(Installer.Targets(InstallPath(base), listed)) + old(process.sysPath)
  {
    ghost var before := disk.Present();
    var installed := InstallAndPrepend(disk, pip, process, DownloadPath(base), InstallPath(base), listed);
    if installed.Err? {
      return Err(PipFailed(installed.error));
    }
    Installer.InstallCompletes(pip.run, before, DownloadPath(base), InstallPath(base), listed);
    assert disk.Present() == before + Installer.InstallRun(pip.run, before,
      DownloadPath(base), InstallPath(base), listed).created;
    assert listed[..|listed|] == listed;
    r := Ok(());
  }
}
