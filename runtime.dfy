/** `ScriptEnv` (scriptenv/scriptenv.py): resolves a requirement list through a
    lock file or one `pip download`, installs every resolved package into a
    directory of its own, and makes the install directories visible to the running
    interpreter (`sys.path`) and to its subprocesses (`PYTHONPATH`, `PATH`). */
module Runtime {
  import opened Wrappers
  import Strings
  import Paths
  import Pip
  import Host
  import Installer
  import Collections
  import Layout

  /** `os.pathsep` on POSIX. */
  const PathSep: char := ':'

  /** The inner `extend_environ_path(name, items)`: the variable becomes the items
      followed by the pieces it held before, joined by the path separator. */
  function ExtendEnvironPath(env: map<string, string>, name: string, items: seq<string>)
    : (r: map<string, string>)
    ensures r.Keys == env.Keys + {name}
    ensures forall k :: k in env && k != name ==> r[k] == env[k]
  {
    var existing := if name in env then Strings.Split(env[name], PathSep) else [];
    env[name := Strings.Join(items + existing, PathSep)]
  }

  /** An unset variable ends up holding just the new items. */
  lemma ExtendUnset(env: map<string, string>, name: string, items: seq<string>)
    requires name !in env
    ensures ExtendEnvironPath(env, name, items)[name] == Strings.Join(items, PathSep)
  {
    assert items + [] == items;
  }

  /** A variable that was set keeps its old value verbatim after the new items. */
  lemma ExtendSet(env: map<string, string>, name: string, items: seq<string>)
    requires name in env && |items| >= 1
    ensures ExtendEnvironPath(env, name, items)[name]
      == Strings.Join(items, PathSep) + [PathSep] + env[name]
  {
    Strings.JoinAppend(items, Strings.Split(env[name], PathSep), PathSep);
    Strings.JoinSplit(env[name], PathSep);
  }

  /** With no new items a set variable is left as it was. */
  lemma ExtendNothing(env: map<string, string>, name: string)
    requires name in env
    ensures ExtendEnvironPath(env, name, []) == env
  {
    Strings.JoinSplit(env[name], PathSep);
    assert [] + Strings.Split(env[name], PathSep) == Strings.Split(env[name], PathSep);
  }

  /** Read back with `split(os.pathsep)`, the variable lists the new items first and
      then the entries it had, provided no item contains the separator. */
  lemma ExtendSplits(env: map<string, string>, name: string, items: seq<string>)
    requires name in env
    requires forall i :: 0 <= i < |items| ==> PathSep !in items[i]
    ensures Strings.Split(ExtendEnvironPath(env, name, items)[name], PathSep)
      == items + Strings.Split(env[name], PathSep)
  {
    var all := items + Strings.Split(env[name], PathSep);
    assert forall i :: 0 <= i < |all| ==> PathSep !in all[i] by {
      forall i | 0 <= i < |all| ensures PathSep !in all[i] {
        if i >= |items| {
          assert all[i] == Strings.Split(env[name], PathSep)[i - |items|];
        }
      }
    }
    Strings.SplitJoin(all, PathSep);
  }

  /** `[str(install_path / pkg / "bin") for pkg in packages]`. */
  function BinDirs(install: Paths.Path, packages: seq<string>): (r: seq<string>)
    ensures |r| == |packages|
    ensures forall i :: 0 <= i < |packages| ==>
      r[i] == Paths.Str(Paths.Join(Paths.Join(install, packages[i]), "bin"))
  {
    if packages == [] then []
    else [Paths.Str(Paths.Join(Paths.Join(install, packages[0]), "bin"))] + BinDirs(install, packages[1..])
  }

  /** The environment after `update_runtime`: `PYTHONPATH` extended with the
      install directories, then `PATH` with their `bin` directories. */
  function RuntimeEnviron(env: map<string, string>, install: Paths.Path, packages: seq<string>)
    : map<string, string>
  {
    ExtendEnvironPath(ExtendEnvironPath(env, "PYTHONPATH", Installer.Targets(install, packages)),
      "PATH", BinDirs(install, packages))
  }

  /** `update_runtime` touches exactly `PYTHONPATH` and `PATH`: each holds the
      new directories only if it was unset, and otherwise the new directories
      followed by its old value; every other variable is unchanged. */
  lemma RuntimeEnvironEffect(env: map<string, string>, install: Paths.Path, packages: seq<string>)
    requires packages != []
    ensures var r := RuntimeEnviron(env, install, packages);
      && r.Keys == env.Keys + {"PYTHONPATH", "PATH"}
      && (forall k :: k in env && k != "PYTHONPATH" && k != "PATH" ==> r[k] == env[k])
      && r["PYTHONPATH"] == (if "PYTHONPATH" in env
          then Strings.Join(Installer.Targets(install, packages), PathSep) + [PathSep] + env["PYTHONPATH"]
          else Strings.Join(Installer.Targets(install, packages), PathSep))
      && r["PATH"] == (if "PATH" in env
          then Strings.Join(BinDirs(install, packages), PathSep) + [PathSep] + env["PATH"]
          else Strings.Join(BinDirs(install, packages), PathSep))
  {
    var dirs := Installer.Targets(install, packages);
    var mid := ExtendEnvironPath(env, "PYTHONPATH", dirs);
    if "PYTHONPATH" in env {
      ExtendSet(env, "PYTHONPATH", dirs);
    } else {
      ExtendUnset(env, "PYTHONPATH", dirs);
    }
    if "PATH" in env {
      assert "PATH" in mid && mid["PATH"] == env["PATH"];
      ExtendSet(mid, "PATH", BinDirs(install, packages));
    } else {
      assert "PATH" !in mid;
      ExtendUnset(mid, "PATH", BinDirs(install, packages));
    }
  }

  /** An environment built for a cache root, with the file system, the
      interpreter, pip and the hash function it works with. */
  class ScriptEnv {
    const cachePath: Paths.Path
    const hash: string -> string
    const disk: Host.Disk
    const process: Host.Process
    const pip: Pip.Adapter

    /** `__init__`: the locks directory and all its parents exist afterwards. */
    constructor (cachePath: Paths.Path, hash: string -> string, disk: Host.Disk,
                 process: Host.Process, pip: Pip.Adapter)
      modifies disk
      ensures this.cachePath == cachePath && this.hash == hash
      ensures this.disk == disk && this.process == process && this.pip == pip
      ensures disk.dirs == old(disk.dirs) + Host.Lineage(Layout.LocksPath(cachePath))
      ensures disk.files == old(disk.files)
      ensures disk.Exists(Paths.Str(Layout.LocksPath(cachePath)))
    {
      this.cachePath := cachePath;
      this.hash := hash;
      this.disk := disk;
      this.process := process;
      this.pip := pip;
      new;
      disk.MakeDirs(Layout.LocksPath(cachePath));
    }

    /** `fetch_requirements`: a present lock file is read back as a set without
        calling pip; otherwise pip downloads into the package cache exactly once,
        and the names it reports are written to the lock file (in the order the set
        is iterated) and returned. */
    method FetchRequirements(requirements: seq<string>) returns (r: Result<set<string>, Pip.PipError>)
      modifies disk, pip
      ensures disk.dirs == old(disk.dirs)
      ensures r == Layout.FetchOutcome(pip.run, old(disk.files), cachePath, hash, requirements, true)
      ensures pip.calls == old(pip.calls) + Layout.FetchCalls(old(disk.files), cachePath, hash, requirements, true)
      ensures r.Ok? ==> disk.Present() == Layout.FetchedPresent(old(disk.Present()), cachePath, hash, requirements, true)
      ensures var lock := Layout.LockFile(cachePath, hash, requirements);
        if lock in old(disk.files) then
          && r == Ok(Collections.Elements(old(disk.files)[lock]))
          && pip.calls == old(pip.calls)
          && disk.files == old(disk.files)
        else
          && pip.calls == old(pip.calls)
               + [Pip.Invocation("download", Pip.DownloadArgs(requirements, Layout.PackageCachePath(cachePath)))]
          && r == Pip.DownloadOutcome(pip.run, requirements, Layout.PackageCachePath(cachePath))
          && (r.Err? ==> disk.files == old(disk.files))
          && (r.Ok? ==>
                && lock in disk.files
                && disk.files == old(disk.files)[lock := disk.files[lock]]
                && Collections.Elements(disk.files[lock]) == r.value
                && Collections.Distinct(disk.files[lock]))
    {
      var lock := Layout.LockFile(cachePath, hash, requirements);
      if lock !in disk.files {
        var downloaded := pip.Download(requirements, Layout.PackageCachePath(cachePath));
        if downloaded.Err? {
          return Err(downloaded.error);
        }
        var listed := Collections.ListOf(downloaded.value);
        assert Collections.Elements(listed) == downloaded.value;
        disk.WriteList(lock, listed);
        assert disk.files.Keys == old(disk.files).Keys + {lock};
      }
      r := Ok(Collections.Elements(disk.files[lock]));
    }

    /** A second fetch of the same requirements after a successful one finds the
        lock file: it returns the same set and makes no pip call, so the only pip
        call of the two is the first fetch's download, made only if the lock file
        was missing. */
    method FetchTwice(requirements: seq<string>)
      returns (first: Result<set<string>, Pip.PipError>, second: Result<set<string>, Pip.PipError>)
      modifies disk, pip
      ensures first.Ok? ==>
        && second == first
        && pip.calls == old(pip.calls)
             + (if Layout.LockFile(cachePath, hash, requirements) in old(disk.files) then []
                else [Pip.Invocation("download", Pip.DownloadArgs(requirements, Layout.PackageCachePath(cachePath)))])
    {
      first := FetchRequirements(requirements);
      ghost var between := pip.calls;
      second := FetchRequirements(requirements);
      if first.Ok? {
        assert pip.calls == between;
      }
    }

    /** `install_packages`: the install loop over the install directory, fed from
        the package cache. */
    method InstallPackages(packages: seq<string>) returns (r: Result<(), Pip.PipError>)
      modifies disk, pip
      ensures var o := Installer.InstallRun(pip.run, old(disk.Present()),
                         Layout.PackageCachePath(cachePath), Layout.InstallPath(cachePath), packages);
        && r == o.result
        && pip.calls == old(pip.calls) + o.calls
        && disk.dirs == old(disk.dirs) + o.created
        && disk.files == old(disk.files)
    {
      r := Installer.InstallPackages(disk, pip, Layout.PackageCachePath(cachePath),
        Layout.InstallPath(cachePath), packages);
    }

    /** `update_runtime`: the install directories go in front of `sys.path`, in
        package order, and into `PYTHONPATH`; their `bin` directories into `PATH`. */
    method UpdateRuntime(packages: seq<string>)
      modifies process
      ensures process.sysPath == Installer.Targets(Layout.InstallPath(cachePath), packages) + old(process.sysPath)
      ensures process.environ == RuntimeEnviron(old(process.environ), Layout.InstallPath(cachePath), packages)
    {
      var dirs := Installer.Targets(Layout.InstallPath(cachePath), packages);
      process.sysPath := dirs + process.sysPath;
      process.environ := ExtendEnvironPath(process.environ, "PYTHONPATH", dirs);
      process.environ := ExtendEnvironPath(process.environ, "PATH", BinDirs(Layout.InstallPath(cachePath), packages));
    }

    /** `apply`: fetch, install, update the runtime. The fetched set is iterated
        in one order, `order`, by both the install loop and the runtime update.
        When it succeeds, every fetched package has its install directory and
        those directories lead `sys.path`; a `PipError` leaves the interpreter
        as it was. */
    method Apply(requirements: seq<string>) returns (r: Result<(), Pip.PipError>, ghost order: seq<string>)
      modifies disk, pip, process
      ensures r.Err? ==> process.sysPath == old(process.sysPath) && process.environ == old(process.environ)
      ensures r.Ok? ==>
        && Collections.Distinct(order)
        && (forall p :: p in order ==> disk.Exists(Installer.Target(Layout.InstallPath(cachePath), p)))
        && process.sysPath == Installer.Targets(Layout.InstallPath(cachePath), order) + old(process.sysPath)
        && process.environ == RuntimeEnviron(old(process.environ), Layout.InstallPath(cachePath), order)
      ensures var fetched := Layout.FetchOutcome(pip.run, old(disk.files), cachePath, hash, requirements, true);
        var fetchCalls := Layout.FetchCalls(old(disk.files), cachePath, hash, requirements, true);
        if fetched.Err? then
          r == Err(fetched.error) && pip.calls == old(pip.calls) + fetchCalls
        else
          && Collections.Distinct(order)
          && Collections.Elements(order) == fetched.value
          && var run := Installer.InstallRun(pip.run,
               Layout.FetchedPresent(old(disk.Present()), cachePath, hash, requirements, true),
               Layout.PackageCachePath(cachePath), Layout.InstallPath(cachePath), order);
             r == run.result && pip.calls == old(pip.calls) + fetchCalls + run.calls
    {
      order := [];
      var packages := FetchRequirements(requirements);
      if packages.Err? {
        return Err(packages.error), order;
      }
      var listed := Collections.ListOf(packages.value);
      order := listed;
      r := InstallAndUpdate(listed);
    }

    /** The second half of `apply` for the fetched packages in iteration order. */
    method InstallAndUpdate(listed: seq<string>) returns (r: Result<(), Pip.PipError>)
      modifies disk, pip, process
      ensures r == Installer.InstallRun(pip.run, old(disk.Present()),
                         Layout.PackageCachePath(cachePath), Layout.InstallPath(cachePath), listed).result
      ensures pip.calls == old(pip.calls) + Installer.InstallRun(pip.run, old(disk.Present()),
                         Layout.PackageCachePath(cachePath), Layout.InstallPath(cachePath), listed).calls
      ensures r.Err? ==> process.sysPath == old(process.sysPath) && process.environ == old(process.environ)
      ensures r.Ok? ==>
        && (forall p :: p in listed ==> disk.Exists(Installer.Target(Layout.InstallPath(cachePath), p)))
        && process.sysPath == Installer.Targets(Layout.InstallPath(cachePath), listed) + old(process.sysPath)
        && process.environ == RuntimeEnviron(old(process.environ), Layout.InstallPath(cachePath), listed)
    {
      ghost var before := disk.Present();
      ghost var o := Installer.InstallRun(pip.run, before,
        Layout.PackageCachePath(cachePath), Layout.InstallPath(cachePath), listed);
      var installed := InstallPackages(listed);
      if installed.Err? {
        return Err(installed.error);
      }
      Installer.InstallCompletes(pip.run, before, Layout.PackageCachePath(cachePath),
        Layout.InstallPath(cachePath), listed);
      assert disk.Present() == before + o.created;
      ghost var calls := pip.calls;
      UpdateRuntime(listed);
      assert pip.calls == calls;
      r := installed;
    }
  }
}
