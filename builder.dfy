/** `ScriptEnvBuilder` (scriptenv/builder.py): the same cache layout, lock files and
    install loop as `ScriptEnv`, with a switch that bypasses the lock files, and a
    `build` that hands back the install directory and the fetched packages instead
    of changing the interpreter. */
module Builder {
  import opened Wrappers
  import Paths
  import Pip
  import Host
  import Installer
  import Collections
  import Layout

  /** What `build` hands back: the directory the packages are installed in and the
      set of packages. */
  datatype BuiltEnv = BuiltEnv(installPath: Paths.Path, packages: set<string>)

  class ScriptEnvBuilder {
    const cachePath: Paths.Path
    const useLockfile: bool
    const hash: string -> string
    const disk: Host.Disk
    const pip: Pip.Adapter

    /** `__init__`: the locks directory and all its parents exist afterwards. */
    constructor (cachePath: Paths.Path, useLockfile: bool, hash: string -> string,
                 disk: Host.Disk, pip: Pip.Adapter)
      modifies disk
      ensures this.cachePath == cachePath && this.useLockfile == useLockfile && this.hash == hash
      ensures this.disk == disk && this.pip == pip
      ensures disk.dirs == old(disk.dirs) + Host.Lineage(Layout.LocksPath(cachePath))
      ensures disk.files == old(disk.files)
      ensures disk.Exists(Paths.Str(Layout.LocksPath(cachePath)))
    {
      this.cachePath := cachePath;
      this.useLockfile := useLockfile;
      this.hash := hash;
      this.disk := disk;
      this.pip := pip;
      new;
      disk.MakeDirs(Layout.LocksPath(cachePath));
    }

    /** `fetch_requirements`. Without lock files pip is always asked, the lock
        files are neither read nor written, and pip's answer is returned as it is.
        With lock files it behaves like `ScriptEnv.fetch_requirements`: a present
        lock file is read without calling pip, a missing one is filled from one
        download. */
    method FetchRequirements(requirements: seq<string>) returns (r: Result<set<string>, Pip.PipError>)
      modifies disk, pip
      ensures disk.dirs == old(disk.dirs)
      ensures r == Layout.FetchOutcome(pip.run, old(disk.files), cachePath, hash, requirements, useLockfile)
      ensures pip.calls == old(pip.calls) + Layout.FetchCalls(old(disk.files), cachePath, hash, requirements, useLockfile)
      ensures r.Ok? ==>
        disk.Present() == Layout.FetchedPresent(old(disk.Present()), cachePath, hash, requirements, useLockfile)
      ensures var lock := Layout.LockFile(cachePath, hash, requirements);
        if useLockfile && lock in old(disk.files) then
          && r == Ok(Collections.Elements(old(disk.files)[lock]))
          && pip.calls == old(pip.calls)
          && disk.files == old(disk.files)
        else
          && pip.calls == old(pip.calls)
               + [Pip.Invocation("download", Pip.DownloadArgs(requirements, Layout.PackageCachePath(cachePath)))]
          && r == Pip.DownloadOutcome(pip.run, requirements, Layout.PackageCachePath(cachePath))
          && (r.Err? || !useLockfile ==> disk.files == old(disk.files))
          && (r.Ok? && useLockfile ==>
                && lock in disk.files
                && disk.files == old(disk.files)[lock := disk.files[lock]]
                && Collections.Elements(disk.files[lock]) == r.value
                && Collections.Distinct(disk.files[lock]))
    {
      var lock := Layout.LockFile(cachePath, hash, requirements);
      if lock !in disk.files || !useLockfile {
        var downloaded := pip.Download(requirements, Layout.PackageCachePath(cachePath));
        if downloaded.Err? {
          return Err(downloaded.error);
        }
        if !useLockfile {
          return Ok(downloaded.value);
        }
        var listed := Collections.ListOf(downloaded.value);
        assert Collections.Elements(listed) == downloaded.value;
        disk.WriteList(lock, listed);
        assert disk.files.Keys == old(disk.files).Keys + {lock};
      }
      r := Ok(Collections.Elements(disk.files[lock]));
    }

    /** `install_packages`: the install loop over the install directory, fed from
        the package cache. */
    method InstallPackages(packages: seq<string>) returns (r: Result<(), Pip.PipError>)
      modifies disk, pip
      ensures var o := Installer.InstallRun(pip.run, old(disk.Present()),
                         Layout.PackageCachePath(cachePath), Layout.InstallPath(cachePath), packages);
        && r == o.result
        && pip.calls == old(pip.calls) + o.calls
        && disk.dirs == old(disk.dirs) + o.created
        && disk.files == old(disk.files)
    {
      r := Installer.InstallPackages(disk, pip, Layout.PackageCachePath(cachePath),
        Layout.InstallPath(cachePath), packages);
    }

    /** `build`: fetch, then install the fetched set, iterated in the order
        `order`, and hand back the install directory with exactly that set. Every
        package in it has its install directory afterwards. */
    method Build(requirements: seq<string>) returns (r: Result<BuiltEnv, Pip.PipError>, ghost order: seq<string>)
      modifies disk, pip
      ensures r.Ok? ==>
        && r.value.installPath == Layout.InstallPath(cachePath)
        && r.value.packages == Collections.Elements(order)
        && Collections.Distinct(order)
        && (forall p :: p in order ==> disk.Exists(Installer.Target(Layout.InstallPath(cachePath), p)))
      ensures var fetched := Layout.FetchOutcome(pip.run, old(disk.files), cachePath, hash, requirements, useLockfile);
        var fetchCalls := Layout.FetchCalls(old(disk.files), cachePath, hash, requirements, useLockfile);
        if fetched.Err? then
          r == Err(fetched.error) && pip.calls == old(pip.calls) + fetchCalls
        else
          && Collections.Distinct(order)
          && Collections.Elements(order) == fetched.value
          && var run := Installer.InstallRun(pip.run,
               Layout.FetchedPresent(old(disk.Present()), cachePath, hash, requirements, useLockfile),
               Layout.PackageCachePath(cachePath), Layout.InstallPath(cachePath), order);
             && pip.calls == old(pip.calls) + fetchCalls + run.calls
             && r == (if run.result.Err? then Err(run.result.error)
                      else Ok(BuiltEnv(Layout.InstallPath(cachePath), fetched.value)))
    {
      order := [];
      var packages := FetchRequirements(requirements);
      if packages.Err? {
        return Err(packages.error), order;
      }
      var listed := Collections.ListOf(packages.value);
      order := listed;
      ghost var before := disk.Present();
      var installed := InstallPackages(listed);
      if installed.Err? {
        return Err(installed.error), order;
      }
      Installer.InstallCompletes(pip.run, before, Layout.PackageCachePath(cachePath),
        Layout.InstallPath(cachePath), listed);
      assert disk.Present() == before + Installer.InstallRun(pip.run, before,
        Layout.PackageCachePath(cachePath), Layout.InstallPath(cachePath), listed).created;
      assert Collections.Elements(listed) == packages.value;
      r := Ok(BuiltEnv(Layout.InstallPath(cachePath), packages.value));
    }
  }
}
