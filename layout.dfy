/** The cache directory layout shared by `ScriptEnv` and `ScriptEnvBuilder`: the
    lock files, the install directories and the package cache are three fixed
    sub-directories of the cache root, and a lock file is named after the hash of
    the requirement list. */
module Layout {
  import opened Wrappers
  import Strings
  import Paths
  import Collections
  import Pip

  /** `cache_path / "locks"`. */
  function LocksPath(cache: Paths.Path): Paths.Path
  {
    Paths.Join(cache, "locks")
  }

  /** `cache_path / "install"`. */
  function InstallPath(cache: Paths.Path): Paths.Path
  {
    Paths.Join(cache, "install")
  }

  /** `cache_path / "cache"`. */
  function PackageCachePath(cache: Paths.Path): Paths.Path
  {
    Paths.Join(cache, "cache")
  }

  /** The three directories sit directly below the cache root, under their fixed
      names, and are three different directories. */
  lemma LayoutUnderCache(cache: Paths.Path)
    requires Paths.WellFormed(cache)
    ensures Paths.Parent(LocksPath(cache)) == cache && Paths.Name(LocksPath(cache)) == "locks"
    ensures Paths.Parent(InstallPath(cache)) == cache && Paths.Name(InstallPath(cache)) == "install"
    ensures Paths.Parent(PackageCachePath(cache)) == cache && Paths.Name(PackageCachePath(cache)) == "cache"
    ensures Paths.Str(LocksPath(cache)) != Paths.Str(InstallPath(cache))
    ensures Paths.Str(LocksPath(cache)) != Paths.Str(PackageCachePath(cache))
    ensures Paths.Str(InstallPath(cache)) != Paths.Str(PackageCachePath(cache))
  {
    Paths.JoinComponent(cache, "locks");
    Paths.JoinComponent(cache, "install");
    Paths.JoinComponent(cache, "cache");
    Paths.JoinDistinct(cache, "locks", "install");
    Paths.JoinDistinct(cache, "locks", "cache");
    Paths.JoinDistinct(cache, "install", "cache");
  }

  /** The text that is hashed: the requirements joined by newlines, in the order
      given. */
  function KeyText(requirements: seq<string>): string
  {
    Strings.Join(requirements, '\n')
  }

  /** The lock file of a requirement list: `locks_path / md5(text)`. */
  function LockFile(cache: Paths.Path, hash: string -> string, requirements: seq<string>): string
  {
    Paths.Str(Paths.Join(LocksPath(cache), hash(KeyText(requirements))))
  }

  /** What fetching a requirement list yields, judged from the files present
      before the fetch: when the lock file is consulted and exists, the set of
      names it records; otherwise whatever one `pip download` into the package
      cache reports. */
  function FetchOutcome(run: Pip.Runner, files: map<string, seq<string>>, cache: Paths.Path,
                        hash: string -> string, requirements: seq<string>, useLock: bool)
    : Result<set<string>, Pip.PipError>
  {
    var lock := LockFile(cache, hash, requirements);
    if useLock && lock in files then Ok(Collections.Elements(files[lock]))
    else Pip.DownloadOutcome(run, requirements, PackageCachePath(cache))
  }

  /** The pip calls of that fetch: none on a lock-file hit, one download into the
      package cache otherwise. */
  function FetchCalls(files: map<string, seq<string>>, cache: Paths.Path,
                      hash: string -> string, requirements: seq<string>, useLock: bool)
    : seq<Pip.Invocation>
  {
    if useLock && LockFile(cache, hash, requirements) in files then []
    else [Pip.Invocation("download", Pip.DownloadArgs(requirements, PackageCachePath(cache)))]
  }

  /** The paths present after a successful fetch: the lock file is added when lock
      files are in use (it was there already on a hit), nothing otherwise. */
  function FetchedPresent(present: set<string>, cache: Paths.Path, hash: string -> string,
                          requirements: seq<string>, useLock: bool): set<string>
  {
    if useLock then present + {LockFile(cache, hash, requirements)} else present
  }

  /** Two different non-empty lists of one-line requirements have different key
      texts; in particular a reordering of a list is hashed from a different text. */
  lemma KeyTextInjective(xs: seq<string>, ys: seq<string>)
    requires |xs| >= 1 && |ys| >= 1
    requires forall i :: 0 <= i < |xs| ==> '\n' !in xs[i]
    requires forall i :: 0 <= i < |ys| ==> '\n' !in ys[i]
    ensures KeyText(xs) == KeyText(ys) <==> xs == ys
  {
    Strings.SplitJoin(xs, '\n');
    Strings.SplitJoin(ys, '\n');
  }

  /** A lock file lies directly in the locks directory when the hash is a single
      path component, as a hex digest is. */
  lemma LockFileInLocks(cache: Paths.Path, hash: string -> string, requirements: seq<string>)
    requires Paths.WellFormed(cache)
    requires Paths.IsComponent(hash(KeyText(requirements)))
    ensures LockFile(cache, hash, requirements)
      == Paths.Str(Paths.Path(cache.root, cache.parts + ["locks", hash(KeyText(requirements))]))
  {
    var h := hash(KeyText(requirements));
    var locks := Paths.Path(cache.root, cache.parts + ["locks"]);
    Paths.JoinComponent(cache, "locks");
    assert LocksPath(cache) == locks;
    Paths.JoinComponent(locks, h);
    assert ["locks"] + [h] == ["locks", h];
    Collections.AppendAssoc(cache.parts, ["locks"], [h]);
    assert Paths.Join(LocksPath(cache), h) == Paths.Path(cache.root, cache.parts + ["locks", h]);
  }
}
