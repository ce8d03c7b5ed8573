/** The process-global and on-disk state that the core changes: the part of the
    file system it looks at, and the interpreter's `sys.path` and `os.environ`. */
module Host {
  import Paths

  /** Every directory from the top of `p` down to `p` itself, as path strings:
      what `mkdir(parents=True)` leaves behind. */
  function Lineage(p: Paths.Path): (r: set<string>)
    ensures Paths.Str(p) in r
  {
    assert p.parts[..|p.parts|] == p.parts;
    set k | 0 <= k <= |p.parts| :: Paths.Str(Paths.Path(p.root, p.parts[..k]))
  }

  /** The file system as the core sees it: which paths are directories, and the
      lock files, each holding a JSON list of strings, by path. */
  class Disk {
    var dirs: set<string>
    var files: map<string, seq<string>>

    constructor (dirs: set<string>, files: map<string, seq<string>>)
      ensures this.dirs == dirs && this.files == files
    {
      this.dirs := dirs;
      this.files := files;
    }

    /** `Path.exists()`. */
    predicate Exists(p: string)
      reads this
    {
      p in dirs || p in files
    }

    /** The paths that exist. */
    function Present(): set<string>
      reads this
    {
      dirs + files.Keys
    }

    /** `p.mkdir(parents=True, exist_ok=True)`. */
    method MakeDirs(p: Paths.Path)
      modifies this
      ensures dirs == old(dirs) + Lineage(p) && files == old(files)
    {
      dirs := dirs + Lineage(p);
    }

    /** A directory that an install run has filled. */
    method AddDir(p: string)
      modifies this
      ensures dirs == old(dirs) + {p} && files == old(files)
    {
      dirs := dirs + {p};
    }

    /** `p.write_text(json.dumps(items))`. */
    method WriteList(p: string, items: seq<string>)
      modifies this
      ensures files == old(files)[p := items] && dirs == old(dirs)
    {
      files := files[p := items];
    }
  }

  /** The running interpreter: its import search path and its environment. */
  class Process {
    var sysPath: seq<string>
    var environ: map<string, string>

    constructor (sysPath: seq<string>, environ: map<string, string>)
      ensures this.sysPath == sysPath && this.environ == environ
    {
      this.sysPath := sysPath;
      this.environ := environ;
    }
  }
}
