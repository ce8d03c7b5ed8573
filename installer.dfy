/** The install loop shared by `ScriptEnv.install_packages` and
    `ScriptEnvBuilder.install_packages` (and, interleaved with `sys.path` updates, by
    `requires`): every package whose install directory does not exist yet is
    installed, without its dependencies, from the package cache into that directory;
    the first failing install stops the loop. */
module Installer {
  import opened Wrappers
  import Paths
  import Pip
  import Host
  import Collections

  /** What an install loop does: the pip calls it makes, the install directories it
      creates, how many packages it has gone through before stopping, and whether it
      stopped on a `PipError`. */
  datatype Run = Run(
    calls: seq<Pip.Invocation>,
    created: set<string>,
    visited: nat,
    result: Result<(), Pip.PipError>)

  /** The install directory of `package`. */
  function Target(install: Paths.Path, package: string): string
  {
    Paths.Str(Paths.Join(install, package))
  }

  /** `[str(install_path / pkg) for pkg in packages]`. */
  function Targets(install: Paths.Path, packages: seq<string>): (r: seq<string>)
    ensures |r| == |packages|
    ensures forall i :: 0 <= i < |packages| ==> r[i] == Target(install, packages[i])
  {
    if packages == [] then []
    else [Target(install, packages[0])] + Targets(install, packages[1..])
  }

  /** The install directories of a concatenation are those of its parts. */
  lemma {:induction false} TargetsAppend(install: Paths.Path, a: seq<string>, b: seq<string>)
    ensures Targets(install, a + b) == Targets(install, a) + Targets(install, b)
  {
    if a == [] {
      assert a + b == b;
    } else {
      assert (a + b)[1..] == a[1..] + b;
      TargetsAppend(install, a[1..], b);
    }
  }

  /** The pip call that installs `package` from the cache into its directory. */
  function InstallCall(cache: Paths.Path, install: Paths.Path, package: string): Pip.Invocation
  {
    Pip.Invocation("install",
      Pip.InstallArgs(Paths.Join(cache, package), Paths.Join(install, package)))
  }

  /** The loop over `packages`, starting from the set of paths that exist. */
  function InstallRun(
    run: Pip.Runner, existing: set<string>, cache: Paths.Path, install: Paths.Path,
    packages: seq<string>): (o: Run)
    ensures o.visited <= |packages|
    ensures o.result.Ok? <==> o.visited == |packages|
    decreases |packages|
  {
    if packages == [] then Run([], {}, 0, Ok(()))
    else
      var p := packages[0];
      if Target(install, p) in existing then
        var o := InstallRun(run, existing, cache, install, packages[1..]);
        o.(visited := o.visited + 1)
      else
        match Pip.InstallOutcome(run, Paths.Join(cache, p), Paths.Join(install, p))
        case Err(e) => Run([InstallCall(cache, install, p)], {}, 0, Err(e))
        case Ok(_) =>
          var o := InstallRun(run, existing + {Target(install, p)}, cache, install, packages[1..]);
          Run([InstallCall(cache, install, p)] + o.calls, {Target(install, p)} + o.created,
            o.visited + 1, o.result)
  }

  /** Packages whose install directory already exists are skipped: when all of
      them exist, pip is not called at all. */
  lemma {:induction false} InstallSkipsPresent(
    run: Pip.Runner, existing: set<string>, cache: Paths.Path, install: Paths.Path,
    packages: seq<string>)
    requires forall p :: p in packages ==> Target(install, p) in existing
    ensures InstallRun(run, existing, cache, install, packages) == Run([], {}, |packages|, Ok(()))
  {
    if packages != [] {
      InstallSkipsPresent(run, existing, cache, install, packages[1..]);
    }
  }

  /** pip is only ever asked to install a listed package whose directory was
      missing, from the package cache into that directory. */
  lemma {:induction false} InstallOnlyMissing(
    run: Pip.Runner, existing: set<string>, cache: Paths.Path, install: Paths.Path,
    packages: seq<string>)
    ensures forall c :: c in InstallRun(run, existing, cache, install, packages).calls ==>
      exists p :: p in packages && Target(install, p) !in existing && c == InstallCall(cache, install, p)
    decreases |packages|
  {
    if packages != [] {
      var p := packages[0];
      if Target(install, p) in existing {
        InstallOnlyMissing(run, existing, cache, install, packages[1..]);
      } else {
        InstallOnlyMissing(run, existing + {Target(install, p)}, cache, install, packages[1..]);
      }
    }
  }

  /** The loop only creates install directories of listed packages that were
      missing. */
  lemma {:induction false} InstallCreatesMissing(
    run: Pip.Runner, existing: set<string>, cache: Paths.Path, install: Paths.Path,
    packages: seq<string>)
    ensures forall t :: t in InstallRun(run, existing, cache, install, packages).created ==>
      t !in existing && exists p :: p in packages && t == Target(install, p)
    decreases |packages|
  {
    if packages != [] {
      var p := packages[0];
      if Target(install, p) in existing {
        InstallCreatesMissing(run, existing, cache, install, packages[1..]);
      } else {
        InstallCreatesMissing(run, existing + {Target(install, p)}, cache, install, packages[1..]);
      }
    }
  }

  /** After a loop that did not fail, every listed package has its directory. */
  lemma {:induction false} InstallCompletes(
    run: Pip.Runner, existing: set<string>, cache: Paths.Path, install: Paths.Path,
    packages: seq<string>)
    requires InstallRun(run, existing, cache, install, packages).result.Ok?
    ensures forall p :: p in packages ==>
      Target(install, p) in existing + InstallRun(run, existing, cache, install, packages).created
    decreases |packages|
  {
    if packages != [] {
      var p := packages[0];
      if Target(install, p) in existing {
        InstallCompletes(run, existing, cache, install, packages[1..]);
      } else {
        InstallCompletes(run, existing + {Target(install, p)}, cache, install, packages[1..]);
      }
    }
  }

  /** Installing the same packages a second time, on the state the first loop
      left, makes no pip call. */
  lemma InstallIdempotent(
    run: Pip.Runner, existing: set<string>, cache: Paths.Path, install: Paths.Path,
    packages: seq<string>)
    requires InstallRun(run, existing, cache, install, packages).result.Ok?
    ensures
      var after := existing + InstallRun(run, existing, cache, install, packages).created;
      InstallRun(run, after, cache, install, packages).calls == []
  {
    var after := existing + InstallRun(run, existing, cache, install, packages).created;
    InstallCompletes(run, existing, cache, install, packages);
    InstallSkipsPresent(run, after, cache, install, packages);
  }

  /** The packages whose install directory is missing, in order. */
  function Missing(existing: set<string>, install: Paths.Path, packages: seq<string>)
    : (r: seq<string>)
    ensures |r| <= |packages|
  {
    if packages == [] then []
    else if Target(install, packages[0]) in existing then Missing(existing, install, packages[1..])
    else [packages[0]] + Missing(existing, install, packages[1..])
  }

  /** The pip calls for a list of packages, in order. */
  function CallsFor(cache: Paths.Path, install: Paths.Path, packages: seq<string>)
    : (r: seq<Pip.Invocation>)
    ensures |r| == |packages|
  {
    if packages == [] then [] else [InstallCall(cache, install, packages[0])] + CallsFor(cache, install, packages[1..])
  }

  lemma {:induction false} MissingUnaffected(
    existing: set<string>, install: Paths.Path, packages: seq<string>, p: string)
    requires Paths.WellFormed(install) && Paths.IsComponent(p) && p !in packages
    requires forall q :: q in packages ==> Paths.IsComponent(q)
    ensures Missing(existing + {Target(install, p)}, install, packages) == Missing(existing, install, packages)
  {
    if packages != [] {
      Paths.JoinDistinct(install, p, packages[0]);
      MissingUnaffected(existing, install, packages[1..], p);
    }
  }

  /** With distinct package names that are single path components and a pip that
      never fails, pip is called exactly for the packages whose directory is
      missing, in the order they are listed. */
  lemma {:induction false} InstallExactlyMissing(
    run: Pip.Runner, existing: set<string>, cache: Paths.Path, install: Paths.Path,
    packages: seq<string>)
    requires Paths.WellFormed(install)
    requires Collections.Distinct(packages)
    requires forall q :: q in packages ==> Paths.IsComponent(q)
    requires forall args :: run("install", args).returnCode == 0
    ensures InstallRun(run, existing, cache, install, packages).result.Ok?
    ensures InstallRun(run, existing, cache, install, packages).calls
      == CallsFor(cache, install, Missing(existing, install, packages))
    decreases |packages|
  {
    if packages != [] {
      var p := packages[0];
      assert p !in packages[1..] by {
        forall j | 1 <= j < |packages| ensures packages[j] != p { }
      }
      if Target(install, p) in existing {
        InstallExactlyMissing(run, existing, cache, install, packages[1..]);
      } else {
        InstallExactlyMissing(run, existing + {Target(install, p)}, cache, install, packages[1..]);
        MissingUnaffected(existing, install, packages[1..], p);
      }
    }
  }

  /** What the loop does for one package: nothing when its directory exists,
      otherwise one install call, which creates the directory when it succeeds. */
  datatype Step = Step(calls: seq<Pip.Invocation>, created: set<string>, result: Result<(), Pip.PipError>)

  function StepFor(
    run: Pip.Runner, existing: set<string>, cache: Paths.Path, install: Paths.Path,
    p: string): Step
  {
    if Target(install, p) in existing then Step([], {}, Ok(()))
    else
      match Pip.InstallOutcome(run, Paths.Join(cache, p), Paths.Join(install, p))
      case Err(e) => Step([InstallCall(cache, install, p)], {}, Err(e))
      case Ok(_) => Step([InstallCall(cache, install, p)], {Target(install, p)}, Ok(()))
  }

  /** A step followed by the rest of the loop, which only runs when the step did
      not fail. */
  function Then(s: Step, rest: Run): Run
  {
    if s.result.Err? then Run(s.calls, {}, 0, s.result)
    else Run(s.calls + rest.calls, s.created + rest.created, rest.visited + 1, rest.result)
  }

  lemma InstallRunStep(
    run: Pip.Runner, existing: set<string>, cache: Paths.Path, install: Paths.Path,
    packages: seq<string>)
    requires packages != []
    ensures
      var s := StepFor(run, existing, cache, install, packages[0]);
      InstallRun(run, existing, cache, install, packages)
        == Then(s, InstallRun(run, existing + s.created, cache, install, packages[1..]))
  {
    var s := StepFor(run, existing, cache, install, packages[0]);
    if s.created == {} {
      assert existing + s.created == existing;
    }
  }

  /** The body of the install loop for one package. */
  method InstallOne(disk: Host.Disk, pip: Pip.Adapter, cache: Paths.Path, install: Paths.Path, p: string)
    returns (r: Result<(), Pip.PipError>)
    modifies disk, pip
    ensures var s := StepFor(pip.run, old(disk.Present()), cache, install, p);
      && r == s.result
      && pip.calls == old(pip.calls) + s.calls
      && disk.dirs == old(disk.dirs) + s.created
      && disk.files == old(disk.files)
  {
    var target := Paths.Join(install, p);
    if disk.Exists(Paths.Str(target)) {
      r := Ok(());
    } else {
      r := pip.Install(Paths.Join(cache, p), target);
      if r.Ok? {
        disk.AddDir(Paths.Str(target));
      }
    }
  }

  /** `for package in packages: if not (install / package).exists():
      pip.install(cache / package, install / package)`. The loop stops at the
      first failing install; a successful install leaves its directory behind. */
  method InstallPackages(
    disk: Host.Disk, pip: Pip.Adapter, cache: Paths.Path, install: Paths.Path,
    packages: seq<string>) returns (r: Result<(), Pip.PipError>)
    modifies disk, pip
    ensures var o := InstallRun(pip.run, old(disk.Present()), cache, install, packages);
      && r == o.result
      && pip.calls == old(pip.calls) + o.calls
      && disk.dirs == old(disk.dirs) + o.created
      && disk.files == old(disk.files)
  {
    ghost var start := disk.Present();
    ghost var whole := InstallRun(pip.run, start, cache, install, packages);
    ghost var calls0, dirs0 := pip.calls, disk.dirs;
    ghost var calls: seq<Pip.Invocation> := [];
    ghost var created: set<string> := {};
    var i := 0;
    assert start + created == start && packages[i..] == packages;
    while i < |packages|
      invariant 0 <= i <= |packages|
      invariant disk.files == old(disk.files)
      invariant disk.dirs == dirs0 + created
      invariant pip.calls == calls0 + calls
      invariant Composes(whole, calls, created, i,
        InstallRun(pip.run, start + created, cache, install, packages[i..]))
    {
      r, calls, created := Advance(disk, pip, cache, install, packages, i, start, whole, calls0, dirs0, calls, created);
      if r.Err? {
        return;
      }
      i := i + 1;
    }
    assert packages[i..] == [];
    ComposesDone(whole, calls, created, i,
      InstallRun(pip.run, start + created, cache, install, packages[i..]));
    r := Ok(());
  }

  /** One turn of the install loop, at `packages[i]`, with the ghost account of
      what the loop has done so far (`calls`, `created`) carried forward: after a
      successful turn `whole` is still what has been done followed by the
      specification of the rest of the loop, and after a failing one `whole` is
      exactly what has been done. */
  method Advance(
    disk: Host.Disk, pip: Pip.Adapter, cache: Paths.Path, install: Paths.Path,
    packages: seq<string>, i: nat, ghost start: set<string>, ghost whole: Run,
    ghost calls0: seq<Pip.Invocation>, ghost dirs0: set<string>,
    ghost calls: seq<Pip.Invocation>, ghost created: set<string>)
    returns (r: Result<(), Pip.PipError>, ghost calls': seq<Pip.Invocation>, ghost created': set<string>)
    requires i < |packages|
    requires disk.dirs == dirs0 + created && pip.calls == calls0 + calls
    requires start == dirs0 + disk.files.Keys
    requires Composes(whole, calls, created, i,
      InstallRun(pip.run, start + created, cache, install, packages[i..]))
    modifies disk, pip
    ensures disk.files == old(disk.files)
    ensures disk.dirs == dirs0 + created' && pip.calls == calls0 + calls'
    ensures r.Ok? ==> Composes(whole, calls', created', i + 1,
      InstallRun(pip.run, start + created', cache, install, packages[i + 1..]))
    ensures r.Err? ==> whole == Run(calls', created', i, r)
  {
    ghost var existing := start + created;
    assert disk.Present() == existing;
    ghost var s := StepFor(pip.run, existing, cache, install, packages[i]);
    assert packages[i..][0] == packages[i] && packages[i..][1..] == packages[i + 1..];
    InstallRunStep(pip.run, existing, cache, install, packages[i..]);
    ghost var rest := InstallRun(pip.run, existing + s.created, cache, install, packages[i + 1..]);
    r := InstallOne(disk, pip, cache, install, packages[i]);
    Collections.AppendAssoc(calls0, calls, s.calls);
    calls' := calls + s.calls;
    if r.Err? {
      ComposesFailed(whole, calls, created, i, s, rest);
      created' := created;
    } else {
      ComposesThen(whole, calls, created, i, s, rest);
      created' := created + s.created;
      assert existing + s.created == start + created';
    }
  }

  /** `whole` is what has been done so far followed by `rest`. */
  ghost predicate Composes(whole: Run, calls: seq<Pip.Invocation>, created: set<string>, i: nat, rest: Run)
  {
    && whole.calls == calls + rest.calls
    && whole.created == created + rest.created
    && whole.result == rest.result
    && whole.visited == i + rest.visited
  }

  lemma ComposesThen(whole: Run, calls: seq<Pip.Invocation>, created: set<string>, i: nat, s: Step, rest: Run)
    requires Composes(whole, calls, created, i, Then(s, rest)) && s.result.Ok?
    ensures Composes(whole, calls + s.calls, created + s.created, i + 1, rest)
  {
  }

  lemma ComposesFailed(whole: Run, calls: seq<Pip.Invocation>, created: set<string>, i: nat, s: Step, rest: Run)
    requires Composes(whole, calls, created, i, Then(s, rest)) && s.result.Err?
    ensures whole == Run(calls + s.calls, created, i, s.result)
  {
    assert created + {} == created;
  }

  lemma ComposesDone(whole: Run, calls: seq<Pip.Invocation>, created: set<string>, i: nat, rest: Run)
    requires Composes(whole, calls, created, i, rest) && rest == Run([], {}, 0, Ok(()))
    ensures whole == Run(calls, created, i, Ok(()))
  {
    assert calls + [] == calls;
    assert created + {} == created;
  }
}
