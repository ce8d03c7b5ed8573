# scriptenv, modelled in Dafny

scriptenv makes pip packages importable from a running Python script. It resolves a
requirement list into a set of distribution files with `pip download`. A lock file keyed
by the md5 of the requirement list caches that resolution. Every package is installed
with `pip install --no-deps --target` into a directory of its own, and those directories
are put in front of `sys.path`, `PYTHONPATH` and `PATH`. Three historical variants of this
pipeline are modelled, each as written:

- `ScriptEnv` (module `Runtime`);
- `ScriptEnvBuilder` (module `Builder`);
- `requires` (module `Requires`).

The model also covers the pip shim (`Pip`) and the Pipfile.lock flattening (`Pipfile`).
It covers the release tooling as well:
- commit-message classification, changelog and version bump, in both the current
  (`Release`) and the older (`LegacyRelease`) variant, which share `CommitLog` and
  `Versioning`;
- the requirements updater (`RequirementsTool`).

Each module's state follows the source's own form:
- The mutable world is a set of classes:
  - `Host.Disk` (directories and lock files);
  - `Host.Process` (`sys.path` and `os.environ`);
  - `Pip.Adapter`, a pip oracle with a ghost log of calls;
  - `RequirementsTool.TextFiles`.
- The methods that loop are proved against recursive specification functions of the
  inputs and the old state:
  - the install loop, against `Installer.InstallRun`;
  - the bucket loops, against `CommitLog.Bucket`/`Keys`;
  - the line reader, against `NonEmptyLines`;
  - the file rewriting, against `Rewritten`.
  The properties the source promises are then proved about those functions.
- The md5 hash is a function parameter `hash: string -> string`, and pip is an oracle
  `(command, args) -> Completed(returnCode, stdout)`.
- `git` is an oracle from arguments to output, and PyPI's latest version is an oracle
  from name to version.
- Python's iteration order over a set is a nondeterministic listing,
  `Collections.ListOf`, chosen once per set. The methods that depend on it return that
  order as a ghost out-parameter.
- Paths are a `pathlib`-like normalised value, `Paths.Path(root, parts)`.

The three variants differ, and each is modelled as its code reads:
- Only `requires` sorts before hashing (scriptenv/requires.py:27-29), so that any order of
  the same requirements hits the same lock.
  - `ScriptEnv` and `ScriptEnvBuilder` hash the list as given.
  - `Layout.KeyTextInjective` proves that two different lists have different key texts
    when both are non-empty and no requirement contains a newline. Outside those
    conditions texts do collide: `[]` and `[""]` both give `""`, and `["a\nb"]` and
    `["a", "b"]` both give `"a\nb"`.
  - Even `requires` keeps duplicates in the key.
- `ScriptEnvBuilder.build` calls `ScriptEnv(self.install_path, packages)`
  (scriptenv/builder.py:40), a signature the shown `ScriptEnv.__init__(config)` does not
  have. `Builder.ScriptEnvBuilder.Build` returns the pair it would pass, a
  `BuiltEnv(installPath, packages)`.
- `ScriptEnvBuilder` reads `self._config.use_lockfile`, a field the shown `Config` does
  not define. The model takes it as a constructor parameter.

## Model

| member | source | states |
|---|---|---|
| Paths.ParseStr | scriptenv/scriptenv.py:77 | `str()` of a normalised path parses back to the same path |
| Paths.StrInjective | scriptenv/scriptenv.py:77 | two well-formed paths with the same text are the same path |
| Paths.JoinComponent | scriptenv/scriptenv.py:22-35 | `p / name` appends one component; its parent is `p` and its name is `name` |
| Paths.JoinDistinct | scriptenv/scriptenv.py:57 | joining different component names to one directory gives different path texts |
| Strings.Strip | tools/requirements.py:58 | a stripped line neither starts nor ends with whitespace |
| Strings.StripIdempotent | tools/requirements.py:58 | stripping twice is stripping once |
| Strings.StripEmptyIff | tools/requirements.py:58-59 | a line strips to the empty string exactly when it is all whitespace |
| Strings.JoinSplit | scriptenv/scriptenv.py:73-75 | joining the pieces of a split gives the text back |
| Strings.SplitJoin | scriptenv/scriptenv.py:73-75 | splitting a join of separator-free pieces gives the pieces back |
| Strings.Split | scriptenv/scriptenv.py:73 | `str.split(sep)` gives at least one piece, and no piece holds the separator |
| Strings.SplitOnce | tools/requirements.py:51 | `split("==", 1)`: the split is at the first `==`, the two parts around it rebuild the line, and there is no split exactly when the line has no `==` |
| Strings.FindFrom | tools/requirements.py:51 | the first occurrence of a pattern at or after a position, or none at all |
| Strings.LStripChar | tools/release.py:84 | `lstrip("v")` removes exactly the leading run of `v`s |
| Strings.TakeLine | tools/release.py:23 | `.*` stops before the first newline |
| Strings.ReplaceAbsent | tools/requirements.py:25-28 | `str.replace` leaves a text without the pattern unchanged |
| Collections.ListOf | scriptenv/scriptenv.py:56 | iterating a set visits each element exactly once |
| Collections.Elements | scriptenv/scriptenv.py:52 | `set(list)` holds exactly the list's elements |
| Collections.ReverseAppend | scriptenv/requires.py:42 | reversing a concatenation reverses and swaps the parts |
| Sorting.Sort | scriptenv/requires.py:28 | `sorted(...)` is sorted and a permutation of its input |
| Sorting.SortedUnique | scriptenv/requires.py:28 | two sorted permutations of each other are equal |
| Sorting.SortPermutation | scriptenv/requires.py:27-29 | permuted inputs sort to the same list |
| Host.Disk.MakeDirs | scriptenv/scriptenv.py:20 | `mkdir(parents=True, exist_ok=True)` adds the directory and all its ancestors and touches no file |
| Layout.LayoutUnderCache | scriptenv/scriptenv.py:22-35 | `locks`, `install` and `cache` sit directly under the cache root and are three different directories; `ScriptEnvBuilder` (scriptenv/builder.py:21-34) uses the same layout |
| Layout.KeyTextInjective | scriptenv/scriptenv.py:45 | for non-empty lists of newline-free requirements, the `"\n"`-joined key text determines the list, so a permuted list gives a different key text |
| Layout.KeyText | scriptenv/scriptenv.py:45 | the requirements joined by `\n` in the order given; `KeyTextInjective` proves the list can be read back from it |
| Layout.LockFile | scriptenv/scriptenv.py:45-46 | `locks_path / md5(key text)`; `LockFileInLocks` places it in the locks directory |
| Layout.LockFileInLocks | scriptenv/scriptenv.py:45-46 | the lock file is `locks/<hash of the key text>` under the cache root |
| Pip.RunPip | scriptenv/pip.py:44-49 | `_pip` fails with `PipError(code)` exactly when the return code is non-zero, and otherwise returns the captured stdout |
| Pip.DownloadArgs | scriptenv/pip.py:28 | the download argv is `--dest <dest>` followed by the requirements |
| Pip.InstallArgs | scriptenv/pip.py:34-41 | the install argv is `--no-deps --no-user --target <target> <package>` |
| Pip.DownloadOutcome | scriptenv/pip.py:23-29 | download fails exactly when pip's return code is non-zero; every returned name is a valid distribution name |
| Pip.InstallOutcome | scriptenv/pip.py:32-41 | install fails exactly when pip's return code is non-zero |
| Pip.Adapter.Download | scriptenv/pip.py:23-29 | one `download` call with the download argv is logged, and the result is the download outcome |
| Pip.Adapter.Install | scriptenv/pip.py:32-41 | one `install` call with the install argv is logged, and the result is the install outcome |
| Pip.ExtensionAt | scriptenv/pip.py:11 | the length of the `.tar.gz` or `.whl` that starts at a position, zero when there is none, and within the text |
| Pip.ExtensionSpelled | scriptenv/pip.py:11 | the extension found at a position is spelled `.tar.gz` (tried first) or `.whl` |
| Pip.ScanStem | scriptenv/pip.py:11 | the lazy stem `[^(/\|\\)]+?` ends at the first position after at least one character where an extension starts; every stem character is allowed |
| Pip.StemEndAt | scriptenv/pip.py:11 | a match starts at a separator `/` or `\`, and its stem is non-empty |
| Pip.MatchIsValidName | scriptenv/pip.py:11 | the `name` group of a match is a valid distribution name |
| Pip.FoundNamesAreValid | scriptenv/pip.py:11 | every name `finditer` finds from a position on is valid |
| Pip.FoundNamesFollowSeparators | scriptenv/pip.py:11 | every name found is immediately preceded by a separator at or after the start position |
| Pip.NamesAreValid | scriptenv/pip.py:29 | every downloaded name ends in `.tar.gz` or `.whl`, has a non-empty stem free of `/ \ ( ) \|` and of earlier extensions, and follows a separator in stdout |
| Pip.PackageNames | scriptenv/pip.py:29 | the set of `name` groups of all matches; `NamesAreValid`, `NoSeparatorNoNames` and `RepeatedMention` state what it holds |
| Pip.NoSeparatorNoNames | scriptenv/pip.py:11 | output without a separator names no package |
| Pip.RepeatedMention | scriptenv/pip.py:29 | a file mentioned twice is one element of the result set |
| Pip.LazyStem | scriptenv/pip.py:11 | `/a.whl.whl` yields `a.whl`: the stem stops at the first extension |
| Pipfile.LockPathOfDirectory | scriptenv/pipfile.py:10-11 | a directory stands for its `Pipfile.lock`; a file is taken as is |
| Pipfile.PackageRequirementsOk | scriptenv/pipfile.py:14 | a section flattens exactly when every package has a `version`, and then gives one `name + version` per package, in order |
| Pipfile.ReadableCons | scriptenv/pipfile.py:15-17 | a document is readable when its first section is `_meta`, or a package table with versions everywhere, and so is the rest |
| Pipfile.RequirementsOk | scriptenv/pipfile.py:13-18 | parsing succeeds exactly when the document is readable, and then gives one string per package of the non-`_meta` sections, in section and package order |
| Pipfile.RequirementsAppend | scriptenv/pipfile.py:15-17 | the output of two documents in a row is the first output followed by the second, or the first error |
| Pipfile.MetaIgnored | scriptenv/pipfile.py:16 | a `_meta` section contributes nothing, whatever its value |
| Pipfile.ParsePipfileLock | scriptenv/pipfile.py:8-18 | parsing succeeds exactly when the lock file exists and is readable, and then gives as many strings as it has packages |
| Installer.Targets | scriptenv/scriptenv.py:77 | one install directory `install/p` per package, in order |
| Installer.TargetsAppend | scriptenv/scriptenv.py:77 | the directories of two lists in a row are those of the first followed by those of the second |
| Installer.InstallRun | scriptenv/scriptenv.py:54-60 | the loop goes through every package exactly when no install fails |
| Installer.InstallSkipsPresent | scriptenv/scriptenv.py:57 | when every install directory exists, no pip call is made and nothing is created |
| Installer.InstallOnlyMissing | scriptenv/scriptenv.py:56-60 | every install call is `(cache/p, install/p)` for a listed package whose directory was absent |
| Installer.InstallCreatesMissing | scriptenv/scriptenv.py:57-60 | every directory created is the absent install directory of a listed package |
| Installer.InstallCompletes | scriptenv/scriptenv.py:56-60 | after a successful loop every listed package's install directory exists |
| Installer.InstallIdempotent | scriptenv/scriptenv.py:56-60 | a second loop over the same packages makes no pip call |
| Installer.InstallExactlyMissing | scriptenv/scriptenv.py:56-60 | when installs succeed, the calls are exactly those for the missing packages, in iteration order |
| Installer.InstallRunStep | scriptenv/scriptenv.py:56-60 | the loop is its first package's step followed by the loop over the rest |
| Installer.InstallOne | scriptenv/scriptenv.py:57-60 | one package: install when its directory is absent, skip it otherwise |
| Installer.InstallPackages | scriptenv/scriptenv.py:54-60 | the loop's result, pip calls and created directories are those of `InstallRun`, and no file changes |
| Runtime.ExtendEnvironPath | scriptenv/scriptenv.py:71-75 | only the named variable is set or changed |
| Runtime.ExtendUnset | scriptenv/scriptenv.py:72-75 | an unset variable becomes the items joined by `os.pathsep` |
| Runtime.ExtendSet | scriptenv/scriptenv.py:72-75 | a set variable keeps its old value verbatim after the new items and a separator |
| Runtime.ExtendNothing | scriptenv/scriptenv.py:72-75 | extending a set variable by no items leaves the environment as it was |
| Runtime.ExtendSplits | scriptenv/scriptenv.py:72-75 | the new value splits into the items followed by the old value's pieces |
| Runtime.BinDirs | scriptenv/scriptenv.py:82 | one `install/p/bin` per package, in order |
| Runtime.RuntimeEnvironEffect | scriptenv/scriptenv.py:78-83 | `PYTHONPATH` gets the install directories and `PATH` the `bin` directories, each in front of the old value, and no other variable changes |
| Runtime.ScriptEnv.constructor | scriptenv/scriptenv.py:17-20 | the locks directory exists after construction |
| Runtime.ScriptEnv.FetchRequirements | scriptenv/scriptenv.py:43-52 | the result is `Layout.FetchOutcome` of the files before the call: on a lock hit the stored list as a set with no pip call; on a miss exactly one download into the package cache, whose successful result is stored and returned; afterwards the lock file is present |
| Runtime.ScriptEnv.FetchTwice | scriptenv/scriptenv.py:43-52 | a second fetch of the same list after a successful one is a cache hit: same result, and pip's log grows only by the first fetch's download, made only when the lock file was missing |
| Runtime.ScriptEnv.InstallPackages | scriptenv/scriptenv.py:54-60 | the install loop over the cache and install directories |
| Runtime.ScriptEnv.UpdateRuntime | scriptenv/scriptenv.py:62-83 | `sys.path` becomes the install directories followed by the old `sys.path`, and the environment is updated as `RuntimeEnviron` says |
| Runtime.ScriptEnv.InstallAndUpdate | scriptenv/scriptenv.py:40-41 | the result and pip calls are those of `InstallRun` over the paths present; when installing fails, `sys.path` and the environment are untouched; otherwise every package is installed and the runtime updated in the listing order |
| Runtime.ScriptEnv.Apply | scriptenv/scriptenv.py:37-41 | a failed fetch is the result, with only the fetch's pip call and the runtime untouched; otherwise `order` lists exactly the fetched set, the result and pip calls are the fetch's followed by `InstallRun` over the paths present plus the lock file, and on success every package is installed and leads `sys.path`, `PYTHONPATH` and `PATH` |
| Builder.ScriptEnvBuilder.constructor | scriptenv/builder.py:16-19 | the locks directory exists after construction |
| Builder.ScriptEnvBuilder.FetchRequirements | scriptenv/builder.py:42-52 | the result is `Layout.FetchOutcome` with `use_lockfile`: as in `ScriptEnv`, but with `use_lockfile` off pip is always called, the lock store is neither read nor written, and the download result is returned directly |
| Builder.ScriptEnvBuilder.InstallPackages | scriptenv/builder.py:54-60 | the install loop over the cache and install directories |
| Builder.ScriptEnvBuilder.Build | scriptenv/builder.py:36-40 | a failed fetch is the result; otherwise `order` lists exactly the fetched set, pip is called for the fetch and then as `InstallRun` says, a failed install is the result, and a successful build holds the install path and exactly the fetched packages, each of which is installed |
| Requires.LayoutUnderBase | scriptenv/requires.py:21-25 | `download`, `install` and `dependencies` sit directly under the base and are three different directories |
| Requires.KeyTextPermutation | scriptenv/requires.py:27-29 | any permutation of the requirements gives the same key text |
| Requires.KeyText | scriptenv/requires.py:27-29 | the sorted requirements joined by `\n`; `KeyTextPermutation` proves every order of them gives it |
| Requires.ListFile | scriptenv/requires.py:27-30 | `dependencies_path / md5(key text)`, so every order of the requirements names the same list file |
| Requires.ResolvePackages | scriptenv/requires.py:30-36 | the result is `ResolveOutcome` of the paths before the call: on a hit there is no download and the stored list is read back as a set (a directory of that name is an error); on a miss exactly one download into `download`, and the list is stored |
| Requires.Prepended | scriptenv/requires.py:42 | putting the next directory in front extends the reversed prefix by one |
| Requires.PrependDir | scriptenv/requires.py:42 | `sys.path[0:0] = [dir]` for the next package keeps `sys.path` the reversed install directories followed by the rest |
| Requires.InstallAndPrepend | scriptenv/requires.py:38-42 | the install loop, with `sys.path` holding, in reverse, the install directories of the packages gone through |
| Requires.InstallResolved | scriptenv/requires.py:38-42 | the install loop's pip calls, with a failure reported as `PipFailed`; `sys.path` gains the reversed directories of the packages gone through, and all of them, each installed, on success |
| Requires.Requires | scriptenv/requires.py:12-42 | the dependencies directory exists afterwards and the environment never changes; a failed resolution is the result with no further pip call and `sys.path` untouched; otherwise `order` lists exactly the resolved set (with no download on a list hit), pip is called as `InstallRun` says, and `sys.path` gains, in reverse, the directories of the packages gone through: all of them on success |
| CommitLog.Classify | tools/release.py:22-24 | a message is classified exactly when it starts with `[kw] ` for a keyword, the first such keyword in the alternation wins, and the entry is the rest of the first line |
| CommitLog.ClassifyFirst | tools/release.py:22-24 | a message whose first matching tag is keyword number i is classified as that keyword |
| CommitLog.KeyKnown | tools/release.py:113-115 | a message's key is `None` or one of the keywords |
| CommitLog.KeysOf | tools/release.py:110-118 | a bucket exists exactly for the keys of some message |
| CommitLog.Bucket | tools/release.py:110-118 | a bucket holds at most one entry per message; its contents are characterised by `BucketAppend`, `FiledSnoc` and `BucketEmpty` |
| CommitLog.Keys | tools/release.py:110-118 | a log creates some bucket exactly when it is not empty; `KeysOf` says which |
| CommitLog.BucketAppend | tools/release.py:110-118 | the buckets of two logs in a row are the buckets of the first followed by those of the second |
| CommitLog.FiledSnoc | tools/release.py:112-117 | one more message appends its entry to its own bucket and to no other |
| CommitLog.BucketEmpty | tools/release.py:111 | a bucket is empty exactly when no message has its key |
| CommitLog.BucketsPartition | tools/release.py:112-117 | buckets over distinct keys that cover all messages hold as many entries as there are messages |
| CommitLog.BucketsPartitionAll | tools/release.py:112-117 | the `None` bucket and the keyword buckets together hold every message exactly once |
| CommitLog.Invalid | release.py:34-38 | the invalid messages are messages of the log that do not match |
| CommitLog.InvalidIsNoneBucket | tools/release.py:37-39 | the unmatched messages, in order, are the `None` bucket |
| CommitLog.InvalidEmpty | release.py:40-41 | there is no invalid message exactly when every message matches |
| CommitLog.Prefixed | tools/release.py:133-134 | one `prefix + m` line per message, in order: the `  * m` items of a category and, with `Invalid commit message: `, the check's lines (tools/release.py:40) |
| CommitLog.Changelog | tools/release.py:121-126 | the keyword table walked in order, each shown non-empty category contributing its block; `ChangelogKeep` and `ChangelogSkip` state it one entry at a time |
| CommitLog.ChangelogKeep | tools/release.py:124-126 | a shown category contributes its block, when not empty, before the rest |
| CommitLog.ChangelogSkip | tools/release.py:124-125 | a category that is not shown contributes nothing |
| CommitLog.OldestFirst | tools/release.py:107 | the commits are the log lines in reverse, oldest first |
| Versioning.LessTransitive | tools/release.py:99 | the semver order is transitive across at-most and less |
| Versioning.NatStr | tools/release.py:84 | a version number prints as decimal digits without a leading zero |
| Versioning.Str | tools/release.py:67 | `str(version)` as `M.m.p`; `ParseStr` proves that `Parse` reads it back |
| Versioning.Parse | tools/release.py:84 | `VersionInfo.parse` for `M.m.p`; `ParseStr` proves it inverts `Str` |
| Versioning.Run | tools/release.py:78-79 | `_git` gives the oracle's output, stripped: it neither starts nor ends with whitespace |
| Versioning.ParseNatStr | tools/release.py:84 | a printed number parses back to itself |
| Versioning.ParseStr | tools/release.py:84 | a printed version `M.m.p` parses back to itself |
| Versioning.NonEmpty | tools/release.py:87-91 | `filter(bool, ...)` keeps exactly the non-empty lines |
| Versioning.NonEmptyAppend | tools/release.py:87-91 | filtering two runs of lines in a row filters each, so the kept lines keep their order and multiplicity |
| Versioning.NonEmptyOne | tools/release.py:87-88 | one line is kept when it is not empty and dropped otherwise |
| Versioning.ParseTag | tools/release.py:84-86 | a parsed tag line is `tag;commit` whose tag, without its leading `v`s, is the version |
| Versioning.TryMapOkIff | tools/release.py:83-94 | reading every line succeeds exactly when each one does |
| Versioning.TryMapValues | tools/release.py:83-94 | a successful read gives one value per line, in order |
| Versioning.TryMapFirstError | tools/release.py:83-94 | a failed read reports the first line that fails |
| Versioning.ParseTagsEach | tools/release.py:82-94 | the tag lines parse exactly when each line does, one pair per line, or with the first line's error |
| Versioning.VersionMap | tools/release.py:83-94 | the dict has exactly the tagged versions as keys |
| Versioning.VersionMapLast | tools/release.py:83-94 | a version tagged more than once maps to the commit of its last line |
| Versioning.MaxVersion | tools/release.py:99 | `max(versions)` is a tagged version at least as large as every other |
| Versioning.Latest | tools/release.py:97-100 | with no tags the latest is `0.0.0` without a commit; otherwise it is the largest tagged version, and its commit is the one of that version's last tag line, which is `versions.get(latest)` |
| Versioning.LastTagOf | tools/release.py:100 | the last tag line of a tagged version, whose commit the dict keeps |
| Versioning.LogArgs | tools/release.py:103-106 | `git log --pretty=%s`, with `HEAD...<hash>` appended only for a non-empty hash |
| Versioning.CommitsSince | tools/release.py:103-107 | the subjects since the hash, oldest first; `CommitLog.OldestFirst` states the reversal |
| Versioning.Bump | tools/release.py:58-60 | a minor bump is `(M, m+1, 0)` and a patch bump `(M, m, p+1)`, each above the old version |
| Versioning.NextAfter | tools/release.py:54-60 | the next version is above the latest tagged one |
| Versioning.BumpAboveTags | tools/release.py:58-60 | the new version is above every tagged version |
| Versioning.NextAfterAbove | tools/release.py:53-60 | the next version is above every tagged version |
| Versioning.BumpOnFeature | tools/release.py:55-60 | the bump is minor exactly when a feature commit exists |
| Versioning.NextAfterFeature | tools/release.py:53-60 | the next version is a minor bump of the latest exactly when a feature commit exists since the latest tag |
| Versioning.NextAfterNoTags | tools/release.py:99 | with no tags the base is `0.0.0` and the whole log counts |
| Versioning.LabelledShape | tools/release.py:61-67 | on the release-candidate ref the version prints bare; otherwise it is followed by `+<hash>` |
| Release.KeywordsOfTable | tools/release.py:14-24 | the regex alternation is the table's keywords, in order |
| Release.KeywordsDistinct | tools/release.py:14-20 | the five keywords differ |
| Release.FileStep | tools/release.py:112-117 | filing the next message keeps the buckets those of the log read so far |
| Release.CommitsByCategory | tools/release.py:110-118 | every message is appended, in order, to its keyword's bucket or to `None`; a bucket exists exactly for the keys that occur |
| Release.BucketsCoverCommits | tools/release.py:110-118 | every message lands in exactly one bucket |
| Release.CheckReportsInvalid | tools/release.py:35-42 | the check prints one line per unmatched message, oldest first, and exits with status 1 exactly when there is one |
| Release.CheckCommitMessages | tools/release.py:35-42 | the check exits with status 1 exactly when it printed a line |
| Release.ChangelogOrder | tools/release.py:121-126 | the changelog is the Features, Bugfixes and Internal blocks in this order, each left out when empty |
| Release.Changelog | tools/release.py:45-49 | `changelog()` fails exactly when a tag line cannot be read |
| Release.Version | tools/release.py:52-67 | `version()` fails exactly when a tag line cannot be read |
| Release.DocsAccepted | tools/release.py:19-24 | `[docs] m` is a docs commit with entry `m` |
| LegacyRelease.KeywordsOfTable | release.py:14-23 | the regex alternation is the four keywords of the table |
| LegacyRelease.FileMatched | release.py:112-114 | a matching message is appended to its keyword's bucket |
| LegacyRelease.FileUnmatched | release.py:112-113 | an unmatched message is dropped |
| LegacyRelease.CommitsByCategory | release.py:109-115 | every matching message is appended, in order, to its keyword's bucket; the others are dropped and there is no `None` bucket |
| LegacyRelease.CheckFailsOnInvalid | release.py:32-41 | the check fails exactly when some message of the whole log does not match |
| LegacyRelease.CheckCommitMessages | release.py:32-41 | the check exits with status 1 exactly when it printed a line |
| LegacyRelease.ChangelogOrder | release.py:118-125 | the changelog is the Features, Bugfixes and Internal blocks in this order, each left out when empty |
| LegacyRelease.Changelog | release.py:44-48 | `changelog()` fails exactly when a tag line cannot be read |
| LegacyRelease.Version | release.py:51-66 | `version()` fails exactly when a tag line cannot be read |
| LegacyRelease.DocsRejected | release.py:14-23 | `[docs] m` does not match in this variant |
| RequirementsTool.StrSplitsAtName | tools/requirements.py:16-17 | `str(requirement)` is `name==version (source)`, and splits back at the name |
| RequirementsTool.Str | tools/requirements.py:16-17 | `name==version (source)`; `StrSplitsAtName` splits it back at the name |
| RequirementsTool.NonEmptyLines | tools/requirements.py:55-60 | at most as many lines as read, none empty |
| RequirementsTool.NonEmptyLinesStripped | tools/requirements.py:58 | every line kept is stripped |
| RequirementsTool.NonEmptyLinesAppend | tools/requirements.py:57-60 | lines are kept in order, each on its own |
| RequirementsTool.NonEmptyLinesOne | tools/requirements.py:58-60 | a line is kept stripped when it is not blank and dropped otherwise |
| RequirementsTool.NonEmptyLinesSnoc | tools/requirements.py:57-60 | one more line read adds its stripped form, or nothing when blank |
| RequirementsTool.ReadNonEmptyLines | tools/requirements.py:55-60 | a missing file is an error; otherwise the stripped non-blank lines in order |
| RequirementsTool.KeepNonEmpty | tools/requirements.py:57-60 | the loop keeps exactly the stripped non-blank lines |
| RequirementsTool.ChainAssoc | tools/requirements.py:46-52 | yielding from several generators in a row is associative, errors included |
| RequirementsTool.ParseRequirement | tools/requirements.py:51-52 | a line parses exactly when it holds `==`; the name ends where the first `==` starts (so `pkg===1.0` gives `pkg` and `=1.0`), name, `==` and version rebuild the line, and the source is the current file |
| RequirementsTool.GetLine | tools/requirements.py:46-52 | every requirement read comes from an existing file |
| RequirementsTool.GetLines | tools/requirements.py:46-52 | every requirement read comes from an existing file |
| RequirementsTool.GetFile | tools/requirements.py:43-52 | a file is read only when it exists, and so are all the files it includes |
| RequirementsTool.Get | tools/requirements.py:43-52 | the default file is `requirements.txt`, and every requirement has an existing source |
| RequirementsTool.GetLinesAppend | tools/requirements.py:46-52 | the requirements of two line lists in a row are those of the first followed by those of the second |
| RequirementsTool.IncludeLine | tools/requirements.py:47-48 | `-r link` starts with `-r` and splits into exactly two words |
| RequirementsTool.IncludeInPlace | tools/requirements.py:47-49 | a `-r link` line expands in place to the requirements of `parent/link` |
| RequirementsTool.IncludeStep | tools/requirements.py:47-49 | a `-r link` line reads `parent/link`, one level deeper |
| RequirementsTool.PinnedLine | tools/requirements.py:50-52 | a pinned line gives one requirement, whose name and version rebuild the line, from the current file |
| RequirementsTool.SelfIncludeStep | tools/requirements.py:47-49 | a file that only includes itself fails one level deeper too |
| RequirementsTool.SelfIncludeFails | tools/requirements.py:47-49 | a file that only includes itself never finishes reading |
| RequirementsTool.UpdatesOf | tools/requirements.py:32-40 | an update is yielded for a requirement exactly when its latest version differs from the pinned one |
| RequirementsTool.Updates | tools/requirements.py:32-40 | at most one update per requirement, each carrying the latest version, which differs from the pinned one |
| RequirementsTool.UpdatesAppend | tools/requirements.py:34-40 | updates follow the order of the requirements |
| RequirementsTool.UpdatesSources | tools/requirements.py:22-24 | every update's source is an existing file |
| RequirementsTool.RewritePinLines | tools/requirements.py:24-29 | the rewrite keeps the number of lines and changes only the lines that pin the old version |
| RequirementsTool.RewritePin | tools/requirements.py:24-29 | the corrected rewrite, line by line; `RewritePinLines` states which lines change |
| RequirementsTool.RewriteAsWritten | tools/requirements.py:24-29 | `str.replace` of `name==old` by `name==new` over the whole text; `RewriteAsWrittenOverreaches` shows what else it changes |
| RequirementsTool.Rewrite | tools/requirements.py:24-29 | the rewrite of one file for one update: `str.replace` as written, or the corrected line-wise rewrite |
| RequirementsTool.RewriteAsWrittenOverreaches | tools/requirements.py:24-29 | `str.replace` also rewrites `pin` where it is the tail of another package's pin |
| RequirementsTool.Rewritten | tools/requirements.py:24-29 | only files that some update names change |
| RequirementsTool.RewrittenSnoc | tools/requirements.py:22-29 | each further update rewrites its own source file and no other |
| RequirementsTool.TextFiles.WriteText | tools/requirements.py:24 | `write_text` replaces that one file's text |
| RequirementsTool.UpdateOne | tools/requirements.py:22-29 | one update: its announcement is appended and its source file rewritten |
| RequirementsTool.Announcement | tools/requirements.py:23 | the line `name: old => new` yielded for an update |
| RequirementsTool.RewriteAll | tools/requirements.py:22-29 | one announcement per update in order, and the files rewritten update by update |
| RequirementsTool.Update | tools/requirements.py:20-29 | a failure to read the requirements is reported with nothing written; otherwise one `name: old => new` line per update, and the files rewritten update by update, with `str.replace` as the source does it or with the corrected rewrite |

## Left out

- File system errors other than a missing or unreadable file, partial-install cleanup, and races between processes on the lock and install directories: the source does not handle them.
- md5 is an arbitrary function parameter, and JSON encoding is not modelled. The lock file stores the listed packages as a sequence.
- pip's own commands and the stdout redirection of `_redirect_stdout` are an oracle that returns a return code and the captured text.
- `git` and the PyPI `requests` calls are oracles from arguments to output. `release_candidate`/`release_canidate` only push tags and are not modelled.
- `semver`'s parser is modelled only for `M.m.p` with decimal numbers. Pre-release and build parts are not accepted.
- scriptenv/cli.py, scriptenv/config.py and scriptenv/__init__.py are not part of this model: they only parse arguments, read configuration and spawn processes. `cache_path`, `use_lockfile` and the cache base of `requires` (`appdirs`) are parameters.
- Python's `RecursionError` on a deep or cyclic `-r` chain is the `fuel` bound of `RequirementsTool.Get`, which fails with `OutOfFuel`.
- Generators are modelled by the sequences they yield. Lines yielded before an exception, and the laziness of `get` reading files while `update` writes them, are not modelled. `Update` reads all requirements before it writes.
- Files are split at `'\n'` only. Universal newlines (a lone `'\r'`) are not modelled.
- Pipfile.lock spec values are kept as the text they format to. A non-string `version` is not distinguished from a string one.
- `os.pathsep` is `':'`, POSIX only.
- Paths.Parse: any run of leading `/` is read as the one root `/`. POSIX `pathlib` keeps exactly two leading slashes (`//a`) as a root of their own, and that case is not modelled.
- `set` iteration order is an arbitrary listing of the set, chosen by `Collections.ListOf`. The order is the ghost out-parameter of `Apply`, `Build` and `Requires`.
- Runtime.ScriptEnv.FetchTwice: states the second fetch only after a successful first fetch; a failed first fetch is described by `FetchRequirements`.
- Versioning.ParseTag: states the shape of a successful parse. The failing cases are written out in its body: a line with other than one `;`, and a tag that is not a version.
- `RequirementsTool.Update` takes the rewrite as a flag. With `asWritten` it is the source's `str.replace`. Otherwise it is the corrected line-wise `RewritePin` (see Findings), which compares stripped lines and writes the new pin without the surrounding whitespace of the old line.

## Findings

| source | as written | input that shows it | evidently intended | confidence | as-written member | corrected member |
|---|---|---|---|---|---|---|
| tools/requirements.py:24-29 | `update` replaces every occurrence of `name==old` anywhere in the file | updating `mock` from `1.0` to `2.0` in a file that also holds `pytest-mock==1.0` rewrites that line to `pytest-mock==2.0` | only the line that pins `name==old` is rewritten | not executed | RequirementsTool.RewriteAsWrittenOverreaches | RequirementsTool.RewritePinLines |
