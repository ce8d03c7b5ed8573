/** `parse_pipfile_lock` (scriptenv/pipfile.py): a Pipfile.lock, or a directory
    holding one, flattened into requirement strings. The JSON document is taken
    as already decoded: its top-level keys in order, each with an object of
    packages (or some other value), each package with its spec object. */
module Pipfile {
  import opened Wrappers
  import Paths
  import Collections

  /** The top-level key whose value is not a package table. */
  const MetaSection: string := "_meta"

  /** A package entry: its name and its spec object, each value kept as the
      text it formats to. */
  datatype Package = Package(name: string, spec: map<string, string>)

  /** The value of a top-level key: an object of packages, or any other JSON
      value, which has no `.items()`. */
  datatype Body = Packages(packages: seq<Package>) | NotAnObject

  datatype Section = Section(name: string, body: Body)

  type Document = seq<Section>

  /** What parsing can raise: a section that is not an object, a package without
      a `version`, or a lock file that cannot be read. */
  datatype PipfileError =
    | NotAPackageTable(section: string)
    | MissingVersion(section: string, package: string)
    | Unreadable(path: string)

  /** A directory argument stands for the `Pipfile.lock` inside it. */
  function LockPath(p: Paths.Path, isDir: bool): Paths.Path
  {
    if isDir then Paths.Join(p, "Pipfile.lock") else p
  }

  lemma LockPathOfDirectory(p: Paths.Path)
    ensures Paths.Parent(LockPath(p, true)) == p && Paths.Name(LockPath(p, true)) == "Pipfile.lock"
    ensures LockPath(p, false) == p
  {
    Paths.JoinComponent(p, "Pipfile.lock");
  }

  /** `f"{package_name}{package_spec['version']}"` for the packages of one
      section, in order, failing at the first one without a version. */
  function PackageRequirements(section: string, packages: seq<Package>): Result<seq<string>, PipfileError>
  {
    if packages == [] then Ok([])
    else if "version" !in packages[0].spec then Err(MissingVersion(section, packages[0].name))
    else
      var rest :- PackageRequirements(section, packages[1..]);
      Ok([packages[0].name + packages[0].spec["version"]] + rest)
  }

  /** The generator, consumed to the end: sections in order, `_meta` skipped,
      packages in order within each section; the first failure is raised. */
  function Requirements(doc: Document): Result<seq<string>, PipfileError>
  {
    if doc == [] then Ok([])
    else if doc[0].name == MetaSection then Requirements(doc[1..])
    else
      match doc[0].body
      case NotAnObject => Err(NotAPackageTable(doc[0].name))
      case Packages(ps) =>
        var head :- PackageRequirements(doc[0].name, ps);
        var rest :- Requirements(doc[1..]);
        Ok(head + rest)
  }

  /** The package entries of the document, flattened: every package of every
      section other than `_meta`, in document order. */
  function Entries(doc: Document): seq<Package>
  {
    if doc == [] then []
    else if doc[0].name == MetaSection || doc[0].body.NotAnObject? then Entries(doc[1..])
    else doc[0].body.packages + Entries(doc[1..])
  }

  /** A document the generator runs through: every section other than `_meta`
      is an object and every package in it has a version. */
  predicate Readable(doc: Document)
  {
    && (forall i :: 0 <= i < |doc| && doc[i].name != MetaSection ==> doc[i].body.Packages?)
    && (forall k :: 0 <= k < |Entries(doc)| ==> "version" in Entries(doc)[k].spec)
  }

  /** The requirement string of a package entry. */
  function Requirement(p: Package): string
    requires "version" in p.spec
  {
    p.name + p.spec["version"]
  }

  lemma {:induction false} PackageRequirementsOk(section: string, ps: seq<Package>)
    ensures PackageRequirements(section, ps).Ok?
      <==> forall k :: 0 <= k < |ps| ==> "version" in ps[k].spec
    ensures PackageRequirements(section, ps).Ok? ==>
      var r := PackageRequirements(section, ps).value;
      |r| == |ps| && forall k :: 0 <= k < |ps| ==> r[k] == Requirement(ps[k])
  {
    if ps != [] {
      PackageRequirementsOk(section, ps[1..]);
      assert forall k :: 1 <= k < |ps| ==> ps[k] == ps[1..][k - 1];
    }
  }

  /** Readability of a document, section by section. */
  lemma ReadableCons(doc: Document)
    requires doc != []
    ensures Readable(doc) <==>
      if doc[0].name == MetaSection then Readable(doc[1..])
      else
        && doc[0].body.Packages?
        && (forall k :: 0 <= k < |doc[0].body.packages| ==> "version" in doc[0].body.packages[k].spec)
        && Readable(doc[1..])
  {
    assert forall i :: 1 <= i < |doc| ==> doc[i] == doc[1..][i - 1];
    if doc[0].name == MetaSection {
      assert Entries(doc) == Entries(doc[1..]);
    } else if doc[0].body.Packages? {
      var ps := doc[0].body.packages;
      var es := Entries(doc);
      assert es == ps + Entries(doc[1..]);
      assert forall k :: |ps| <= k < |es| ==> es[k] == Entries(doc[1..])[k - |ps|];
      if !Readable(doc[1..]) {
        if !(forall i :: 0 <= i < |doc[1..]| && doc[1..][i].name != MetaSection ==> doc[1..][i].body.Packages?) {
          var i :| 0 <= i < |doc[1..]| && doc[1..][i].name != MetaSection && !doc[1..][i].body.Packages?;
          assert doc[i + 1] == doc[1..][i];
        } else {
          var k :| 0 <= k < |Entries(doc[1..])| && "version" !in Entries(doc[1..])[k].spec;
          assert es[k + |ps|] == Entries(doc[1..])[k];
        }
      }
      if !(forall k :: 0 <= k < |ps| ==> "version" in ps[k].spec) {
        var k :| 0 <= k < |ps| && "version" !in ps[k].spec;
        assert es[k] == ps[k];
      }
    } else {
      assert doc[0].name != MetaSection && !doc[0].body.Packages?;
    }
  }

  /** The generator succeeds exactly on readable documents, and then yields one
      requirement per package entry, in document order. */
  lemma {:induction false} RequirementsOk(doc: Document)
    ensures Requirements(doc).Ok? <==> Readable(doc)
    ensures Requirements(doc).Ok? ==>
      var r := Requirements(doc).value;
      var es := Entries(doc);
      |r| == |es| && forall k :: 0 <= k < |es| ==> "version" in es[k].spec && r[k] == Requirement(es[k])
  {
    if doc != [] {
      RequirementsOk(doc[1..]);
      ReadableCons(doc);
      if doc[0].name != MetaSection && doc[0].body.Packages? {
        var ps := doc[0].body.packages;
        PackageRequirementsOk(doc[0].name, ps);
        var es := Entries(doc);
        assert es == ps + Entries(doc[1..]);
        assert forall k :: |ps| <= k < |es| ==> es[k] == Entries(doc[1..])[k - |ps|];
      }
    }
  }

  /** Reading the concatenation of two documents: the first one's requirements
      followed by the second one's, or the first failure. */
  lemma {:induction false} RequirementsAppend(a: Document, b: Document)
    ensures Requirements(a + b)
      == match Requirements(a)
         case Err(e) => Err(e)
         case Ok(x) =>
           match Requirements(b)
           case Err(e) => Err(e)
           case Ok(y) => Ok(x + y)
  {
    if a != [] {
      assert (a + b)[0] == a[0] && (a + b)[1..] == a[1..] + b;
      RequirementsAppend(a[1..], b);
      if a[0].name != MetaSection && a[0].body.Packages?
        && PackageRequirements(a[0].name, a[0].body.packages).Ok?
        && Requirements(a[1..]).Ok? && Requirements(b).Ok?
      {
        Collections.AppendAssoc(PackageRequirements(a[0].name, a[0].body.packages).value,
          Requirements(a[1..]).value, Requirements(b).value);
      }
    } else {
      assert a + b == b;
      if Requirements(b).Ok? {
        assert [] + Requirements(b).value == Requirements(b).value;
      }
    }
  }

  /** A `_meta` section contributes nothing, wherever it stands. */
  lemma MetaIgnored(a: Document, body: Body, c: Document)
    ensures Requirements(a + [Section(MetaSection, body)] + c) == Requirements(a + c)
  {
    RequirementsAppend(a, [Section(MetaSection, body)] + c);
    assert a + [Section(MetaSection, body)] + c == a + ([Section(MetaSection, body)] + c);
    assert ([Section(MetaSection, body)] + c)[1..] == c;
    RequirementsAppend(a, c);
  }

  /** `parse_pipfile_lock(path)` over a file system that holds decoded lock
      files by path string and a set of directories: it succeeds exactly when
      the lock file is there and readable, and then lists one requirement per
      package entry. */
  function ParsePipfileLock(files: map<string, Document>, dirs: set<string>, p: Paths.Path)
    : (r: Result<seq<string>, PipfileError>)
    ensures var lock := Paths.Str(LockPath(p, Paths.Str(p) in dirs));
      r.Ok? <==> lock in files && Readable(files[lock])
    ensures var lock := Paths.Str(LockPath(p, Paths.Str(p) in dirs));
      r.Ok? ==> |r.value| == |Entries(files[lock])|
  {
    var lock := Paths.Str(LockPath(p, Paths.Str(p) in dirs));
    if lock in files then
      RequirementsOk(files[lock]);
      Requirements(files[lock])
    else Err(Unreadable(lock))
  }
}
