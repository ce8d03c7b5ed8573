/** POSIX `pathlib` paths, as the core uses them: built from a string, extended
    with `/`, shortened with `.parent` and turned back into a string with `str()`.
    A path is kept in pathlib's normal form: an optional root and the list of its
    non-empty components other than ".". */
module Paths {
  import Strings

  datatype Path = Path(root: bool, parts: seq<string>)

  /** A single path component as pathlib stores it. */
  predicate IsComponent(x: string)
  {
    x != "" && x != "." && '/' !in x
  }

  predicate WellFormed(p: Path)
  {
    forall i :: 0 <= i < |p.parts| ==> IsComponent(p.parts[i])
  }

  /** The pieces of a string split at "/", without the empty ones and the "."
      ones, which pathlib discards. */
  function Components(pieces: seq<string>): (r: seq<string>)
    ensures |r| <= |pieces|
    ensures forall i :: 0 <= i < |r| ==> r[i] in pieces && r[i] != "" && r[i] != "."
  {
    if pieces == [] then []
    else if pieces[0] == "" || pieces[0] == "." then Components(pieces[1..])
    else [pieces[0]] + Components(pieces[1..])
  }

  /** `Path(s)`. */
  function Parse(s: string): (p: Path)
    ensures WellFormed(p)
  {
    Path(|s| > 0 && s[0] == '/', Components(Strings.Split(s, '/')))
  }

  /** `str(p)`. */
  function Str(p: Path): string
  {
    if p.root then "/" + Strings.Join(p.parts, '/')
    else if p.parts == [] then "."
    else Strings.Join(p.parts, '/')
  }

  /** `p / s`: an absolute `s` replaces `p`, otherwise its components are appended. */
  function Join(p: Path, s: string): Path
  {
    var q := Parse(s);
    if q.root then q else Path(p.root, p.parts + q.parts)
  }

  /** `p.parent`: the path without its last component; the root and "." are
      their own parents. */
  function Parent(p: Path): Path
  {
    if p.parts == [] then p else Path(p.root, p.parts[..|p.parts| - 1])
  }

  /** `p.name`: the last component, or "" for the root and ".". */
  function Name(p: Path): string
  {
    if p.parts == [] then "" else p.parts[|p.parts| - 1]
  }

  lemma {:induction false} ComponentsOfComponents(xs: seq<string>)
    requires forall i :: 0 <= i < |xs| ==> xs[i] != "" && xs[i] != "."
    ensures Components(xs) == xs
  {
    if xs != [] {
      ComponentsOfComponents(xs[1..]);
      assert [xs[0]] + xs[1..] == xs;
    }
  }

  lemma ParseStrTop(p: Path)
    requires p.parts == []
    ensures Parse(Str(p)) == p
  {
    if p.root {
      assert Str(p) == "/";
      assert Strings.Split("/", '/') == ["", ""];
      assert Components([""]) == [];
      assert Components(["", ""]) == [];
    } else {
      Strings.SplitWithoutSep(".", '/');
    }
  }

  lemma ParseStrRooted(p: Path)
    requires WellFormed(p) && p.root && p.parts != []
    ensures Parse(Str(p)) == p
  {
    var j := Strings.Join(p.parts, '/');
    Strings.SplitJoin(p.parts, '/');
    Strings.SplitAfterPiece("", '/', j);
    assert "" + "/" + j == Str(p);
    ComponentsOfComponents(p.parts);
  }

  lemma ParseStrRelative(p: Path)
    requires WellFormed(p) && !p.root && p.parts != []
    ensures Parse(Str(p)) == p
  {
    var s := Str(p);
    Strings.SplitJoin(p.parts, '/');
    ComponentsOfComponents(p.parts);
    assert Strings.Split(s, '/')[0] != "";
  }

  /** Reading back the string of a path gives the same path. */
  lemma ParseStr(p: Path)
    requires WellFormed(p)
    ensures Parse(Str(p)) == p
  {
    if p.parts == [] {
      ParseStrTop(p);
    } else if p.root {
      ParseStrRooted(p);
    } else {
      ParseStrRelative(p);
    }
  }

  /** Distinct well-formed paths have distinct strings. */
  lemma StrInjective(p: Path, q: Path)
    requires WellFormed(p) && WellFormed(q)
    requires Str(p) == Str(q)
    ensures p == q
  {
    ParseStr(p);
    ParseStr(q);
  }

  /** Joining a single component appends it: the result's parent is the original
      path and its name is the component. */
  lemma JoinComponent(p: Path, name: string)
    requires IsComponent(name)
    ensures Join(p, name) == Path(p.root, p.parts + [name])
    ensures Parent(Join(p, name)) == p
    ensures Name(Join(p, name)) == name
  {
    Strings.SplitWithoutSep(name, '/');
    assert Components([name]) == [name];
    assert (p.parts + [name])[..|p.parts|] == p.parts;
  }

  /** Two different components joined to the same well-formed directory give two
      different path strings. */
  lemma JoinDistinct(p: Path, a: string, b: string)
    requires WellFormed(p) && IsComponent(a) && IsComponent(b) && a != b
    ensures Str(Join(p, a)) != Str(Join(p, b))
  {
    JoinComponent(p, a);
    JoinComponent(p, b);
    ParseStr(Join(p, a));
    ParseStr(Join(p, b));
  }
}
