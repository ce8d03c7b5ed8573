/** The few Python `str` operations the core relies on: `split` on one character,
    `join`, `strip`, `lstrip`, `split(sep, 1)` and `replace`, each with the facts the
    rest of the model needs about it. */
module Strings {
  import opened Wrappers

  /** `str.isspace()` for a single character: the characters Python treats as
      whitespace (ASCII whitespace, the information separators and the Unicode
      space characters). */
  predicate IsSpace(c: char)
  {
    || c == ' ' || ('\t' <= c <= '\r') || ('\U{1C}' <= c <= '\U{1F}')
    || c == '\U{85}' || c == '\U{A0}' || c == '\U{1680}'
    || ('\U{2000}' <= c <= '\U{200A}') || c == '\U{2028}' || c == '\U{2029}'
    || c == '\U{202F}' || c == '\U{205F}' || c == '\U{3000}'
  }

  /** Leading whitespace removed (`str.lstrip()`): a suffix of `s` whose first
      character is not whitespace, and everything removed was whitespace. */
  function TrimStart(s: string): (r: string)
    ensures |r| <= |s| && r == s[|s| - |r|..]
    ensures r == [] || !IsSpace(r[0])
    ensures forall i :: 0 <= i < |s| - |r| ==> IsSpace(s[i])
  {
    if s != [] && IsSpace(s[0]) then TrimStart(s[1..]) else s
  }

  /** Trailing whitespace removed (`str.rstrip()`): a prefix of `s` whose last
      character is not whitespace, and everything removed was whitespace. */
  function TrimEnd(s: string): (r: string)
    ensures |r| <= |s| && r == s[..|r|]
    ensures r == [] || !IsSpace(r[|r| - 1])
    ensures forall i :: |r| <= i < |s| ==> IsSpace(s[i])
  {
    if s != [] && IsSpace(s[|s| - 1]) then TrimEnd(s[..|s| - 1]) else s
  }

  /** `str.strip()`. */
  function Strip(s: string): (r: string)
    ensures r == [] || (!IsSpace(r[0]) && !IsSpace(r[|r| - 1]))
  {
    TrimEnd(TrimStart(s))
  }

  lemma {:induction false} TrimStartOfTrimmed(s: string)
    requires s == [] || !IsSpace(s[0])
    ensures TrimStart(s) == s
  {
  }

  lemma {:induction false} TrimEndOfTrimmed(s: string)
    requires s == [] || !IsSpace(s[|s| - 1])
    ensures TrimEnd(s) == s
  {
  }

  /** Stripping twice is stripping once. */
  lemma StripIdempotent(s: string)
    ensures Strip(Strip(s)) == Strip(s)
  {
    var r := Strip(s);
    TrimStartOfTrimmed(r);
    TrimEndOfTrimmed(r);
  }

  /** A string strips to nothing exactly when it is all whitespace. */
  lemma StripEmptyIff(s: string)
    ensures Strip(s) == [] <==> forall i :: 0 <= i < |s| ==> IsSpace(s[i])
  {
    var t := TrimStart(s);
    if Strip(s) == [] {
      assert TrimEnd(t) == [];
      assert t == [];
    }
  }

  /** `s.lstrip(c)`: every leading copy of `c` removed. */
  function LStripChar(s: string, c: char): (r: string)
    ensures |r| <= |s| && r == s[|s| - |r|..]
    ensures r == [] || r[0] != c
    ensures forall i :: 0 <= i < |s| - |r| ==> s[i] == c
  {
    if s != [] && s[0] == c then LStripChar(s[1..], c) else s
  }

  /** `s.split(sep)` for a one-character separator: the pieces between the
      separators, at least one, none containing the separator. */
  function Split(s: string, sep: char): (r: seq<string>)
    ensures |r| >= 1
    ensures forall i :: 0 <= i < |r| ==> sep !in r[i]
  {
    if s == [] then [""]
    else if s[0] == sep then [""] + Split(s[1..], sep)
    else
      var t := Split(s[1..], sep);
      [[s[0]] + t[0]] + t[1..]
  }

  /** `sep.join(xs)` for a one-character separator. */
  function Join(xs: seq<string>, sep: char): string
  {
    if |xs| == 0 then ""
    else if |xs| == 1 then xs[0]
    else xs[0] + [sep] + Join(xs[1..], sep)
  }

  /** Joining the pieces of a split gives back the original string. */
  lemma {:induction false} JoinSplit(s: string, sep: char)
    ensures Join(Split(s, sep), sep) == s
  {
    if s == [] {
    } else if s[0] == sep {
      JoinSplit(s[1..], sep);
      assert ([""] + Split(s[1..], sep))[1..] == Split(s[1..], sep);
    } else {
      var t := Split(s[1..], sep);
      JoinSplit(s[1..], sep);
      var r := [[s[0]] + t[0]] + t[1..];
      assert r[1..] == t[1..];
      if |t| == 1 {
      } else {
        calc {
          Join(r, sep);
          [s[0]] + t[0] + [sep] + Join(t[1..], sep);
          [s[0]] + (t[0] + [sep] + Join(t[1..], sep));
          [s[0]] + Join(t, sep);
        }
      }
    }
  }

  lemma {:induction false} SplitWithoutSep(a: string, sep: char)
    requires sep !in a
    ensures Split(a, sep) == [a]
  {
    if a != [] {
      SplitWithoutSep(a[1..], sep);
      assert [a[0]] + a[1..] == a;
    }
  }

  lemma {:induction false} SplitAfterPiece(a: string, sep: char, b: string)
    requires sep !in a
    ensures Split(a + [sep] + b, sep) == [a] + Split(b, sep)
  {
    var s := a + [sep] + b;
    if a == [] {
      assert s[1..] == b;
    } else {
      assert s[1..] == a[1..] + [sep] + b;
      SplitAfterPiece(a[1..], sep, b);
      assert [a[0]] + a[1..] == a;
    }
  }

  /** Splitting a join gives back the pieces, provided there is at least one and no
      piece contains the separator. */
  lemma {:induction false} SplitJoin(xs: seq<string>, sep: char)
    requires |xs| >= 1
    requires forall i :: 0 <= i < |xs| ==> sep !in xs[i]
    ensures Split(Join(xs, sep), sep) == xs
  {
    if |xs| == 1 {
      SplitWithoutSep(xs[0], sep);
    } else {
      SplitJoin(xs[1..], sep);
      SplitAfterPiece(xs[0], sep, Join(xs[1..], sep));
      assert [xs[0]] + xs[1..] == xs;
    }
  }

  /** Joining a concatenation puts one separator between the two joins. */
  lemma {:induction false} JoinAppend(a: seq<string>, b: seq<string>, sep: char)
    requires |a| >= 1 && |b| >= 1
    ensures Join(a + b, sep) == Join(a, sep) + [sep] + Join(b, sep)
  {
    if |a| == 1 {
      assert (a + b)[1..] == b;
    } else {
      assert (a + b)[1..] == a[1..] + b;
      JoinAppend(a[1..], b, sep);
    }
  }

  /** `pat` occurs in `s` starting at index `i`. */
  predicate OccursAt(s: string, pat: string, i: nat)
  {
    i + |pat| <= |s| && s[i..i + |pat|] == pat
  }

  /** The index of the first occurrence of a non-empty `pat` in `s` at or after
      `from`, if any. */
  function FindFrom(s: string, pat: string, from: nat): (r: Option<nat>)
    requires |pat| > 0
    ensures r.Some? ==> from <= r.value && OccursAt(s, pat, r.value)
    ensures r.Some? ==> forall i :: from <= i < r.value ==> !OccursAt(s, pat, i)
    ensures r.None? ==> forall i :: from <= i ==> !OccursAt(s, pat, i)
    decreases |s| - from
  {
    if from + |pat| > |s| then None
    else if s[from..from + |pat|] == pat then Some(from)
    else FindFrom(s, pat, from + 1)
  }

  /** The index of the first occurrence of a non-empty `pat` in `s` (`str.find`). */
  function FindFirst(s: string, pat: string): (r: Option<nat>)
    requires |pat| > 0
  {
    FindFrom(s, pat, 0)
  }

  /** `s.split(sep, 1)` unpacked into exactly two parts, or None when `sep` does
      not occur (the unpacking error). The two parts put back together around the
      separator give `s`, and the first part holds no occurrence of `sep`: the
      split is at the first occurrence. */
  function SplitOnce(s: string, sep: string): (r: Option<(string, string)>)
    requires |sep| > 0
    ensures r.Some? ==> r.value.0 + sep + r.value.1 == s
    ensures r.Some? ==> FindFirst(r.value.0, sep).None?
    ensures r.Some? ==> FindFirst(s, sep) == Some(|r.value.0|)
    ensures r.None? <==> FindFirst(s, sep).None?
  {
    match FindFirst(s, sep)
    case None => None
    case Some(i) =>
      assert s[..i] + sep + s[i + |sep|..] == s by {
        assert s == s[..i] + s[i..i + |sep|] + s[i + |sep|..];
      }
      assert forall j: nat :: OccursAt(s[..i], sep, j) ==> OccursAt(s, sep, j) by {
        forall j: nat | OccursAt(s[..i], sep, j) ensures OccursAt(s, sep, j) {
          assert s[..i][j..j + |sep|] == s[j..j + |sep|];
        }
      }
      Some((s[..i], s[i + |sep|..]))
  }

  /** `s.replace(pat, rep)` for a non-empty `pat`: occurrences replaced left to
      right, without overlap. */
  function Replace(s: string, pat: string, rep: string): string
    requires |pat| > 0
    decreases |s|
  {
    if |s| < |pat| then s
    else if pat <= s then rep + Replace(s[|pat|..], pat, rep)
    else [s[0]] + Replace(s[1..], pat, rep)
  }

  /** Text without an occurrence of `pat` is left as it is. */
  lemma {:induction false} ReplaceAbsent(s: string, pat: string, rep: string)
    requires |pat| > 0
    requires FindFirst(s, pat).None?
    ensures Replace(s, pat, rep) == s
  {
    if |s| >= |pat| {
      assert !OccursAt(s, pat, 0);
      assert s[..|pat|] == s[0..0 + |pat|];
      forall i: nat ensures OccursAt(s[1..], pat, i) == OccursAt(s, pat, i + 1) {
        if i + |pat| <= |s[1..]| {
          assert s[1..][i..i + |pat|] == s[i + 1..i + 1 + |pat|];
        }
      }
      ReplaceAbsent(s[1..], pat, rep);
    }
  }

  /** Everything before the first line break: what the regular expression `.*`
      matches. */
  function TakeLine(s: string): (r: string)
    ensures r <= s && '\n' !in r
    ensures |r| < |s| ==> s[|r|] == '\n'
  {
    if s == [] || s[0] == '\n' then "" else [s[0]] + TakeLine(s[1..])
  }

  /** A line without a line break is taken whole. */
  lemma {:induction false} TakeLineWhole(s: string)
    requires '\n' !in s
    ensures TakeLine(s) == s
  {
    if s != [] {
      TakeLineWhole(s[1..]);
    }
  }
}
