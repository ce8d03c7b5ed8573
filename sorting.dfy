/** `sorted(strings)`: Python orders strings by their code points, the first
    difference deciding and a proper prefix coming first. A list has exactly one
    sorted arrangement, so every correct sort returns the same list; insertion
    sort stands in for the one Python uses. */
module Sorting {

  /** `a <= b` on Python strings. */
  predicate Below(a: string, b: string)
    decreases |a|
  {
    a == [] || (b != [] && (a[0] < b[0] || (a[0] == b[0] && Below(a[1..], b[1..]))))
  }

  lemma {:induction false} BelowTotal(a: string, b: string)
    ensures Below(a, b) || Below(b, a)
    decreases |a|
  {
    if a != [] && b != [] && a[0] == b[0] {
      BelowTotal(a[1..], b[1..]);
    }
  }

  lemma {:induction false} BelowAntisymmetric(a: string, b: string)
    requires Below(a, b) && Below(b, a)
    ensures a == b
    decreases |a|
  {
    if a != [] {
      BelowAntisymmetric(a[1..], b[1..]);
      assert a == [a[0]] + a[1..] && b == [b[0]] + b[1..];
    }
  }

  lemma {:induction false} BelowTransitive(a: string, b: string, c: string)
    requires Below(a, b) && Below(b, c)
    ensures Below(a, c)
    decreases |a|
  {
    if a != [] && a[0] == b[0] && b[0] == c[0] {
      BelowTransitive(a[1..], b[1..], c[1..]);
    }
  }

  predicate Sorted(xs: seq<string>)
  {
    forall i, j :: 0 <= i < j < |xs| ==> Below(xs[i], xs[j])
  }

  /** `x` put in front of the first element it is not above. */
  function Insert(x: string, xs: seq<string>): (r: seq<string>)
    requires Sorted(xs)
    ensures Sorted(r)
    ensures multiset(r) == multiset(xs) + multiset{x}
    ensures |r| == |xs| + 1
  {
    if xs == [] then [x]
    else if Below(x, xs[0]) then
      assert forall j :: 0 < j < |xs| ==> Below(x, xs[j]) by {
        forall j | 0 < j < |xs| ensures Below(x, xs[j]) {
          BelowTransitive(x, xs[0], xs[j]);
        }
      }
      [x] + xs
    else
      BelowTotal(x, xs[0]);
      var rest := Insert(x, xs[1..]);
      assert xs == [xs[0]] + xs[1..];
      assert forall k :: 0 <= k < |rest| ==> Below(xs[0], rest[k]) by {
        forall k | 0 <= k < |rest| ensures Below(xs[0], rest[k]) {
          assert rest[k] in multiset(rest);
          assert rest[k] == x || rest[k] in multiset(xs[1..]);
          if rest[k] != x {
            var j :| 0 <= j < |xs[1..]| && xs[1..][j] == rest[k];
            assert xs[j + 1] == rest[k];
          }
        }
      }
      [xs[0]] + rest
  }

  /** `sorted(xs)`: the same strings, in ascending order. */
  function Sort(xs: seq<string>): (r: seq<string>)
    ensures Sorted(r)
    ensures multiset(r) == multiset(xs)
    ensures |r| == |xs|
  {
    if xs == [] then []
    else
      assert xs == [xs[0]] + xs[1..];
      Insert(xs[0], Sort(xs[1..]))
  }

  /** Two sorted lists with the same elements start with the same, least, one. */
  lemma SameFirst(a: seq<string>, b: seq<string>)
    requires Sorted(a) && Sorted(b) && a != [] && b != []
    requires multiset(a) == multiset(b)
    ensures a[0] == b[0]
  {
    assert a[0] in multiset(b) && b[0] in multiset(a);
    var j :| 0 <= j < |b| && b[j] == a[0];
    var i :| 0 <= i < |a| && a[i] == b[0];
    assert Below(b[0], a[0]) by {
      if j > 0 { assert Below(b[0], b[j]); } else { BelowTotal(b[0], b[0]); }
    }
    assert Below(a[0], b[0]) by {
      if i > 0 { assert Below(a[0], a[i]); } else { BelowTotal(a[0], a[0]); }
    }
    BelowAntisymmetric(a[0], b[0]);
  }

  /** Two sorted lists with the same elements are the same list. */
  lemma {:induction false} SortedUnique(a: seq<string>, b: seq<string>)
    requires Sorted(a) && Sorted(b)
    requires multiset(a) == multiset(b)
    ensures a == b
    decreases |a|
  {
    assert |b| == |multiset(b)| == |multiset(a)| == |a|;
    if a != [] {
      SameFirst(a, b);
      assert a == [a[0]] + a[1..] && b == [b[0]] + b[1..];
      assert multiset(a[1..]) == multiset(a) - multiset{a[0]};
      assert multiset(b[1..]) == multiset(b) - multiset{b[0]};
      SortedUnique(a[1..], b[1..]);
    }
  }

  /** Any rearrangement of a list sorts to the same list. */
  lemma SortPermutation(xs: seq<string>, ys: seq<string>)
    requires multiset(xs) == multiset(ys)
    ensures Sort(xs) == Sort(ys)
  {
    SortedUnique(Sort(xs), Sort(ys));
  }
}
