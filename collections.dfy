/** Sequence helpers: Python's `list(a_set)` / iteration over a set, and
    `reversed(...)`. */
module Collections {

  predicate Distinct<T(==)>(s: seq<T>)
  {
    forall i, j :: 0 <= i < j < |s| ==> s[i] != s[j]
  }

  /** `set(s)`. */
  function Elements<T(==,!new)>(s: seq<T>): (r: set<T>)
    ensures forall x :: x in r <==> x in s
  {
    set x | x in s
  }

  /** Python iterates a set in an order of its own choosing; this method picks one
      such order. The result lists every element of the set exactly once. */
  method ListOf<T(==)>(s: set<T>) returns (r: seq<T>)
    ensures |r| == |s|
    ensures forall x :: x in r <==> x in s
    ensures Distinct(r)
  {
    r := [];
    var rest := s;
    while rest != {}
      invariant rest <= s
      invariant forall x :: x in r <==> x in s && x !in rest
      invariant Distinct(r)
      invariant |r| + |rest| == |s|
      decreases |rest|
    {
      var x :| x in rest;
      r := r + [x];
      rest := rest - {x};
    }
  }

  /** `list(reversed(s))`. */
  function Reverse<T>(s: seq<T>): (r: seq<T>)
    ensures |r| == |s|
  {
    if s == [] then [] else Reverse(s[1..]) + [s[0]]
  }

  /** Element `i` of the reversal is element `|s| - 1 - i` of the original. */
  lemma {:induction false} ReverseIndex<T>(s: seq<T>, i: nat)
    requires i < |s|
    ensures Reverse(s)[i] == s[|s| - 1 - i]
  {
    if i < |s| - 1 {
      ReverseIndex(s[1..], i);
    }
  }

  /** Reversing a concatenation reverses the parts and swaps them. */
  lemma {:induction false} ReverseAppend<T>(a: seq<T>, b: seq<T>)
    ensures Reverse(a + b) == Reverse(b) + Reverse(a)
  {
    if a == [] {
      assert a + b == b;
    } else {
      assert (a + b)[1..] == a[1..] + b;
      ReverseAppend(a[1..], b);
    }
  }

  lemma AppendAssoc<T>(a: seq<T>, b: seq<T>, c: seq<T>)
    ensures (a + b) + c == a + (b + c)
  {
  }
}
