/**
  Python's `sorted()` applied to a set of `str`: strings compare
  lexicographically by code point, a proper prefix first.
 */
module PyOrder {

  /** `a < b` on Python strings. */
  predicate Less(a: string, b: string)
    decreases |a|
  {
    if a == [] then b != []
    else b != [] && (a[0] < b[0] || (a[0] == b[0] && Less(a[1..], b[1..])))
  }

  lemma {:induction false} LessIrreflexive(a: string)
    ensures !Less(a, a)
    decreases |a|
  {
    if a != [] {
      LessIrreflexive(a[1..]);
    }
  }

  lemma {:induction false} LessTransitive(a: string, b: string, c: string)
    requires Less(a, b) && Less(b, c)
    ensures Less(a, c)
    decreases |a|
  {
    if a != [] && a[0] == b[0] && b[0] == c[0] {
      LessTransitive(a[1..], b[1..], c[1..]);
    }
  }

  /** Any two different strings are ordered one way or the other. */
  lemma {:induction false} LessTotal(a: string, b: string)
    requires a != b
    ensures Less(a, b) || Less(b, a)
    decreases |a|
  {
    if a != [] && b != [] && a[0] == b[0] {
      assert a == [a[0]] + a[1..] && b == [b[0]] + b[1..];
      LessTotal(a[1..], b[1..]);
    }
  }

  /** Strictly ascending, hence without duplicates. */
  predicate StrictlySorted(xs: seq<string>) {
    forall i, j :: 0 <= i < j < |xs| ==> Less(xs[i], xs[j])
  }

  function Elems(xs: seq<string>): set<string> {
    set x | x in xs
  }

  lemma SortedDistinct(xs: seq<string>)
    requires StrictlySorted(xs)
    ensures forall i, j :: 0 <= i < j < |xs| ==> xs[i] != xs[j]
  {
    forall i, j | 0 <= i < j < |xs| ensures xs[i] != xs[j] {
      LessIrreflexive(xs[i]);
    }
  }

  /** A strictly sorted list has as many items as it has distinct items. */
  lemma {:induction false} SortedCard(xs: seq<string>)
    requires StrictlySorted(xs)
    ensures |Elems(xs)| == |xs|
  {
    if xs != [] {
      SortedCard(xs[1..]);
      SortedDistinct(xs);
      assert Elems(xs) == {xs[0]} + Elems(xs[1..]);
      assert xs[0] !in Elems(xs[1..]);
    }
  }

  /** Inserts `x` into a strictly sorted list, keeping it strictly sorted; a
      present `x` changes nothing. */
  function Insert(xs: seq<string>, x: string): (r: seq<string>)
    requires StrictlySorted(xs)
    ensures StrictlySorted(r)
    ensures Elems(r) == Elems(xs) + {x}
  {
    if xs == [] then [x]
    else if x == xs[0] then xs
    else if Less(x, xs[0]) then
      assert forall j :: 0 < j < |xs| ==> Less(x, xs[j]) by {
        forall j | 0 < j < |xs| ensures Less(x, xs[j]) {
          LessTransitive(x, xs[0], xs[j]);
        }
      }
      assert Elems([x] + xs) == Elems(xs) + {x};
      [x] + xs
    else
      LessTotal(x, xs[0]);
      var rest := Insert(xs[1..], x);
      assert Elems(xs) == {xs[0]} + Elems(xs[1..]);
      forall y | y in rest ensures Less(xs[0], y) {
        assert y in Elems(rest);
        if y != x {
          var j :| 0 <= j < |xs[1..]| && xs[1..][j] == y;
          assert xs[j + 1] == y;
        }
      }
      assert Elems([xs[0]] + rest) == {xs[0]} + Elems(rest);
      [xs[0]] + rest
  }

  /** `sorted(s)` for a set of strings. */
  method SortedList(s: set<string>) returns (xs: seq<string>)
    ensures StrictlySorted(xs)
    ensures Elems(xs) == s
  {
    xs := [];
    var rest := s;
    while rest != {}
      invariant rest <= s
      invariant StrictlySorted(xs)
      invariant Elems(xs) == s - rest
      decreases |rest|
    {
      var x :| x in rest;
      xs := Insert(xs, x);
      rest := rest - {x};
    }
  }

  /** A set has exactly one strictly sorted listing, so the output of
      `sorted(set(...))` depends on nothing but the set. */
  lemma {:induction false} SortedUnique(xs: seq<string>, ys: seq<string>)
    requires StrictlySorted(xs) && StrictlySorted(ys)
    requires Elems(xs) == Elems(ys)
    ensures xs == ys
    decreases |xs|
  {
    if xs != [] {
      assert xs[0] in Elems(xs);
    }
    if ys != [] {
      assert ys[0] in Elems(ys);
    }
    if xs != [] && ys != [] {
      // both heads are the least element of the common set
      if xs[0] != ys[0] {
        assert ys[0] in Elems(xs);
        assert xs[0] in Elems(ys);
        var i :| 0 <= i < |xs| && xs[i] == ys[0];
        var j :| 0 <= j < |ys| && ys[j] == xs[0];
        assert i > 0 && j > 0;
        LessTransitive(xs[0], ys[0], xs[0]);
        LessIrreflexive(xs[0]);
      }
      SortedDistinct(xs);
      SortedDistinct(ys);
      assert Elems(xs[1..]) == Elems(xs) - {xs[0]} by {
        assert Elems(xs) == {xs[0]} + Elems(xs[1..]);
      }
      assert Elems(ys[1..]) == Elems(ys) - {ys[0]} by {
        assert Elems(ys) == {ys[0]} + Elems(ys[1..]);
      }
      SortedUnique(xs[1..], ys[1..]);
    }
  }

}
