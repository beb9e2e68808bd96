/** Python's ordering of strings (code point by code point, a proper prefix
    first) and the `sorted(set(...))` idiom built on it. */
module Ordering {

  /** `a < b` on Python strings. */
  predicate Below(a: string, b: string)
    decreases |a|
  {
    b != [] && (a == [] || a[0] < b[0] || (a[0] == b[0] && Below(a[1..], b[1..])))
  }

  lemma {:induction false} BelowIrreflexive(a: string)
    ensures !Below(a, a)
    decreases |a|
  {
    if a != [] {
      BelowIrreflexive(a[1..]);
    }
  }

  lemma {:induction false} BelowTransitive(a: string, b: string, c: string)
    requires Below(a, b) && Below(b, c)
    ensures Below(a, c)
    decreases |a|
  {
    if a != [] && a[0] == b[0] && b[0] == c[0] {
      BelowTransitive(a[1..], b[1..], c[1..]);
    }
  }

  lemma {:induction false} BelowTotal(a: string, b: string)
    requires a != b
    ensures Below(a, b) || Below(b, a)
    decreases |a|
  {
    if a != [] && b != [] && a[0] == b[0] {
      assert a[1..] != b[1..] by {
        assert a == [a[0]] + a[1..] && b == [b[0]] + b[1..];
      }
      BelowTotal(a[1..], b[1..]);
    }
  }

  lemma BelowAsymmetric(a: string, b: string)
    requires Below(a, b)
    ensures !Below(b, a)
  {
    if Below(b, a) {
      BelowTransitive(a, b, a);
      BelowIrreflexive(a);
    }
  }

  /** Every element is strictly below every later one: sorted and free of
      duplicates. */
  predicate StrictlySorted(xs: seq<string>) {
    forall i, j :: 0 <= i < j < |xs| ==> Below(xs[i], xs[j])
  }

  function Elems(xs: seq<string>): set<string> {
    set x | x in xs
  }

  /** A strictly sorted list stays so with an element below all of it put in
      front. */
  lemma ConsSorted(y: string, xs: seq<string>)
    requires StrictlySorted(xs)
    requires forall k :: 0 <= k < |xs| ==> Below(y, xs[k])
    ensures StrictlySorted([y] + xs)
  {
    forall i, j | 0 <= i < j < |[y] + xs|
      ensures Below(([y] + xs)[i], ([y] + xs)[j])
    {
      assert ([y] + xs)[j] == xs[j - 1];
      if i > 0 {
        assert ([y] + xs)[i] == xs[i - 1];
      }
    }
  }

  /** Below the head of a strictly sorted list means below all of it. */
  lemma BelowHead(x: string, xs: seq<string>)
    requires StrictlySorted(xs) && xs != [] && Below(x, xs[0])
    ensures forall k :: 0 <= k < |xs| ==> Below(x, xs[k])
  {
    forall k | 0 < k < |xs| ensures Below(x, xs[k]) {
      BelowTransitive(x, xs[0], xs[k]);
    }
  }

  /** The head of a strictly sorted list is below every element of the list
      obtained by adding, to its tail, some `x` above the head. */
  lemma HeadBelowInsert(x: string, xs: seq<string>, tail: seq<string>)
    requires StrictlySorted(xs) && xs != [] && Below(xs[0], x)
    requires Elems(tail) == Elems(xs[1..]) + {x}
    ensures forall k :: 0 <= k < |tail| ==> Below(xs[0], tail[k])
  {
    forall k | 0 <= k < |tail| ensures Below(xs[0], tail[k]) {
      assert tail[k] in Elems(tail);
      if tail[k] != x {
        var j :| 0 <= j < |xs[1..]| && xs[1..][j] == tail[k];
        assert xs[j + 1] == tail[k];
      }
    }
  }

  /** Adds `x` to a strictly sorted list unless it is already there. */
  function Insert(x: string, xs: seq<string>): (r: seq<string>)
    requires StrictlySorted(xs)
    ensures StrictlySorted(r)
    ensures Elems(r) == Elems(xs) + {x}
    decreases |xs|
  {
    if xs == [] then [x]
    else if x == xs[0] then xs
    else if Below(x, xs[0]) then
      BelowHead(x, xs);
      ConsSorted(x, xs);
      [x] + xs
    else
      BelowTotal(x, xs[0]);
      var tail := Insert(x, xs[1..]);
      assert Elems(xs) == {xs[0]} + Elems(xs[1..]) by {
        assert xs == [xs[0]] + xs[1..];
      }
      HeadBelowInsert(x, xs, tail);
      ConsSorted(xs[0], tail);
      assert Elems([xs[0]] + tail) == {xs[0]} + Elems(tail);
      [xs[0]] + tail
  }

  /** `sorted(set(xs))`: the distinct elements of `xs` in ascending order. */
  function SortedUnique(xs: seq<string>): (r: seq<string>)
    ensures StrictlySorted(r)
    ensures Elems(r) == Elems(xs)
    decreases |xs|
  {
    if xs == [] then []
    else
      var init := xs[..|xs| - 1];
      assert Elems(xs) == Elems(init) + {xs[|xs| - 1]} by {
        assert xs == init + [xs[|xs| - 1]];
      }
      Insert(xs[|xs| - 1], SortedUnique(init))
  }

  /** A set has exactly one strictly sorted listing, so `SortedUnique` is the
      listing Python's `sorted` produces for the set. */
  lemma {:induction false} SortedListingUnique(xs: seq<string>, ys: seq<string>)
    requires StrictlySorted(xs) && StrictlySorted(ys)
    requires Elems(xs) == Elems(ys)
    ensures xs == ys
    decreases |xs|
  {
    if xs != [] && ys != [] {
      assert xs[0] == ys[0] by {
        if xs[0] != ys[0] {
          assert ys[0] in Elems(xs);
          assert xs[0] in Elems(ys);
          var i :| 0 <= i < |xs| && xs[i] == ys[0];
          var j :| 0 <= j < |ys| && ys[j] == xs[0];
          assert Below(xs[0], ys[0]);
          assert Below(ys[0], xs[0]);
          BelowAsymmetric(xs[0], ys[0]);
        }
      }
      assert Elems(xs[1..]) == Elems(ys[1..]) by {
        forall z | z in Elems(xs[1..]) ensures z in Elems(ys[1..]) {
          var i :| 1 <= i < |xs| && xs[i] == z;
          assert z != xs[0] by { BelowIrreflexive(z); }
          assert z in Elems(ys);
        }
        forall z | z in Elems(ys[1..]) ensures z in Elems(xs[1..]) {
          var i :| 1 <= i < |ys| && ys[i] == z;
          assert z != ys[0] by { BelowIrreflexive(z); }
          assert z in Elems(xs);
        }
      }
      SortedListingUnique(xs[1..], ys[1..]);
      assert xs == [xs[0]] + xs[1..] && ys == [ys[0]] + ys[1..];
    } else {
      OnlyEmptyHasNoElems(xs);
      OnlyEmptyHasNoElems(ys);
    }
  }

  lemma OnlyEmptyHasNoElems(xs: seq<string>)
    ensures Elems(xs) == {} <==> xs == []
  {
    if xs != [] {
      assert xs[0] in Elems(xs);
    }
  }

  /** Two lists with the same elements sort to the same listing, whatever their
      order and repetitions. */
  lemma SortedUniqueDependsOnSetOnly(xs: seq<string>, ys: seq<string>)
    requires Elems(xs) == Elems(ys)
    ensures SortedUnique(xs) == SortedUnique(ys)
  {
    SortedListingUnique(SortedUnique(xs), SortedUnique(ys));
  }
}
