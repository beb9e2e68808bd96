/** Concatenating what a function gives for each element of a list, the shape
    of a `for` loop that appends zero or more results per item. */
module Gathering {

  /** `f(xs[0]) + f(xs[1]) + ...`, built from the front. */
  function Gather<T, U>(f: T -> seq<U>, xs: seq<T>): seq<U>
    decreases |xs|
  {
    if xs == [] then [] else Gather(f, xs[..|xs| - 1]) + f(xs[|xs| - 1])
  }

  /** Gathering distributes over concatenation. */
  lemma {:induction false} GatherAppend<T, U>(f: T -> seq<U>, xs: seq<T>, ys: seq<T>)
    ensures Gather(f, xs + ys) == Gather(f, xs) + Gather(f, ys)
    decreases |ys|
  {
    if ys == [] {
      assert xs + ys == xs;
    } else {
      var n := |ys| - 1;
      var zs := xs + ys;
      assert zs[..|zs| - 1] == xs + ys[..n];
      assert zs[|zs| - 1] == ys[n];
      GatherAppend(f, xs, ys[..n]);
    }
  }

  /** Gathering over one item is that item's result. */
  lemma GatherOne<T, U>(f: T -> seq<U>, x: T)
    ensures Gather(f, [x]) == f(x)
  {
    assert [x][..0] == [];
  }

  /** Gathering over a list is the first item's result followed by the rest's. */
  lemma GatherCons<T, U>(f: T -> seq<U>, x: T, rest: seq<T>)
    ensures Gather(f, [x] + rest) == f(x) + Gather(f, rest)
  {
    GatherAppend(f, [x], rest);
    GatherOne(f, x);
  }

  /** `origin` lists, in increasing order, exactly the positions of the items
      `f` keeps, and item `k` of `out` is the one result of item `origin[k]`. */
  predicate Picks<T, U(==)>(f: T -> seq<U>, xs: seq<T>, out: seq<U>, origin: seq<nat>) {
    && |origin| == |out|
    && (forall k :: 0 <= k < |origin| ==> origin[k] < |xs| && f(xs[origin[k]]) == [out[k]])
    && (forall j, k :: 0 <= j < k < |origin| ==> origin[j] < origin[k])
    && (forall i :: 0 <= i < |xs| && f(xs[i]) != [] ==> i in origin)
  }

  /** When `f` keeps an item or drops it, gathering is an order-preserving
      selection of the kept items. */
  lemma {:induction false} GatherPicks<T, U>(f: T -> seq<U>, xs: seq<T>) returns (origin: seq<nat>)
    requires forall x :: |f(x)| <= 1
    ensures Picks(f, xs, Gather(f, xs), origin)
    decreases |xs|
  {
    if xs == [] {
      origin := [];
    } else {
      var n := |xs| - 1;
      var prev := GatherPicks(f, xs[..n]);
      if f(xs[n]) == [] {
        origin := prev;
        PicksDrop(f, xs, Gather(f, xs[..n]), prev);
      } else {
        origin := prev + [n];
        assert f(xs[n]) == [f(xs[n])[0]];
        PicksKeep(f, xs, Gather(f, xs[..n]), prev);
      }
    }
  }

  /** A dropped last item leaves the selection as it was. */
  lemma PicksDrop<T, U>(f: T -> seq<U>, xs: seq<T>, before: seq<U>, prev: seq<nat>)
    requires xs != [] && f(xs[|xs| - 1]) == []
    requires Picks(f, xs[..|xs| - 1], before, prev)
    ensures Picks(f, xs, before + f(xs[|xs| - 1]), prev)
  {
    var n := |xs| - 1;
    assert before + f(xs[n]) == before;
    forall i | 0 <= i < |xs| && f(xs[i]) != [] ensures i in prev {
      assert xs[..n][i] == xs[i];
    }
  }

  /** A kept last item extends the selection by its own result. */
  lemma PicksKeep<T, U>(f: T -> seq<U>, xs: seq<T>, before: seq<U>, prev: seq<nat>)
    requires xs != [] && |f(xs[|xs| - 1])| == 1
    requires Picks(f, xs[..|xs| - 1], before, prev)
    ensures Picks(f, xs, before + f(xs[|xs| - 1]), prev + [|xs| - 1])
  {
    var n := |xs| - 1;
    var out := before + f(xs[n]);
    assert f(xs[n]) == [out[n - n + |before|]];
    forall i | 0 <= i < |xs| && f(xs[i]) != [] ensures i in prev + [n] {
      if i < n {
        assert xs[..n][i] == xs[i];
      }
    }
  }
}
