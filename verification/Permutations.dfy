/** Lists with the same elements. */
module Permutations {
  /** The first of `xs` is somewhere in `ys`. */
  lemma TakeOut<T>(xs: seq<T>, ys: seq<T>) returns (before: seq<T>, after: seq<T>)
    requires xs != [] && multiset(xs) == multiset(ys)
    ensures ys == before + [xs[0]] + after
    ensures multiset(xs[1..]) == multiset(before + after)
  {
    before, after := SplitAround(ys, xs[0]) by {
      SameMembers(xs, ys);
      assert xs[0] in xs;
    }
    CountWithout(before, xs[0], after);
    CountWithout([], xs[0], xs[1..]);
    assert xs == [] + [xs[0]] + xs[1..] && [] + xs[1..] == xs[1..];
  }

  lemma SplitAround<T>(ys: seq<T>, y: T) returns (before: seq<T>, after: seq<T>)
    requires y in ys
    ensures ys == before + [y] + after
  {
    var i :| 0 <= i < |ys| && ys[i] == y;
    before, after := ys[..i], ys[i + 1..];
  }

  lemma CountWithout<T>(before: seq<T>, x: T, after: seq<T>)
    ensures multiset(before + [x] + after) - multiset{x} == multiset(before + after)
  {
    assert multiset(before + [x] + after) == multiset(before) + multiset{x} + multiset(after);
  }

  lemma SameMembers<T>(xs: seq<T>, ys: seq<T>)
    requires multiset(xs) == multiset(ys)
    ensures forall x :: x in xs <==> x in ys
    ensures |xs| == |ys|
  {
    assert forall x :: x in xs <==> x in multiset(xs);
    assert |multiset(xs)| == |xs| && |multiset(ys)| == |ys|;
  }

  /** The elements of a multiset in some order. */
  ghost function Listed<T>(m: multiset<T>): (xs: seq<T>)
    ensures multiset(xs) == m
    decreases |m|
  {
    if m == multiset{} then []
    else
      var x :| x in m;
      [x] + Listed(m - multiset{x})
  }

  lemma ListedMembers<T>(m: multiset<T>)
    ensures forall x :: x in Listed(m) <==> x in m
  {
    var xs := Listed(m);
    assert forall x :: x in xs <==> x in multiset(xs);
  }

  /** What the elements of a list contribute, together. */
  ghost function Sum<T, U>(g: T -> multiset<U>, xs: seq<T>): multiset<U> {
    if xs == [] then multiset{} else g(xs[0]) + Sum(g, xs[1..])
  }

  /** In another order, the elements of a list together contribute the same. */
  lemma {:induction false} SumReordered<T, U>(g: T -> multiset<U>, xs: seq<T>, ys: seq<T>)
    requires multiset(xs) == multiset(ys)
    ensures Sum(g, xs) == Sum(g, ys)
    decreases |xs|
  {
    if xs == [] {
      SameMembers(xs, ys);
    } else {
      var before, after := TakeOut(xs, ys);
      SumReordered(g, xs[1..], before + after);
      SumAround(g, before, xs[0], after);
    }
  }

  lemma {:induction false} SumAround<T, U>(g: T -> multiset<U>, before: seq<T>, x: T, after: seq<T>)
    ensures Sum(g, before + [x] + after) == g(x) + Sum(g, before + after)
    decreases |before|
  {
    var all := before + [x] + after;
    if before == [] {
      assert all[1..] == after && before + after == after;
    } else {
      assert all[1..] == before[1..] + [x] + after && (before + after)[1..] == before[1..] + after;
      SumAround(g, before[1..], x, after);
    }
  }

  // ---- Sums over sets, which are visited in any order

  ghost function SumSet<T, U>(g: T -> multiset<U>, s: set<T>): multiset<U> {
    Sum(g, Listed(multiset(s)))
  }

  lemma {:induction false} SumAppends<T, U>(g: T -> multiset<U>, xs: seq<T>, ys: seq<T>)
    ensures Sum(g, xs + ys) == Sum(g, xs) + Sum(g, ys)
    decreases |xs|
  {
    if xs == [] {
      assert xs + ys == ys;
    } else {
      assert (xs + ys)[1..] == xs[1..] + ys;
      SumAppends(g, xs[1..], ys);
    }
  }

  lemma SumVisited<T, U>(g: T -> multiset<U>, s: set<T>, xs: seq<T>)
    requires multiset(xs) == multiset(s)
    ensures Sum(g, xs) == SumSet(g, s)
  {
    SumReordered(g, xs, Listed(multiset(s)));
  }

  lemma SumSetUnion<T, U>(g: T -> multiset<U>, s: set<T>, t: set<T>)
    requires s !! t
    ensures SumSet(g, s + t) == SumSet(g, s) + SumSet(g, t)
  {
    var xs, ys := Listed(multiset(s)), Listed(multiset(t));
    assert multiset(xs + ys) == multiset(s + t);
    SumAppends(g, xs, ys);
    SumVisited(g, s + t, xs + ys);
  }

  lemma {:induction false} SumOfNothing<T, U>(g: T -> multiset<U>, xs: seq<T>)
    requires forall x | x in xs :: g(x) == multiset{}
    ensures Sum(g, xs) == multiset{}
    decreases |xs|
  {
    if xs != [] {
      assert xs[0] in xs && forall x | x in xs[1..] :: x in xs;
      SumOfNothing(g, xs[1..]);
    }
  }

  /** Elements that contribute nothing can be left out. */
  lemma SumSetRestricted<T, U>(g: T -> multiset<U>, s: set<T>, t: set<T>)
    requires forall x | x in s - t :: g(x) == multiset{}
    ensures SumSet(g, s) == SumSet(g, s * t)
  {
    SumSetUnion(g, s * t, s - t);
    assert s * t + (s - t) == s;
    var xs := Listed(multiset(s - t));
    forall x | x in xs
      ensures g(x) == multiset{}
    {
      assert x in multiset(xs);
    }
    SumOfNothing(g, xs);
  }

  lemma {:induction false} SumPlus<T, U>(g: T -> multiset<U>, f: T -> multiset<U>, h: T -> multiset<U>, xs: seq<T>)
    requires forall x | x in xs :: h(x) == g(x) + f(x)
    ensures Sum(h, xs) == Sum(g, xs) + Sum(f, xs)
    decreases |xs|
  {
    if xs != [] {
      assert xs[0] in xs && forall x | x in xs[1..] :: x in xs;
      SumPlus(g, f, h, xs[1..]);
    }
  }

  lemma SumSetPlus<T, U>(g: T -> multiset<U>, f: T -> multiset<U>, h: T -> multiset<U>, s: set<T>)
    requires forall x | x in s :: h(x) == g(x) + f(x)
    ensures SumSet(h, s) == SumSet(g, s) + SumSet(f, s)
  {
    var xs := Listed(multiset(s));
    forall x | x in xs
      ensures x in s
    {
      assert x in multiset(xs);
    }
    SumPlus(g, f, h, xs);
  }
}
