/** Several sets into the same tree: when their order does not matter. */
module SetTreeOrder {
  import opened Options
  import opened Paths
  import opened Addresses
  import opened GoHeap
  import opened Permutations
  import opened SetTreeSpec

  /** Every node that the path leads through is a map, or not there yet. */
  predicate MapsAlong(t: Tree, path: Path)
    requires t.Map?
    decreases |path|
  {
    path != [] && (|path| > 1 ==>
      var child := Get(t, path[0]); child.Null? || (child.Map? && MapsAlong(child, path[1..])))
  }

  /** The map under `key` that a longer path continues in. */
  function Below(t: Tree, key: string): Tree
    requires t.Map?
    ensures Below(t, key).Map?
  {
    if Get(t, key).Map? then Get(t, key) else EMPTY_MAP
  }

  /** A set along maps. */
  function Insert(t: Tree, path: Path, value: Tree): (t': Tree)
    requires t.Map? && path != []
    ensures t'.Map?
    decreases |path|
  {
    if |path| == 1 then Put(t, path[0], value)
    else Put(t, path[0], Insert(Below(t, path[0]), path[1..], value))
  }

  lemma {:induction false} SetAlongMaps(t: Tree, path: Path, value: Tree, pick: Scalar)
    requires t.Map? && MapsAlong(t, path) && PicksRoot(value, pick)
    ensures SetTree(t, path, value, pick) == SetTreeSpec.Outcome(Insert(t, path, value), None)
    decreases |path|
  {
    if |path| > 1 {
      var child := Get(t, path[0]);
      SetAlongMaps(if child.Null? then EMPTY_MAP else child, path[1..], value, pick);
    }
  }

  /** A path of plain keys that the laws of `setTree` apply to leads through maps. */
  lemma {:induction false} PlainPathsMeetMaps(t: Tree, path: Path)
    requires t.Map? && Clear(t, path) && forall i | 0 <= i < |path| :: PathKV(path[i]).None?
    ensures MapsAlong(t, path)
    decreases |path|
  {
    if |path| > 1 && Get(t, path[0]).Map? {
      PlainPathsMeetMaps(Get(t, path[0]), path[1..]);
    }
  }

  predicate PrefixComparable(p: Path, q: Path) {
    p <= q || q <= p
  }

  lemma TailsComparable(p: Path, q: Path)
    requires p != [] && q != [] && p[0] == q[0]
    ensures PrefixComparable(p[1..], q[1..]) == PrefixComparable(p, q)
  {
    assert p == [p[0]] + p[1..] && q == [q[0]] + q[1..];
  }

  lemma {:induction false} StillMapsAlong(t: Tree, p: Path, value: Tree, q: Path)
    requires t.Map? && p != [] && MapsAlong(t, q) && !PrefixComparable(p, q)
    ensures MapsAlong(Insert(t, p, value), q)
    decreases |p|
  {
    if p[0] == q[0] {
      TailsComparable(p, q);
      assert |p| > 1 && |q| > 1;
      assert MapsAlong(Below(t, p[0]), q[1..]);
      StillMapsAlong(Below(t, p[0]), p[1..], value, q[1..]);
    }
  }

  /** Sets at paths of which neither is a prefix of the other commute. */
  lemma {:induction false} InsertsCommute(t: Tree, p: Path, v: Tree, q: Path, w: Tree)
    requires t.Map? && p != [] && q != [] && !PrefixComparable(p, q)
    ensures Insert(Insert(t, p, v), q, w) == Insert(Insert(t, q, w), p, v)
    decreases |p|
  {
    if p[0] != q[0] {
      InsertsApart(t, p, v, q, w);
    } else {
      hide Insert;
      TailsComparable(p, q);
      InsertsCommute(Below(t, p[0]), p[1..], v, q[1..], w);
      InsertsInto(t, p, v, q, w);
      InsertsInto(t, q, w, p, v);
    }
  }

  lemma InsertsApart(t: Tree, p: Path, v: Tree, q: Path, w: Tree)
    requires t.Map? && p != [] && q != [] && p[0] != q[0]
    ensures Insert(Insert(t, p, v), q, w) == Insert(Insert(t, q, w), p, v)
  {
    hide Insert, Put;
    var x, y := Get(Insert(t, p, v), p[0]), Get(Insert(t, q, w), q[0]);
    InsertPuts(t, p, v, q[0], y);
    InsertPuts(t, q, w, p[0], x);
    PutsCommute(t, p[0], x, q[0], y);
  }

  /** What an insertion puts under its first key does not depend on the other entries. */
  lemma InsertPuts(t: Tree, p: Path, v: Tree, k: string, y: Tree)
    requires t.Map? && p != [] && p[0] != k
    ensures var x := Get(Insert(t, p, v), p[0]);
            Insert(t, p, v) == Put(t, p[0], x) && Insert(Put(t, k, y), p, v) == Put(Put(t, k, y), p[0], x)
  {
    assert Str(p[0]) != Str(k);
    assert Get(Put(t, k, y), p[0]) == Get(t, p[0]);
  }

  lemma InsertsInto(t: Tree, p: Path, v: Tree, q: Path, w: Tree)
    requires t.Map? && |p| > 1 && |q| > 1 && p[0] == q[0]
    ensures Insert(Insert(t, p, v), q, w) == Put(t, p[0], Insert(Insert(Below(t, p[0]), p[1..], v), q[1..], w))
  {
    var inner := Insert(Below(t, p[0]), p[1..], v);
    assert Insert(t, p, v) == Put(t, p[0], inner);
    PutAgain(t, p[0], inner, Insert(inner, q[1..], w));
  }

  lemma PutAgain(t: Tree, k: string, x: Tree, y: Tree)
    requires t.Map?
    ensures Get(Put(t, k, x), k) == x && Put(Put(t, k, x), k, y) == Put(t, k, y)
  {
    assert t.entries[Str(k) := x][Str(k) := y] == t.entries[Str(k) := y];
  }

  lemma PutsCommute(t: Tree, j: string, x: Tree, k: string, y: Tree)
    requires t.Map? && j != k
    ensures Put(Put(t, j, x), k, y) == Put(Put(t, k, y), j, x)
  {
    assert Str(j) != Str(k);
    assert t.entries[Str(j) := x][Str(k) := y] == t.entries[Str(k) := y][Str(j) := x];
  }

  /** Two sets of the same tree at prefix-incomparable plain-key paths give the same tree in either order. */
  lemma SetsCommute(t: Tree, p: Path, v: Tree, q: Path, w: Tree, pickV: Scalar, pickW: Scalar)
    requires t.Map? && PicksRoot(v, pickV) && PicksRoot(w, pickW)
    requires MapsAlong(t, p) && MapsAlong(t, q) && !PrefixComparable(p, q)
    ensures var pq := SetTree(SetTree(t, p, v, pickV).tree, q, w, pickW);
            var qp := SetTree(SetTree(t, q, w, pickW).tree, p, v, pickV);
            pq == qp && pq.error == None
  {
    SetAlongMaps(t, p, v, pickV);
    SetAlongMaps(t, q, w, pickW);
    StillMapsAlong(t, p, v, q);
    StillMapsAlong(t, q, w, p);
    SetAlongMaps(Insert(t, p, v), q, w, pickW);
    SetAlongMaps(Insert(t, q, w), p, v, pickV);
    InsertsCommute(t, p, v, q, w);
  }

  // ---- Any number of sets

  datatype Op = Op(path: Path, value: Tree)

  function InsertAll(t: Tree, ops: seq<Op>): (t': Tree)
    requires t.Map? && forall op | op in ops :: op.path != []
    ensures t'.Map?
    decreases |ops|
  {
    if ops == [] then t else InsertAll(Insert(t, ops[0].path, ops[0].value), ops[1..])
  }

  /** Paths are not prefixes of one another, or are equal with equal values. */
  predicate Consistent(x: Op, y: Op) {
    x == y || !PrefixComparable(x.path, y.path)
  }

  ghost predicate AllConsistent(ops: seq<Op>) {
    && (forall op | op in ops :: op.path != [])
    && (forall x, y | x in ops && y in ops :: Consistent(x, y))
  }

  lemma OpsCommute(t: Tree, x: Op, y: Op)
    requires t.Map? && x.path != [] && y.path != [] && Consistent(x, y)
    ensures Insert(Insert(t, x.path, x.value), y.path, y.value) == Insert(Insert(t, y.path, y.value), x.path, x.value)
  {
    if x != y {
      InsertsCommute(t, x.path, x.value, y.path, y.value);
    }
  }

  /** An operation that is consistent with those before it can be done first. */
  lemma {:induction false} DoFirst(t: Tree, before: seq<Op>, x: Op, after: seq<Op>)
    requires t.Map? && AllConsistent(before + [x] + after)
    ensures InsertAll(t, before + [x] + after) == InsertAll(t, [x] + (before + after))
    decreases |before|
  {
    if before == [] {
      assert [] + [x] + after == [x] + ([] + after);
    } else {
      var first, rest := before[0], before[1..];
      var all := before + [x] + after;
      assert all[1..] == rest + [x] + after;
      assert forall op | op in all[1..] :: op in all;
      assert first in all && x in all;
      var t' := Insert(t, first.path, first.value);
      DoFirst(t', rest, x, after);
      assert ([x] + (rest + after))[1..] == rest + after;
      assert ([x] + (before + after))[1..] == before + after && (before + after)[1..] == rest + after;
      OpsCommute(t, first, x);
    }
  }

  /** Consistent operations give the same tree in every order. */
  lemma {:induction false} OrderIsImmaterial(t: Tree, xs: seq<Op>, ys: seq<Op>)
    requires t.Map? && AllConsistent(xs) && multiset(xs) == multiset(ys)
    ensures AllConsistent(ys) && InsertAll(t, xs) == InsertAll(t, ys)
    decreases |xs|
  {
    SameMembers(xs, ys);
    if xs == [] {
      assert ys == [];
    } else {
      hide Consistent, Insert;
      var x := xs[0];
      var before, after := TakeOut(xs, ys);
      DoFirst(t, before, x, after);
      assert forall op | op in xs[1..] :: op in xs;
      OrderIsImmaterial(Insert(t, x.path, x.value), xs[1..], before + after);
      assert ([x] + (before + after))[1..] == before + after;
    }
  }

  // ---- What can be read back

  lemma {:induction false} InsertReads(t: Tree, path: Path, value: Tree)
    requires t.Map? && path != []
    ensures At(Insert(t, path, value), Keys(path)) == Some(value)
    decreases |path|
  {
    assert Keys(path)[1..] == Keys(path[1..]);
    if |path| == 1 {
      assert Keys(path[1..]) == [];
    } else {
      InsertReads(Below(t, path[0]), path[1..], value);
    }
  }

  lemma {:induction false} InsertKeeps(t: Tree, path: Path, value: Tree, other: Path)
    requires t.Map? && path != [] && other != [] && !PrefixComparable(path, other) && At(t, Keys(other)).Some?
    ensures At(Insert(t, path, value), Keys(other)) == At(t, Keys(other))
    decreases |path|
  {
    assert Keys(other)[1..] == Keys(other[1..]);
    if path[0] == other[0] {
      TailsComparable(path, other);
      assert |path| > 1 && |other| > 1;
      assert Keys(other[1..]) != [] && Keys(other[1..])[0].Key?;
      assert Get(t, path[0]).Map?;
      InsertKeeps(Below(t, path[0]), path[1..], value, other[1..]);
    }
  }

  /** What is read at a path that nothing else was set at, above or below, is one of the values that were set there. */
  lemma {:induction false} InsertAllReads(t: Tree, ops: seq<Op>, path: Path) returns (op: Op)
    requires t.Map? && path != [] && exists x :: x in ops && x.path == path
    requires forall x | x in ops :: x.path != [] && (x.path == path || !PrefixComparable(x.path, path))
    ensures op in ops && op.path == path && At(InsertAll(t, ops), Keys(path)) == Some(op.value)
    decreases |ops|
  {
    op := ops[0];
    var t' := Insert(t, op.path, op.value);
    var rest := ops[1..];
    assert forall x | x in rest :: x in ops;
    if exists x :: x in rest && x.path == path {
      op := InsertAllReads(t', rest, path);
    } else {
      assert op.path == path by {
        var x :| x in ops && x.path == path;
        assert ops == [ops[0]] + rest;
      }
      InsertReads(t, path, op.value);
      OthersKeep(t', rest, path);
    }
  }

  lemma {:induction false} OthersKeep(t: Tree, ops: seq<Op>, path: Path)
    requires t.Map? && path != [] && At(t, Keys(path)).Some?
    requires forall x | x in ops :: x.path != [] && !PrefixComparable(x.path, path)
    ensures At(InsertAll(t, ops), Keys(path)) == At(t, Keys(path))
    decreases |ops|
  {
    if ops != [] {
      assert ops[0] in ops && forall x | x in ops[1..] :: x in ops;
      InsertKeeps(t, ops[0].path, ops[0].value, path);
      OthersKeep(Insert(t, ops[0].path, ops[0].value), ops[1..], path);
    }
  }

  // ---- Several values for one path

  /** The operations with the value for `path` replaced. */
  function Overridden(ops: seq<Op>, path: Path, value: Tree): (r: seq<Op>)
    ensures |r| == |ops|
    ensures forall i | 0 <= i < |ops| :: r[i] == if ops[i].path == path then Op(path, value) else ops[i]
  {
    if ops == [] then []
    else [if ops[0].path == path then Op(path, value) else ops[0]] + Overridden(ops[1..], path, value)
  }

  /** What was set at a path before it is set again leaves no trace. */
  lemma {:induction false} LastSetWins(t: Tree, ops: seq<Op>, path: Path, value: Tree)
    requires t.Map? && path != [] && AllConsistent(Overridden(ops, path, value) + [Op(path, value)])
    ensures forall op | op in ops :: op.path != []
    ensures Insert(InsertAll(t, ops), path, value) == InsertAll(t, Overridden(ops, path, value) + [Op(path, value)])
    decreases |ops|
  {
    var x := Op(path, value);
    var over := Overridden(ops, path, value);
    forall op | op in ops
      ensures op.path != []
    {
      var i :| 0 <= i < |ops| && ops[i] == op;
      assert over[i] in over + [x];
    }
    if ops == [] {
      assert [] + [x] == [x] && [x][1..] == [];
    } else {
      var rest := Overridden(ops[1..], path, value);
      assert over[1..] == rest && (over + [x])[1..] == rest + [x];
      assert forall op | op in rest + [x] :: op in over + [x];
      var t' := Insert(t, ops[0].path, ops[0].value);
      LastSetWins(t', ops[1..], path, value);
      if ops[0].path == path {
        DoFirst(t', rest, x, []);
        DoFirst(Insert(t, path, value), rest, x, []);
        assert rest + [x] + [] == rest + [x] && rest + [] == rest && ([x] + rest)[1..] == rest;
        SetTwice(t, path, ops[0].value, value);
        SetTwice(t, path, value, value);
      }
    }
  }

  lemma {:induction false} SetTwice(t: Tree, path: Path, v: Tree, w: Tree)
    requires t.Map? && path != []
    ensures Insert(Insert(t, path, v), path, w) == Insert(t, path, w)
    decreases |path|
  {
    if |path| == 1 {
      PutAgain(t, path[0], v, w);
    } else {
      SetTwice(Below(t, path[0]), path[1..], v, w);
      InsertsInto(t, path, v, path, w);
    }
  }

  /** Paths are equal or not prefixes of one another. */
  ghost predicate AllApart(ops: seq<Op>) {
    && (forall op | op in ops :: op.path != [])
    && (forall x, y | x in ops && y in ops :: x.path == y.path || !PrefixComparable(x.path, y.path))
  }

  /**
   Operations of which only those at `path` disagree: in another order they give a tree that differs at most there, as
   setting the path once more shows.
   */
  lemma OrdersDifferOnlyAt(t: Tree, xs: seq<Op>, ys: seq<Op>, path: Path, value: Tree)
    requires t.Map? && path != [] && multiset(xs) == multiset(ys)
    requires AllConsistent(Overridden(xs, path, value) + [Op(path, value)])
    ensures forall op | op in xs + ys :: op.path != []
    ensures Insert(InsertAll(t, xs), path, value) == Insert(InsertAll(t, ys), path, value)
  {
    var last := [Op(path, value)];
    OverriddenSum(xs, path, value);
    OverriddenSum(ys, path, value);
    SumReordered(OverrideOne(path, value), xs, ys);
    assert multiset(Overridden(xs, path, value) + last) == multiset(Overridden(ys, path, value) + last);
    OrderIsImmaterial(t, Overridden(xs, path, value) + last, Overridden(ys, path, value) + last);
    LastSetWins(t, xs, path, value);
    LastSetWins(t, ys, path, value);
  }

  function OverrideOne(path: Path, value: Tree): Op -> multiset<Op> {
    (op: Op) => multiset{if op.path == path then Op(path, value) else op}
  }

  lemma {:induction false} OverriddenSum(ops: seq<Op>, path: Path, value: Tree)
    ensures multiset(Overridden(ops, path, value)) == Sum(OverrideOne(path, value), ops)
    decreases |ops|
  {
    if ops != [] {
      OverriddenSum(ops[1..], path, value);
    }
  }
}
