/** What `setTree` does to a values tree, as a pure function, and its laws. */
module SetTreeSpec {
  import opened Options
  import opened Paths
  import opened GoHeap
  import opened Addresses

  datatype SetError = EmptyPath | BadElement | ElementNotMap | ValueNotMap | ScalarInPath

  /** The tree is given with an error too: an error may come after a change. */
  datatype Outcome = Outcome(tree: Tree, error: Option<SetError>)

  const EMPTY_MAP := Map(map[])

  function Put(t: Tree, key: string, child: Tree): Tree
    requires t.Map?
  {
    Map(t.entries[Str(key) := child])
  }

  /** The key that `range` happens to visit first in a value used as the root of a list entry. */
  predicate PicksRoot(value: Tree, pick: Scalar) {
    value.Map? && value.entries != map[] ==> pick in value.entries
  }

  function SetTree(t: Tree, path: Path, value: Tree, pick: Scalar): Outcome
    requires t.Map? && PicksRoot(value, pick)
    decreases |path|, 1, 0
  {
    if path == [] then Outcome(t, Some(EmptyPath))
    else if |path| == 1 then Outcome(Put(t, path[0], value), None)
    else
      var found := Get(t, path[0]);
      var child := if found.Null? then EMPTY_MAP else found;
      if !child.Map? && !child.List? then
        if |path| == 2 then Outcome(Put(t, path[0], value), None) else Outcome(t, Some(ScalarInPath))
      else
        var inner := if child.List? then SetInList(child.elements, path[1..], value, pick)
                     else SetTree(child, path[1..], value, pick);
        Outcome(Put(t, path[0], inner.tree), inner.error)
  }

  /** Whether a list element is the one addressed by `[k:v]`. */
  predicate Selected(e: Tree, k: string, v: string)
    requires e.Map?
  {
    Get(e, k) == Leaf(Str(v))
  }

  function Find(es: seq<Tree>, k: string, v: string, i: nat): (r: Search)
    ensures r.Found? ==> i <= r.index < |es| && es[r.index].Map? && Selected(es[r.index], k, v)
    ensures r.Found? ==> forall j | i <= j < r.index :: es[j].Map? && !Selected(es[j], k, v)
    ensures r.Missing? ==> forall j | i <= j < |es| :: es[j].Map? && !Selected(es[j], k, v)
    decreases |es| - i
  {
    if i >= |es| then Missing
    else if !es[i].Map? then Unsearchable
    else if Selected(es[i], k, v) then Found(i)
    else Find(es, k, v, i + 1)
  }

  function NewElement(k: string, v: string): Tree {
    Map(map[Str(k) := Leaf(Str(v))])
  }

  function SetInList(es: seq<Tree>, path: Path, value: Tree, pick: Scalar): Outcome
    requires path != [] && PicksRoot(value, pick)
    decreases |path|, 0, 0
  {
    match PathKV(path[0])
    case None => Outcome(List(es), Some(BadElement))
    case Some((k, v)) =>
      match Find(es, k, v, 0)
      case Unsearchable => Outcome(List(es), Some(ElementNotMap))
      case Found(i) =>
        var inner := if |path| == 1 then SetRoot(es[i], value, pick) else SetTree(es[i], path[1..], value, pick);
        Outcome(List(es[i := inner.tree]), inner.error)
      case Missing =>
        var inner := if |path| == 1 then Outcome(NewElement(k, v), None)
                     else SetTree(NewElement(k, v), path[1..], value, pick);
        Outcome(List(es + [inner.tree]), inner.error)
  }

  /** A path that ends at a list element stores the root entry of the value, a map, in that element. */
  function SetRoot(e: Tree, value: Tree, pick: Scalar): Outcome
    requires e.Map? && PicksRoot(value, pick)
  {
    if !value.Map? then Outcome(e, Some(ValueNotMap))
    else if value.entries == map[] then Outcome(Put(e, "", Null), None)
    else Outcome(Map(e.entries[pick := value.entries[pick]]), None)
  }

  // ---- All or nothing

  /**
   The path runs past the end of a list, into the new element `[k:v]`, and then through `k` itself by more than one
   element: `k` is the scalar v there.
   */
  predicate Overruns(t: Tree, path: Path)
    requires t.Map?
    decreases |path|, 1
  {
    |path| > 1 &&
    var child := Get(t, path[0]);
    if child.List? then OverrunsList(child.elements, path[1..])
    else child.Map? && Overruns(child, path[1..])
  }

  predicate OverrunsList(es: seq<Tree>, path: Path)
    requires path != []
    decreases |path|, 0
  {
    match PathKV(path[0])
    case None => false
    case Some((k, v)) =>
      match Find(es, k, v, 0)
      case Unsearchable => false
      case Found(i) => Overruns(es[i], path[1..])
      case Missing => |path| >= 4 && path[1] == k
  }

  /** An error leaves the whole tree unchanged, unless the path overruns a list; then there is an error and a change. */
  lemma {:induction false} AllOrNothing(t: Tree, path: Path, value: Tree, pick: Scalar)
    requires t.Map? && PicksRoot(value, pick)
    ensures var r := SetTree(t, path, value, pick);
            r.error.Some? && r.tree != t <==> Overruns(t, path)
    decreases |path|, 1
  {
    if |path| > 1 {
      var child := Get(t, path[0]);
      if child.List? {
        AllOrNothingInList(child.elements, path[1..], value, pick);
      } else if child.Map? {
        AllOrNothing(child, path[1..], value, pick);
      } else if child.Null? {
        NewMapTakesAll(EMPTY_MAP, path[1..], value, pick);
      }
    }
  }

  lemma {:induction false} AllOrNothingInList(es: seq<Tree>, path: Path, value: Tree, pick: Scalar)
    requires path != [] && PicksRoot(value, pick)
    ensures var r := SetInList(es, path, value, pick);
            r.error.Some? && r.tree != List(es) <==> OverrunsList(es, path)
    decreases |path|, 0
  {
    if PathKV(path[0]).Some? && |path| > 1 {
      var (k, v) := PathKV(path[0]).value;
      var found := Find(es, k, v, 0);
      if found.Found? {
        AllOrNothing(es[found.index], path[1..], value, pick);
      } else if found.Missing? {
        SetInNewElement(k, v, path[1..], value, pick);
      }
    }
  }

  /** Inside an empty map, everything is created. */
  lemma {:induction false} NewMapTakesAll(t: Tree, path: Path, value: Tree, pick: Scalar)
    requires t.Map? && path != [] && Get(t, path[0]).Null? && PicksRoot(value, pick)
    ensures SetTree(t, path, value, pick).error == None
    decreases |path|
  {
    if |path| > 1 {
      NewMapTakesAll(EMPTY_MAP, path[1..], value, pick);
    }
  }

  lemma SetInNewElement(k: string, v: string, path: Path, value: Tree, pick: Scalar)
    requires path != [] && PicksRoot(value, pick)
    ensures SetTree(NewElement(k, v), path, value, pick).error.Some? <==> |path| >= 3 && path[0] == k
  {
    if path[0] != k {
      NewMapTakesAll(NewElement(k, v), path, value, pick);
    }
  }

  /** The exception happens: in an empty list `l`, the path l.[a:b].a.c.d leaves an element behind and fails. */
  lemma OverrunExample()
    ensures var t := Map(map[Str("l") := List([])]);
            var r := SetTree(t, ["l", "[a:b]", "a", "c", "d"], Leaf(Str("x")), Str(""));
            r.error == Some(ScalarInPath) && r.tree == Map(map[Str("l") := List([NewElement("a", "b")])])
  {
    var t := Map(map[Str("l") := List([])]);
    var path := ["l", "[a:b]", "a", "c", "d"];
    KVRoundTrip("a", "b");
    assert "[" + "a" + ":" + "b" + "]" == "[a:b]";
    assert path[1..] == ["[a:b]", "a", "c", "d"];
    assert path[1..][1..] == ["a", "c", "d"];
    var element := NewElement("a", "b");
    var inner := SetTree(element, ["a", "c", "d"], Leaf(Str("x")), Str(""));
    assert inner == Outcome(element, Some(ScalarInPath));
    assert SetInList([], path[1..], Leaf(Str("x")), Str("")).tree == List([element]);
    assert Put(t, "l", List([element])).entries == map[Str("l") := List([element])];
  }

  // ---- Reading back, and what stays

  /**
   The path ends in a key of a map and meets no scalar before; every list it meets consists of maps and is addressed by
   a `[k:v]` that k itself does not follow.
   */
  predicate Clear(t: Tree, path: Path)
    requires t.Map?
    decreases |path|, 1
  {
    path != [] && (|path| > 1 ==>
      var child := Get(t, path[0]);
      if child.List? then ClearInList(child.elements, path[1..])
      else child.Null? || (child.Map? && Clear(child, path[1..])))
  }

  predicate ClearInList(es: seq<Tree>, path: Path)
    decreases |path|, 0
  {
    |path| > 1 && PathKV(path[0]).Some? &&
    var (k, v) := PathKV(path[0]).value;
    var found := Find(es, k, v, 0);
    k != path[1] && !found.Unsearchable? && (found.Found? ==> Clear(es[found.index], path[1..]))
  }

  /** Following the path from the root, through the first list element each `[k:v]` selects. */
  function Read(t: Tree, path: Path): Option<Tree>
    decreases |path|
  {
    if path == [] then Some(t)
    else if t.Map? then if Str(path[0]) in t.entries then Read(t.entries[Str(path[0])], path[1..]) else None
    else if t.List? && PathKV(path[0]).Some? then
      var (k, v) := PathKV(path[0]).value;
      var found := Find(t.elements, k, v, 0);
      if found.Found? then Read(t.elements[found.index], path[1..]) else None
    else None
  }

  /** Where the value will be: through existing elements, or a new one at the end of a list. */
  function Destination(t: Tree, path: Path): Address
    requires t.Map? && Clear(t, path)
    decreases |path|, 1
  {
    var step := Key(Str(path[0]));
    if |path| == 1 then [step]
    else
      var child := Get(t, path[0]);
      if child.List? then [step] + DestinationInList(child.elements, path[1..])
      else if child.Null? then [step] + Keys(path[1..])
      else [step] + Destination(child, path[1..])
  }

  function DestinationInList(es: seq<Tree>, path: Path): Address
    requires ClearInList(es, path)
    decreases |path|, 0
  {
    var (k, v) := PathKV(path[0]).value;
    match Find(es, k, v, 0)
    case Found(i) => [Index(i)] + Destination(es[i], path[1..])
    case _ => [Index(|es|)] + Keys(path[1..])
  }

  function Keys(path: Path): Address {
    if path == [] then [] else [Key(Str(path[0]))] + Keys(path[1..])
  }

  /** The three things that hold of a set: no error, the value is read back, and other nodes are what they were. */
  ghost predicate Lands(t: Tree, path: Path, value: Tree, t': Tree, a: Address) {
    && Read(t', path) == Some(value)
    && At(t', a) == Some(value)
    && forall b | !Comparable(a, b) && At(t, b).Some? :: At(t', b) == At(t, b)
  }

  lemma {:induction false} SetTreeLands(t: Tree, path: Path, value: Tree, pick: Scalar)
    requires t.Map? && Clear(t, path) && PicksRoot(value, pick)
    ensures SetTree(t, path, value, pick).error == None
    ensures Lands(t, path, value, SetTree(t, path, value, pick).tree, Destination(t, path))
    decreases |path|, 1
  {
    var found := Get(t, path[0]);
    if |path| == 1 {
      LandsHere(t, path, value);
    } else if found.List? {
      SetInListLands(found.elements, path[1..], value, pick);
      var inner := SetInList(found.elements, path[1..], value, pick).tree;
      LandsBelow(t, path, value, inner, DestinationInList(found.elements, path[1..]));
    } else if found.Null? {
      NewMapLands(EMPTY_MAP, path[1..], value, pick);
      var inner := SetTree(EMPTY_MAP, path[1..], value, pick).tree;
      LandsBelow(t, path, value, inner, Keys(path[1..]));
    } else {
      SetTreeLands(found, path[1..], value, pick);
      var inner := SetTree(found, path[1..], value, pick).tree;
      LandsBelow(t, path, value, inner, Destination(found, path[1..]));
    }
  }

  lemma {:induction false} SetInListLands(es: seq<Tree>, path: Path, value: Tree, pick: Scalar)
    requires ClearInList(es, path) && PicksRoot(value, pick)
    ensures SetInList(es, path, value, pick).error == None
    ensures Lands(List(es), path, value, SetInList(es, path, value, pick).tree, DestinationInList(es, path))
    decreases |path|, 0
  {
    var (k, v) := PathKV(path[0]).value;
    var found := Find(es, k, v, 0);
    if found.Found? {
      SetTreeLands(es[found.index], path[1..], value, pick);
      var inner := SetTree(es[found.index], path[1..], value, pick).tree;
      SelectionKept(es[found.index], path[1..], value, pick, k);
      LandsInElement(es, path, value, found.index, inner, Destination(es[found.index], path[1..]));
    } else {
      NewMapLands(NewElement(k, v), path[1..], value, pick);
      var inner := SetTree(NewElement(k, v), path[1..], value, pick).tree;
      SelectionKept(NewElement(k, v), path[1..], value, pick, k);
      LandsInNewElement(es, path, value, inner, Keys(path[1..]));
    }
  }

  /** In a map without an entry under the first key, everything further is new. */
  lemma {:induction false} NewMapLands(t: Tree, path: Path, value: Tree, pick: Scalar)
    requires t.Map? && path != [] && Get(t, path[0]).Null? && PicksRoot(value, pick)
    ensures SetTree(t, path, value, pick).error == None
    ensures Lands(t, path, value, SetTree(t, path, value, pick).tree, Keys(path))
    decreases |path|
  {
    if |path| == 1 {
      LandsHere(t, path, value);
      assert Keys(path) == [Key(Str(path[0]))];
    } else {
      NewMapLands(EMPTY_MAP, path[1..], value, pick);
      LandsBelow(t, path, value, SetTree(EMPTY_MAP, path[1..], value, pick).tree, Keys(path[1..]));
    }
  }

  lemma SelectionKept(e: Tree, path: Path, value: Tree, pick: Scalar, k: string)
    requires e.Map? && path != [] && path[0] != k && PicksRoot(value, pick)
    ensures SetTree(e, path, value, pick).tree.Map? && Get(SetTree(e, path, value, pick).tree, k) == Get(e, k)
  {
  }

  lemma LandsHere(t: Tree, path: Path, value: Tree)
    requires t.Map? && |path| == 1
    ensures Lands(t, path, value, Put(t, path[0], value), [Key(Str(path[0]))])
  {
    var a, t' := [Key(Str(path[0]))], Put(t, path[0], value);
    assert At(t', a) == At(value, []);
    assert path[1..] == [] && Read(value, []) == Some(value);
  }

  lemma LandsBelow(t: Tree, path: Path, value: Tree, inner: Tree, a: Address)
    requires t.Map? && |path| > 1
    requires var child := Get(t, path[0]); Lands(if child.Null? then EMPTY_MAP else child, path[1..], value, inner, a)
    ensures Lands(t, path, value, Put(t, path[0], inner), [Key(Str(path[0]))] + a)
  {
    var step := Key(Str(path[0]));
    var t' := Put(t, path[0], inner);
    assert ([step] + a)[1..] == a;
    forall b | !Comparable([step] + a, b) && At(t, b).Some?
      ensures At(t', b) == At(t, b)
    {
      if b != [] && b[0] == step {
        ComparableTails([step] + a, b);
        assert At(t, b) == At(Get(t, path[0]), b[1..]);
      }
    }
  }

  lemma LandsInElement(es: seq<Tree>, path: Path, value: Tree, i: nat, inner: Tree, a: Address)
    requires |path| > 1 && PathKV(path[0]).Some?
    requires var (k, v) := PathKV(path[0]).value;
             Find(es, k, v, 0) == Found(i) && inner.Map? && Get(inner, k) == Get(es[i], k)
    requires Lands(es[i], path[1..], value, inner, a)
    ensures Lands(List(es), path, value, List(es[i := inner]), [Index(i)] + a)
  {
    var (k, v) := PathKV(path[0]).value;
    var t, t' := List(es), List(es[i := inner]);
    FindAgain(es, es[i := inner], k, v, 0, i);
    assert ([Index(i)] + a)[1..] == a;
    forall b | !Comparable([Index(i)] + a, b) && At(t, b).Some?
      ensures At(t', b) == At(t, b)
    {
      if b != [] && b[0] == Index(i) {
        ComparableTails([Index(i)] + a, b);
      }
    }
  }

  lemma LandsInNewElement(es: seq<Tree>, path: Path, value: Tree, inner: Tree, a: Address)
    requires |path| > 1 && PathKV(path[0]).Some?
    requires var (k, v) := PathKV(path[0]).value;
             Find(es, k, v, 0) == Missing && inner.Map? && Selected(inner, k, v)
             && Lands(NewElement(k, v), path[1..], value, inner, a)
    ensures Lands(List(es), path, value, List(es + [inner]), [Index(|es|)] + a)
  {
    hide PathKV, NewElement;
    var (k, v) := PathKV(path[0]).value;
    var t' := List(es + [inner]);
    FindAgain(es + [inner], es + [inner], k, v, 0, |es|);
    assert ([Index(|es|)] + a)[1..] == a;
    assert At(t', [Index(|es|)] + a) == At(inner, a);
  }

  /** The first selected element is found at `i` in `es'` if it is one there and no element before it is. */
  lemma {:induction false} FindAgain(es: seq<Tree>, es': seq<Tree>, k: string, v: string, j: nat, i: nat)
    requires |es'| == |es| && j <= i < |es'| && es'[i].Map? && Selected(es'[i], k, v)
    requires forall x | 0 <= x < i :: es'[x] == es[x] && es[x].Map? && !Selected(es[x], k, v)
    ensures Find(es', k, v, j) == Found(i)
    decreases i - j
  {
    if j < i {
      FindAgain(es, es', k, v, j + 1, i);
    }
  }
}
