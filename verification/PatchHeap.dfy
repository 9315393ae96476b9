/**
 The heap write that one patch comes down to, and the proof that it turns the document into the patched document.
 Documents are those in which every list is the value of a map key.
 */
module PatchHeap {
  import opened Paths
  import opened Addresses
  import opened GoHeap
  import opened PatchSpec

  /** Where a patch writes: under a map key, or into the list that map `owner` holds under `key`. */
  datatype Target =
    | InMap(ref: Ref, key: Scalar)
    | InList(owner: Ref, key: Scalar, cells: set<Ref>, backing: Ref, len: nat, index: nat)

  /** `Unwritable` is a node that is found but cannot be written: an element of a list that is itself a list element. */
  datatype Located = Located(target: Target) | Unwritable | Lost(error: PatchError)

  /** What holds a list: a map under a key, or another list. */
  datatype Owner = UnderKey(ref: Ref, key: Scalar) | InsideList

  /** What `getNode` finds from `s` on, which `owner` holds if it is a list. */
  ghost function Locate(sel: Selector, owner: Owner, s: Shape, path: Path): Located
    requires path != []
    decreases |path|
  {
    match s
    case SNull => Lost(NilNode)
    case SLeaf(_) => Lost(LeafInPath)
    case SJsonMap(_) => Lost(LeafInPath)
    case SMap(ref, _) =>
      if |path| == 1 then Located(InMap(ref, Str(path[0])))
      else Locate(sel, UnderKey(ref, Str(path[0])), Entry(s, path[0]), path[1..])
    case SList(cells, backing, es) =>
      match FindEntry(sel, Trees(es), path[0])
      case Missing => Lost(NotFound)
      case Unsearchable => Lost(BadPathElement)
      case Found(i) =>
        if |path| > 1 then Locate(sel, InsideList, es[i], path[1..])
        else if owner.InsideList? then Unwritable
        else Located(InList(owner.ref, owner.key, cells, backing, |es|, i))
  }

  /** A list that is held through a pointer is the value of a map key. */
  ghost predicate BoxesInMaps(s: Shape)
    decreases s
  {
    match s
    case SMap(_, entries) => forall k | k in entries :: BoxesInMaps(entries[k])
    case SList(_, _, es) => forall i | 0 <= i < |es| :: !IsBoxed(es[i]) && BoxesInMaps(es[i])
    case _ => true
  }

  ghost predicate IsBoxed(s: Shape) {
    s.SList? && s.cells != {}
  }

  lemma {:induction false} JsonHasNoBoxes(s: Shape)
    requires IsJson(Erase(s))
    ensures BoxesInMaps(s) && !IsBoxed(s) && !s.SMap?
    decreases s
  {
    if s.SList? {
      EraseList(s);
      forall i | 0 <= i < |s.elements|
        ensures !IsBoxed(s.elements[i]) && BoxesInMaps(s.elements[i])
      {
        assert Trees(s.elements)[i] == Erase(s.elements[i]);
        JsonHasNoBoxes(s.elements[i]);
      }
    }
  }

  ghost predicate Writable(h: Heap, target: Target, cell: Ref) {
    match target
    case InMap(ref, _) => ref in h && h[ref].MapObject?
    case InList(owner, _, _, backing, len, index) =>
      && owner in h && h[owner].MapObject?
      && backing in h && h[backing].ArrayObject? && index < len <= |h[backing].slots|
      && owner != backing && cell != backing && cell != owner
  }

  /**
   What `writeNode` does. Removing an element shifts those behind it down in the shared backing array, stores the
   shorter header in the cell, and stores the pointer to the cell in the map that holds the list.
   */
  ghost function Write(h: Heap, target: Target, cell: Ref, v: Value): Heap
    requires Writable(h, target, cell)
  {
    match target
    case InMap(ref, key) => if v.Nil? then h else h[ref := MapObject(h[ref].entries[key := v])]
    case InList(owner, key, _, backing, len, index) =>
      if v.Nil? then
        h[backing := ArrayObject(WithoutSlot(h[backing].slots, index, len))]
         [cell := CellObject(Slice(backing, len - 1))]
         [owner := MapObject(h[owner].entries[key := Pointer(cell)])]
      else h[backing := ArrayObject(h[backing].slots[index := v])]
  }

  // ---- The shape after the write

  ghost function Put(sel: Selector, owner: Owner, s: Shape, path: Path, t: Shape, cell: Ref): Shape
    requires path != [] && Locate(sel, owner, s, path).Located?
    decreases |path|
  {
    if s.SMap? then
      if |path| == 1 then if t.SNull? then s else WithEntry(s, Str(path[0]), t)
      else
        var owner' := UnderKey(s.ref, Str(path[0]));
        WithEntry(s, Str(path[0]), Put(sel, owner', Entry(s, path[0]), path[1..], t, cell))
    else
      var i := FindEntry(sel, Trees(s.elements), path[0]).index;
      if |path| > 1 then WithElement(s, i, Put(sel, InsideList, s.elements[i], path[1..], t, cell))
      else if t.SNull? then WithoutElement(s, i, cell)
      else WithElement(s, i, t)
  }

  // ---- Locating in the shape is resolving in the document

  lemma EraseEntry(s: Shape, key: string)
    requires s.SMap?
    ensures Erase(s).Map? && Get(Erase(s), key) == Erase(Entry(s, key))
  {
  }

  /** `getNode` and `writeNode` fail exactly when the pure patch does, and with the same error. */
  lemma {:induction false} LocateFailsAlike(sel: Selector, owner: Owner, s: Shape, path: Path, value: Tree, cell: Ref)
    requires path != [] && BoxesInMaps(s) && (owner.InsideList? ==> !IsBoxed(s))
    ensures match Locate(sel, owner, s, path)
            case Lost(e) => SetAt(sel, Erase(s), path, value, cell, owner.InsideList?) == Unpatched(e)
            case Unwritable => SetAt(sel, Erase(s), path, value, cell, owner.InsideList?) == Unpatched(NotAPointer)
            case Located(_) => SetAt(sel, Erase(s), path, value, cell, owner.InsideList?).Patched?
    decreases |path|
  {
    if s.SMap? && |path| > 1 {
      EraseEntry(s, path[0]);
      LocateFailsAlike(sel, UnderKey(s.ref, Str(path[0])), Entry(s, path[0]), path[1..], value, cell);
    } else if s.SList? {
      EraseList(s);
      var found := FindEntry(sel, Trees(s.elements), path[0]);
      if found.Found? && |path| > 1 {
        LocateFailsAlike(sel, InsideList, s.elements[found.index], path[1..], value, cell);
      }
    }
  }

  // ---- The write turns the document into the patched document

  /** The cell a removal stores the shorter list in: the one the list has, or else one that is not in use. */
  ghost predicate CellFor(target: Target, cell: Ref, used: set<Ref>) {
    if target.InList? && target.cells != {} then target.cells == {cell} else cell !in used
  }

  ghost predicate Touches(target: Target, refs: set<Ref>) {
    match target
    case InMap(ref, _) => ref in refs
    case InList(owner, _, cells, backing, _, _) => owner in refs && backing in refs && cells <= refs - {owner}
  }

  /** The objects a write may change. */
  ghost function Changed(target: Target, cell: Ref): set<Ref> {
    match target
    case InMap(ref, _) => {ref}
    case InList(owner, _, _, backing, _, _) => {owner, backing, cell}
  }

  lemma WriteFrame(h: Heap, target: Target, cell: Ref, v: Value, refs: set<Ref>)
    requires Writable(h, target, cell) && Changed(target, cell) !! refs
    ensures Agree(h, Write(h, target, cell, v), refs)
    ensures h.Keys <= Write(h, target, cell, v).Keys
  {
  }

  /** What a write below `inside` leaves alone. */
  lemma ChangedInside(target: Target, cell: Ref, inside: set<Ref>, used: set<Ref>, refs: set<Ref>)
    requires Touches(target, inside) && CellFor(target, cell, used) && refs <= used && refs !! inside
    ensures Changed(target, cell) !! refs
  {
  }

  /** The document `s` was patched into the document `s'`. */
  ghost predicate PatchedTo(sel: Selector, inner: bool, s: Shape, path: Path, h': Heap, v': Value, s': Shape, t: Shape,
                            cell: Ref) {
    && path != []
    && Holds(h', v', s') && Separate(s') && Foot(s') <= Foot(s) + Foot(t) + {cell}
    && SetAt(sel, Erase(s), path, Erase(t), cell, inner) == Patched(Erase(s'))
  }

  /** The map that holds a node. */
  ghost function Outside(owner: Owner): set<Ref> {
    if owner.UnderKey? then {owner.ref} else {}
  }

  /** The objects that a write below `s` may touch. */
  ghost function Inside(owner: Owner, s: Shape): set<Ref> {
    Foot(s) + if s.SList? then Outside(owner) else {}
  }

  predicate Shortens(s: Shape, path: Path, t: Shape) {
    s.SList? && |path| == 1 && t.SNull?
  }

  /** The value that holds the node afterwards. */
  function Holder(node: Value, s: Shape, path: Path, t: Shape, cell: Ref): Value {
    if Shortens(s, path, t) then Pointer(cell) else node
  }

  /** The map that holds the node gets the pointer to a list that was shortened, and is left alone otherwise. */
  ghost predicate OwnerKept(h: Heap, h': Heap, owner: Owner, s: Shape, path: Path, t: Shape, cell: Ref)
    requires owner.UnderKey? ==> owner.ref in h && h[owner.ref].MapObject?
  {
    owner.UnderKey? ==>
      && owner.ref in h'
      && h'[owner.ref] == if Shortens(s, path, t) then MapObject(h[owner.ref].entries[owner.key := Pointer(cell)])
                          else h[owner.ref]
  }

  /** The node `s`, with what a patch stores below it. */
  ghost predicate Ready(sel: Selector, h: Heap, owner: Owner, s: Shape, node: Value, path: Path, v: Value, t: Shape,
                        cell: Ref) {
    && Holds(h, node, s) && Separate(s) && path != [] && Locate(sel, owner, s, path).Located?
    && Holds(h, v, t) && Separate(t) && Foot(t) !! Foot(s) + Outside(owner)
    && (owner.UnderKey? ==> owner.ref in h && h[owner.ref].MapObject? && owner.ref !in Foot(s))
    && CellFor(Locate(sel, owner, s, path).target, cell, Foot(s) + Foot(t) + Outside(owner))
  }

  ghost predicate Written(sel: Selector, h: Heap, owner: Owner, s: Shape, node: Value, path: Path, v: Value, t: Shape,
                          cell: Ref)
    requires Ready(sel, h, owner, s, node, path, v, t, cell)
  {
    var target := Locate(sel, owner, s, path).target;
    && Touches(target, Inside(owner, s)) && Writable(h, target, cell) && (target.InList? ==> target.cells <= Foot(s))
    && PatchedTo(sel, owner.InsideList?, s, path, Write(h, target, cell, v), Holder(node, s, path, t, cell),
                 Put(sel, owner, s, path, t, cell), t, cell)
    && OwnerKept(h, Write(h, target, cell, v), owner, s, path, t, cell)
  }

  /** The write turns the document into the patched document. */
  lemma {:induction false} WritePatches(sel: Selector, h: Heap, owner: Owner, s: Shape, node: Value, path: Path,
                                        v: Value, t: Shape, cell: Ref)
    requires Ready(sel, h, owner, s, node, path, v, t, cell)
    ensures Written(sel, h, owner, s, node, path, v, t, cell)
    decreases |path|
  {
    if |path| == 1 {
      if s.SMap? {
        StoreUnderKey(sel, h, owner, s, node, path, v, t, cell);
      } else {
        StoreInList(sel, h, owner, s, node, path, v, t, cell);
      }
    } else if s.SMap? {
      ReadyBelowMap(sel, h, owner, s, node, path, v, t, cell);
      var owner', child := UnderKey(s.ref, Str(path[0])), Entry(s, path[0]);
      WritePatches(sel, h, owner', child, h[s.ref].entries[Str(path[0])], path[1..], v, t, cell);
      WrittenBelowMap(sel, h, owner, s, node, path, v, t, cell);
    } else {
      ReadyBelowList(sel, h, owner, s, node, path, v, t, cell);
      var i := FindEntry(sel, Trees(s.elements), path[0]).index;
      WritePatches(sel, h, InsideList, s.elements[i], h[s.backing].slots[i], path[1..], v, t, cell);
      WrittenBelowList(sel, h, owner, s, node, path, v, t, cell, i);
    }
  }

  lemma StoreUnderKey(sel: Selector, h: Heap, owner: Owner, s: Shape, node: Value, path: Path, v: Value, t: Shape,
                      cell: Ref)
    requires Ready(sel, h, owner, s, node, path, v, t, cell) && s.SMap? && |path| == 1
    ensures Written(sel, h, owner, s, node, path, v, t, cell)
  {
    hide Holds, Separate, Foot, Erase;
    MapNode(h, node, s);
    StoreEntry(h, s, Str(path[0]), v, t);
  }

  /** Storing a value under a key, or leaving the map alone if the value is nil. */
  lemma StoreEntry(h: Heap, s: Shape, key: Scalar, v: Value, t: Shape)
    requires s.SMap? && Holds(h, MapRef(s.ref), s) && Separate(s)
    requires Holds(h, v, t) && Separate(t) && Foot(t) !! Foot(s)
    ensures s.ref in h && h[s.ref].MapObject? && s.ref in Foot(s) && Erase(s).Map?
            && v.Nil? == t.SNull? == Erase(t).Null?
    ensures var h', s' := h[s.ref := MapObject(h[s.ref].entries[key := v])], WithEntry(s, key, t);
            !t.SNull? ==>
              && Holds(h', MapRef(s.ref), s') && Separate(s') && Foot(s') <= Foot(s) + Foot(t)
              && Erase(s') == Map(Erase(s).entries[key := Erase(t)])
  {
    MapInFoot(h, s);
    NilHolds(h, v, t);
    hide Holds, Separate, Foot, Erase;
    if !t.SNull? {
      var h' := h[s.ref := MapObject(h[s.ref].entries[key := v])];
      HoldsFrame(h, h', v, t);
      UntouchedEntries(h, h', s, key, t);
      EntryReplaced(h, h', s, key, v, t);
    }
  }

  lemma MapInFoot(h: Heap, s: Shape)
    requires s.SMap? && Holds(h, MapRef(s.ref), s)
    ensures s.ref in h && h[s.ref].MapObject? && s.ref in Foot(s) && Erase(s).Map?
  {
  }

  lemma UntouchedEntries(h: Heap, h': Heap, s: Shape, key: Scalar, t: Shape)
    requires s.SMap? && Holds(h, MapRef(s.ref), s) && Separate(s) && Foot(t) !! Foot(s)
    requires Agree(h, h', Foot(s) - {s.ref})
    ensures forall j | j in s.entries && j != key :: Agree(h, h', Foot(s.entries[j])) && Foot(s.entries[j]) !! Foot(t)
  {
    forall j | j in s.entries
      ensures Agree(h, h', Foot(s.entries[j])) && Foot(s.entries[j]) !! Foot(t)
    {
      FootOfEntry(s, j);
    }
  }

  lemma EntryParts(h: Heap, s: Shape, key: string)
    requires s.SMap? && Holds(h, MapRef(s.ref), s) && Separate(s) && Str(key) in s.entries
    ensures Str(key) in h[s.ref].entries && Holds(h, h[s.ref].entries[Str(key)], Entry(s, key))
            && Separate(Entry(s, key))
    ensures s.ref in h && h[s.ref].MapObject?
    ensures Entry(s, key).SMap? ==> h[s.ref].entries[Str(key)] == MapRef(Entry(s, key).ref)
    ensures Foot(Entry(s, key)) <= Foot(s) && s.ref in Foot(s) && s.ref !in Foot(Entry(s, key))
    ensures Erase(s).Map? && Get(Erase(s), key) == Erase(Entry(s, key))
    ensures forall k | k in s.entries && k != Str(key) ::
              Foot(s.entries[k]) <= Foot(s) && s.ref !in Foot(s.entries[k]) && Foot(s.entries[k]) !! Foot(Entry(s, key))
  {
    EraseEntry(s, key);
  }

  lemma MapNode(h: Heap, node: Value, s: Shape)
    requires s.SMap? && Holds(h, node, s)
    ensures node == MapRef(s.ref)
  {
  }

  lemma ReadyBelowMap(sel: Selector, h: Heap, owner: Owner, s: Shape, node: Value, path: Path, v: Value, t: Shape,
                      cell: Ref)
    requires Ready(sel, h, owner, s, node, path, v, t, cell) && s.SMap? && |path| > 1
    ensures Str(path[0]) in s.entries && s.ref in h && h[s.ref].MapObject? && Str(path[0]) in h[s.ref].entries
    ensures Ready(sel, h, UnderKey(s.ref, Str(path[0])), Entry(s, path[0]), h[s.ref].entries[Str(path[0])], path[1..],
                  v, t, cell)
  {
    hide Holds, Separate, Foot, Erase;
    MapNode(h, node, s);
    assert Locate(sel, UnderKey(s.ref, Str(path[0])), SNull, path[1..]) == Lost(NilNode);
    EntryParts(h, s, path[0]);
  }

  /** A patch of the child under `path[0]` is a patch of the map. */
  lemma WrittenBelowMap(sel: Selector, h: Heap, owner: Owner, s: Shape, node: Value, path: Path, v: Value, t: Shape,
                        cell: Ref)
    requires Ready(sel, h, owner, s, node, path, v, t, cell) && s.SMap? && |path| > 1
    requires Str(path[0]) in s.entries && s.ref in h && h[s.ref].MapObject? && Str(path[0]) in h[s.ref].entries
    requires Ready(sel, h, UnderKey(s.ref, Str(path[0])), Entry(s, path[0]), h[s.ref].entries[Str(path[0])], path[1..],
                   v, t, cell)
    requires Written(sel, h, UnderKey(s.ref, Str(path[0])), Entry(s, path[0]), h[s.ref].entries[Str(path[0])],
                     path[1..], v, t, cell)
    ensures Written(sel, h, owner, s, node, path, v, t, cell)
  {
    hide Holds, Separate, Foot, Erase, SetAt, Write, PatchedTo, Locate, Put, Touches, Writable, CellFor, Agree;
    var owner', child, child0 := UnderKey(s.ref, Str(path[0])), Entry(s, path[0]), h[s.ref].entries[Str(path[0])];
    MapBelow(sel, owner, s, path, t, cell);
    MapNode(h, node, s);
    EntryParts(h, s, path[0]);
    var target := Locate(sel, owner, s, path).target;
    TouchesMore(target, Inside(owner', child), Foot(child), Foot(child) + {s.ref});
    TouchesMore(target, Inside(owner', child), Foot(child), Foot(s));
    TouchesMore(target, Foot(s), Foot(s), Inside(owner, s));
    WriteKeeps(h, target, cell, v, owner, s, Inside(owner', child), Foot(t));
    var h' := Write(h, target, cell, v);
    var child' := Put(sel, owner', child, path[1..], t, cell);
    var entries := h[s.ref].entries;
    assert entries[Str(path[0]) := child0] == entries;
    CellForLess(target, cell, Foot(s) + Foot(t) + Outside(owner), Foot(s) + Foot(t));
    CellBelow(target, cell, s.ref, Foot(child), Foot(s) + Foot(t));
    StoreChild(sel, h, s, path, h', Holder(child0, child, path[1..], t, cell), child', t, target, cell,
               owner.InsideList?);
  }

  lemma CellBelow(target: Target, cell: Ref, ref: Ref, below: set<Ref>, used: set<Ref>)
    requires CellFor(target, cell, used) && ref in used && ref !in below && (target.InList? ==> target.cells <= below)
    ensures cell != ref
  {
  }

  lemma MapBelow(sel: Selector, owner: Owner, s: Shape, path: Path, t: Shape, cell: Ref)
    requires s.SMap? && |path| > 1
    ensures var owner', child := UnderKey(s.ref, Str(path[0])), Entry(s, path[0]);
            && Locate(sel, owner, s, path) == Locate(sel, owner', child, path[1..])
            && (Locate(sel, owner, s, path).Located? ==>
                  Put(sel, owner, s, path, t, cell)
                  == WithEntry(s, Str(path[0]), Put(sel, owner', child, path[1..], t, cell)))
  {
  }

  lemma TouchesMore(target: Target, inside: set<Ref>, below: set<Ref>, refs: set<Ref>)
    requires Touches(target, inside) && inside <= refs && below <= refs && (target.InList? ==> target.cells <= below)
    ensures Touches(target, refs) && (target.InList? ==> target.cells <= refs)
  {
  }

  /** A write below `s` changes neither the map that holds `s`, nor what it does not touch. */
  lemma WriteKeeps(h: Heap, target: Target, cell: Ref, v: Value, owner: Owner, s: Shape, inside: set<Ref>,
                   stored: set<Ref>)
    requires Writable(h, target, cell) && Touches(target, inside) && inside <= Foot(s) && Outside(owner) !! Foot(s)
    requires CellFor(target, cell, Foot(s) + stored + Outside(owner))
    requires owner.UnderKey? ==> owner.ref in h
    ensures Agree(h, Write(h, target, cell, v), Foot(s) - Changed(target, cell))
    ensures owner.UnderKey? ==>
              owner.ref in Write(h, target, cell, v) && Write(h, target, cell, v)[owner.ref] == h[owner.ref]
  {
    hide Foot;
    ChangedInside(target, cell, inside, Foot(s) + stored + Outside(owner), Outside(owner));
    WriteFrame(h, target, cell, v, Foot(s) + Outside(owner) - Changed(target, cell));
  }

  lemma StoreChild(sel: Selector, h: Heap, s: Shape, path: Path, h': Heap, v': Value, child': Shape, t: Shape,
                   target: Target, cell: Ref, inner: bool)
    requires s.SMap? && Holds(h, MapRef(s.ref), s) && Separate(s) && |path| > 1 && Str(path[0]) in s.entries
    requires Foot(t) !! Foot(s) && CellFor(target, cell, Foot(s) + Foot(t)) && cell != s.ref
    requires Touches(target, Foot(Entry(s, path[0])) + {s.ref}) && Agree(h, h', Foot(s) - Changed(target, cell))
    requires s.ref in h' && h'[s.ref] == MapObject(h[s.ref].entries[Str(path[0]) := v'])
    requires PatchedTo(sel, false, Entry(s, path[0]), path[1..], h', v', child', t, cell)
    ensures PatchedTo(sel, inner, s, path, h', MapRef(s.ref), WithEntry(s, Str(path[0]), child'), t, cell)
  {
    hide Holds, Separate, Foot, Erase, SetAt, Touches, CellFor, Changed;
    var key, child := Str(path[0]), Entry(s, path[0]);
    EntryParts(h, s, path[0]);
    forall j | j in s.entries && j != key
      ensures Agree(h, h', Foot(s.entries[j])) && Foot(s.entries[j]) !! Foot(child')
    {
      ChangedInside(target, cell, Foot(child) + {s.ref}, Foot(s) + Foot(t), Foot(s.entries[j]));
      CellApart(target, cell, Foot(child) + {s.ref}, Foot(s) + Foot(t), Foot(s.entries[j]));
    }
    EntryReplaced(h, h', s, key, v', child');
    SetBelowMap(sel, Erase(s), path, Erase(t), cell, inner, Erase(child'));
  }

  lemma SetBelowMap(sel: Selector, t: Tree, path: Path, value: Tree, cell: Ref, inner: bool, child': Tree)
    requires t.Map? && |path| > 1 && SetAt(sel, Get(t, path[0]), path[1..], value, cell) == Patched(child')
    ensures SetAt(sel, t, path, value, cell, inner) == Patched(Map(t.entries[Str(path[0]) := child']))
  {
  }

  lemma ReadyBelowList(sel: Selector, h: Heap, owner: Owner, s: Shape, node: Value, path: Path, v: Value, t: Shape,
                       cell: Ref)
    requires Ready(sel, h, owner, s, node, path, v, t, cell) && s.SList? && |path| > 1
    ensures var i := FindEntry(sel, Trees(s.elements), path[0]).index;
            && s.backing in h && h[s.backing].ArrayObject? && i < |h[s.backing].slots|
            && Ready(sel, h, InsideList, s.elements[i], h[s.backing].slots[i], path[1..], v, t, cell)
  {
    hide Holds, Separate, Foot, Erase;
    ElementParts(h, s, node, FindEntry(sel, Trees(s.elements), path[0]).index);
  }

  /** A patch of the element that `path[0]` selects is a patch of the list. */
  lemma WrittenBelowList(sel: Selector, h: Heap, owner: Owner, s: Shape, node: Value, path: Path, v: Value, t: Shape,
                         cell: Ref, i: nat)
    requires Ready(sel, h, owner, s, node, path, v, t, cell) && s.SList? && |path| > 1
    requires FindEntry(sel, Trees(s.elements), path[0]) == Found(i)
    requires s.backing in h && h[s.backing].ArrayObject? && i < |h[s.backing].slots|
    requires Ready(sel, h, InsideList, s.elements[i], h[s.backing].slots[i], path[1..], v, t, cell)
    requires Written(sel, h, InsideList, s.elements[i], h[s.backing].slots[i], path[1..], v, t, cell)
    ensures Written(sel, h, owner, s, node, path, v, t, cell)
  {
    hide Holds, Separate, Foot, Erase, SetAt, Write, PatchedTo, Locate, Put, Touches, Writable, FindEntry, CellFor,
         Agree;
    ListBelow(sel, owner, s, path, t, cell, i);
    FootOfElement(s, i);
    var target := Locate(sel, owner, s, path).target;
    ElementTouched(target, s, i, owner);
    WriteKeeps(h, target, cell, v, owner, s, Foot(s.elements[i]), Foot(t));
    var element' := Put(sel, InsideList, s.elements[i], path[1..], t, cell);
    CellForLess(target, cell, Foot(s) + Foot(t) + Outside(owner), Foot(s) + Foot(t));
    StoreElement(sel, h, s, node, path, i, Write(h, target, cell, v), element', t, target, cell, owner.InsideList?);
  }

  lemma ElementTouched(target: Target, s: Shape, i: nat, owner: Owner)
    requires s.SList? && i < |s.elements| && Touches(target, Inside(InsideList, s.elements[i]))
    requires target.InList? ==> target.cells <= Foot(s.elements[i])
    ensures Touches(target, Foot(s.elements[i])) && Touches(target, Foot(s)) && Touches(target, Inside(owner, s))
    ensures target.InList? ==> target.cells <= Foot(s)
  {
    hide Foot;
    FootOfElement(s, i);
  }

  lemma CellForLess(target: Target, cell: Ref, used: set<Ref>, less: set<Ref>)
    requires CellFor(target, cell, used) && less <= used
    ensures CellFor(target, cell, less)
  {
  }

  lemma ListBelow(sel: Selector, owner: Owner, s: Shape, path: Path, t: Shape, cell: Ref, i: nat)
    requires s.SList? && |path| > 1 && FindEntry(sel, Trees(s.elements), path[0]) == Found(i)
    ensures Locate(sel, owner, s, path) == Locate(sel, InsideList, s.elements[i], path[1..])
    ensures Locate(sel, owner, s, path).Located? ==>
              Put(sel, owner, s, path, t, cell)
              == WithElement(s, i, Put(sel, InsideList, s.elements[i], path[1..], t, cell))
                 && !Shortens(s.elements[i], path[1..], t)
  {
  }

  lemma StoreElement(sel: Selector, h: Heap, s: Shape, list: Value, path: Path, i: nat, h': Heap, element': Shape,
                     t: Shape, target: Target, cell: Ref, inner: bool)
    requires s.SList? && Holds(h, list, s) && Separate(s) && |path| > 1
    requires s.backing in h && h[s.backing].ArrayObject? && i < |h[s.backing].slots|
    requires FindEntry(sel, Trees(s.elements), path[0]) == Found(i)
    requires Foot(t) !! Foot(s) && CellFor(target, cell, Foot(s) + Foot(t))
    requires Touches(target, Foot(s.elements[i])) && Agree(h, h', Foot(s) - Changed(target, cell))
    requires PatchedTo(sel, true, s.elements[i], path[1..], h', h[s.backing].slots[i], element', t, cell)
    ensures PatchedTo(sel, inner, s, path, h', list, WithElement(s, i, element'), t, cell)
  {
    hide Holds, Separate, Foot, Erase, SetAt, FindEntry, Touches, CellFor, Changed;
    ElementParts(h, s, list, i);
    ListParts(h, s, list);
    EraseList(s);
    var inside, used := Foot(s.elements[i]), Foot(s) + Foot(t);
    ChangedInside(target, cell, inside, used, s.cells + {s.backing});
    CellApart(target, cell, inside, used, s.cells + {s.backing});
    forall j | 0 <= j < |s.elements| && j != i
      ensures Agree(h, h', Foot(s.elements[j])) && Foot(s.elements[j]) !! Foot(element')
    {
      ChangedInside(target, cell, inside, used, Foot(s.elements[j]));
      CellApart(target, cell, inside, used, Foot(s.elements[j]));
    }
    var slots := h[s.backing].slots;
    assert slots[i := slots[i]] == slots;
    ElementReplaced(h, h', list, s, i, slots[i], element');
    SetBelowList(sel, s.cells, Trees(s.elements), path, Erase(t), cell, inner, i, Erase(element'));
  }

  lemma CellApart(target: Target, cell: Ref, inside: set<Ref>, used: set<Ref>, refs: set<Ref>)
    requires Touches(target, inside) && CellFor(target, cell, used) && refs <= used && refs !! inside
    ensures cell !in refs
  {
  }

  lemma SetBelowList(sel: Selector, cells: set<Ref>, es: seq<Tree>, path: Path, value: Tree, cell: Ref, inner: bool,
                     i: nat, element': Tree)
    requires |path| > 1 && FindEntry(sel, es, path[0]) == Found(i)
    requires SetAt(sel, es[i], path[1..], value, cell, true) == Patched(element')
    ensures SetAt(sel, ListOf(cells, es), path, value, cell, inner) == Patched(ListOf(cells, es[i := element']))
  {
    hide FindEntry;
  }

  /** A nil value holds nothing but the null document. */
  lemma NilHolds(h: Heap, v: Value, t: Shape)
    requires Holds(h, v, t)
    ensures v.Nil? <==> t.SNull?
    ensures t.SNull? ==> Erase(t) == Null
    ensures Erase(t).Null? ==> t.SNull?
  {
  }

  lemma StoreInList(sel: Selector, h: Heap, owner: Owner, s: Shape, node: Value, path: Path, v: Value, t: Shape,
                    cell: Ref)
    requires Ready(sel, h, owner, s, node, path, v, t, cell) && s.SList? && |path| == 1
    ensures Written(sel, h, owner, s, node, path, v, t, cell)
  {
    hide Holds, Separate, Foot, Erase, SetAt, PatchedTo;
    var target := Locate(sel, owner, s, path).target;
    ListParts(h, s, node);
    NilHolds(h, v, t);
    WriteFrame(h, target, cell, v, Foot(s) + Foot(t) + Outside(owner) - Changed(target, cell));
    if t.SNull? {
      RemoveElement(sel, h, target, s, node, path, cell);
    } else {
      SetElement(sel, h, target, s, node, path, v, t, cell);
    }
  }

  lemma SetElement(sel: Selector, h: Heap, target: Target, s: Shape, list: Value, path: Path, v: Value, t: Shape,
                   cell: Ref)
    requires s.SList? && Holds(h, list, s) && Separate(s) && |path| == 1
    requires target.InList? && target.backing == s.backing && target.len == |s.elements|
    requires FindEntry(sel, Trees(s.elements), path[0]) == Found(target.index)
    requires Writable(h, target, cell) && Holds(h, v, t) && Separate(t) && Foot(t) !! Foot(s) && !t.SNull?
    ensures PatchedTo(sel, false, s, path, Write(h, target, cell, v), list, WithElement(s, target.index, t), t, cell)
  {
    hide Holds, Separate, Foot;
    var h', i := Write(h, target, cell, v), target.index;
    EraseList(s);
    ListParts(h, s, list);
    NilHolds(h, v, t);
    HoldsFrame(h, h', v, t);
    forall j | 0 <= j < |s.elements| && j != i
      ensures Agree(h, h', Foot(s.elements[j])) && Foot(s.elements[j]) !! Foot(t)
    {
      ElementParts(h, s, list, j);
    }
    ElementReplaced(h, h', list, s, i, v, t);
  }

  lemma RemoveElement(sel: Selector, h: Heap, target: Target, s: Shape, list: Value, path: Path, cell: Ref)
    requires s.SList? && Holds(h, list, s) && Separate(s) && |path| == 1
    requires target.InList? && target.backing == s.backing && target.len == |s.elements| && target.cells == s.cells
    requires FindEntry(sel, Trees(s.elements), path[0]) == Found(target.index)
    requires Writable(h, target, cell) && target.owner !in Foot(s) && CellFor(target, cell, Foot(s))
    ensures PatchedTo(sel, false, s, path, Write(h, target, cell, Nil), Pointer(cell),
                      WithoutElement(s, target.index, cell), SNull, cell)
  {
    hide Holds, Separate, Foot;
    var h', i := Write(h, target, cell, Nil), target.index;
    EraseList(s);
    forall j | 0 <= j < |s.elements|
      ensures Agree(h, h', Foot(s.elements[j])) && cell !in Foot(s.elements[j])
    {
      ElementParts(h, s, list, j);
    }
    ElementRemoved(h, h', list, s, i, cell);
    assert Without(Trees(s.elements), i) == Trees(s.elements)[..i] + Trees(s.elements)[i + 1..];
  }

  // ---- Pointers to lists stay values of map keys

  lemma {:induction false} PutKeepsBoxesInMaps(sel: Selector, owner: Owner, s: Shape, path: Path, t: Shape, cell: Ref)
    requires path != [] && Locate(sel, owner, s, path).Located?
    requires BoxesInMaps(s) && (owner.InsideList? ==> !IsBoxed(s)) && BoxesInMaps(t) && !IsBoxed(t)
    ensures var s' := Put(sel, owner, s, path, t, cell);
            && BoxesInMaps(s') && (owner.InsideList? ==> !IsBoxed(s'))
            && (s.SMap? ==> s'.SMap? && s'.ref == s.ref)
    decreases |path|
  {
    if |path| > 1 {
      if s.SMap? {
        PutKeepsBoxesInMaps(sel, UnderKey(s.ref, Str(path[0])), Entry(s, path[0]), path[1..], t, cell);
      } else {
        var i := FindEntry(sel, Trees(s.elements), path[0]).index;
        PutKeepsBoxesInMaps(sel, InsideList, s.elements[i], path[1..], t, cell);
      }
    }
  }
}
