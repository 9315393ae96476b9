/** `getNode`, `writeNode` and `applyPatches` on the shared heap, proved against the pure patch. */
module PatchCode {
  import opened Options
  import opened Paths
  import opened GoHeap
  import opened PatchSpec
  import opened PatchHeap

  datatype ChildKey = NoKey | IndexKey(index: nat) | NameKey(key: Scalar)

  /** A way back towards the root of the tree. */
  class PathContext {
    const parent: PathContext?
    const node: Value
    var keyToChild: ChildKey

    constructor (parent: PathContext?, node: Value)
      ensures this.parent == parent && this.node == node && keyToChild == NoKey
    {
      this.parent, this.node, keyToChild := parent, node, NoKey;
    }
  }

  datatype Lookup = Node(context: PathContext) | LookupError(error: PatchError)

  /** The parents of `c` say that its node is the one at `target`, reached through `cell` if it is in a list. */
  ghost predicate Points(c: PathContext, target: Target, cell: Ref)
    reads c.parent, if c.parent == null then null else c.parent.parent
  {
    c.parent != null &&
    match target
    case InMap(ref, key) => c.parent.node == MapRef(ref) && c.parent.keyToChild == NameKey(key)
    case InList(owner, key, _, _, _, index) =>
      && c.parent.node == Pointer(cell) && c.parent.keyToChild == IndexKey(index)
      && c.parent.parent != null
      && c.parent.parent.node == MapRef(owner) && c.parent.parent.keyToChild == NameKey(key)
  }

  /** `cell` holds the list that the target is in. */
  ghost predicate Backs(h: Heap, target: Target, cell: Ref) {
    target.InList? ==> cell in h && h[cell] == CellObject(Slice(target.backing, target.len))
  }

  /** How a value prints. */
  function Text(sprint: (Heap, Value) -> string, h: Heap, v: Value): string {
    match v
    case Nil => "<nil>"
    case Atom(scalar) => scalar.text
    case _ => sprint(h, v)
  }

  /** Printing a value is printing the document that it holds. */
  ghost predicate Prints(sprint: (Heap, Value) -> string, sel: Selector) {
    forall h, v, s :: Holds(h, v, s) ==> Text(sprint, h, v) == Printed(sel, Erase(s))
  }

  /** The parent of `c` is a list that is not held through a pointer. */
  ghost predicate InSlice(c: PathContext)
    reads c.parent
  {
    c.parent != null && c.parent.node.Slice? && c.parent.keyToChild.IndexKey?
  }

  class Patcher {
    const store: Store
    const sprint: (Heap, Value) -> string
    const regex: (string, string) -> bool
    ghost const sel: Selector

    constructor (store: Store, sprint: (Heap, Value) -> string, regex: (string, string) -> bool, ghost sel: Selector)
      requires store.Valid() && sel.regex == regex && Prints(sprint, sel)
      ensures this.store == store && this.sprint == sprint && this.regex == regex && this.sel == sel && Valid()
    {
      this.store, this.sprint, this.regex, this.sel := store, sprint, regex, sel;
    }

    ghost predicate Valid()
      reads store
    {
      store.Valid() && sel.regex == regex && Prints(sprint, sel)
    }

    /** Nothing of the document heap `base` has changed: only cells were added. */
    ghost predicate Extends(base: Heap)
      reads store
    {
      Valid() && base.Keys <= store.heap.Keys && Agree(base, store.heap, base.Keys)
    }

    /** What was found is what `found` says. */
    ghost predicate Answers(found: Located, r: Lookup, cell: Ref, base: Heap)
      reads store
      reads if r.Node? then {r.context.parent} else {}
      reads if r.Node? && r.context.parent != null then {r.context.parent.parent} else {}
    {
      match found
      case Lost(e) => r == LookupError(e)
      case Unwritable => r.Node? && InSlice(r.context)
      case Located(target) =>
        && r.Node? && Points(r.context, target, cell)
        && Backs(store.heap, target, cell) && CellFor(target, cell, base.Keys)
    }

    /**
     `nc` is at the node `v` of shape `s`, which `owner` holds. A list under a map key is passed on by pointer, so
     that it can be replaced.
     */
    ghost predicate IsAt(nc: PathContext, owner: Owner, v: Value, s: Shape, base: Heap)
      reads store, nc, nc.parent
    {
      && Holds(base, v, s) && Separate(s) && BoxesInMaps(s)
      && if s.SList? && owner.UnderKey? then
           && nc.node.Pointer? && nc.node.cell in store.heap
           && store.heap[nc.node.cell] == CellObject(Slice(s.backing, |s.elements|))
           && (if s.cells == {} then nc.node.cell !in base else s.cells == {nc.node.cell})
           && nc.parent != null && nc.parent != nc
           && nc.parent.node == MapRef(owner.ref) && nc.parent.keyToChild == NameKey(owner.key)
         else nc.node == v && !IsBoxed(s)
    }

    /** `getNode`. */
    method GetNode(nc: PathContext, remain: Path, ghost owner: Owner, ghost v: Value, ghost s: Shape, ghost base: Heap)
      returns (r: Lookup, ghost cell: Ref)
      requires IsAt(nc, owner, v, s, base) && Extends(base)
      modifies store, nc
      ensures Extends(base)
      ensures remain == [] ==> r == Node(nc) && cell !in base && nc.keyToChild == old(nc.keyToChild)
      ensures remain != [] ==> Answers(Locate(sel, owner, s, remain), r, cell, base)
      decreases |remain|, 1
    {
      cell := store.next;
      if |remain| == 0 {
        return Node(nc), cell;
      }
      if nc.node.Nil? {
        return LookupError(NilNode), cell;
      }
      NodeKinds(base, v, s);
      if nc.node.Slice? || nc.node.Pointer? {
        r, cell := GetInList(nc, remain, owner, v, s, base);
        return;
      }
      if !nc.node.MapRef? {
        return LookupError(LeafInPath), cell;
      }
      var pe := Str(remain[0]);
      var entries := store.heap[nc.node.ref].entries;
      var nn := if pe in entries then entries[pe] else Nil;
      ghost var child := Entry(s, remain[0]);
      ChildParts(base, s, remain[0]);
      var node := nn;
      if nn.Slice? {
        // Slices must be passed by pointer to be replaced.
        var c := store.New(CellObject(nn));
        node := Pointer(c);
      }
      var nnc := new PathContext(nc, node);
      nc.keyToChild := NameKey(pe);
      r, cell := GetNode(nnc, remain[1..], UnderKey(s.ref, pe), nn, child, base);
    }

    /** `getNode` at a list: the first matching element decides. */
    method GetInList(nc: PathContext, remain: Path, ghost owner: Owner, ghost v: Value, ghost s: Shape,
                     ghost base: Heap)
      returns (r: Lookup, ghost cell: Ref)
      requires remain != [] && s.SList? && IsAt(nc, owner, v, s, base) && Extends(base)
      modifies store, nc
      ensures Extends(base) && Answers(Locate(sel, owner, s, remain), r, cell, base)
      decreases |remain|, 0
    {
      hide Holds, Separate, Foot, Erase, BoxesInMaps, Matches;
      cell := if nc.node.Pointer? then nc.node.cell else store.next;
      NodeKinds(base, v, s);
      ListParts(base, s, v);
      var header := if nc.node.Pointer? then store.heap[nc.node.cell].content else nc.node;
      var lst := store.heap[header.backing].slots[..header.len];
      var pe := remain[0];
      for idx := 0 to |lst|
        invariant Extends(base) && store.heap == old(store.heap) && IsAt(nc, owner, v, s, base)
        invariant FindEntry(sel, Trees(s.elements), pe, idx) == FindEntry(sel, Trees(s.elements), pe)
      {
        var le := lst[idx];
        ElementIsNode(base, store.heap, s, v, idx);
        ElementMatches(store.heap, le, s.elements[idx], pe, sprint, sel);
        var matched := false;
        if le.MapRef? {
          var kv := PathKV(pe);
          if kv.None? {
            return LookupError(BadPathElement), cell;
          }
          var (key, text) := kv.value;
          var entries := store.heap[le.ref].entries;
          matched := StringsEqual(if Str(key) in entries then entries[Str(key)] else Nil, text);
        } else {
          var pattern := PathV(pe);
          if pattern.None? {
            return LookupError(BadPathElement), cell;
          }
          matched := MatchesRegex(pattern.value, le);
        }
        if matched {
          var nn := new PathContext(nc, le);
          nc.keyToChild := IndexKey(idx);
          if |remain| > 1 {
            r, cell := GetNode(nn, remain[1..], InsideList, le, s.elements[idx], base);
          } else {
            r := Node(nn);
          }
          return;
        }
      }
      return LookupError(NotFound), cell;
    }

    /** `stringsEqual`. */
    function StringsEqual(v: Value, text: string): bool
      reads store
    {
      Text(sprint, store.heap, v) == text
    }

    /** `matchesRegex`. */
    function MatchesRegex(pattern: string, v: Value): bool
      reads store
    {
      regex(pattern, Text(sprint, store.heap, v))
    }

    // ---- The in-place primitives of reflect.go

    /** `DeleteFromSlicePtr`: shifts the backing array in place and stores the shorter header in the cell. */
    method DeleteFromSlicePtr(parent: Value, index: nat, ghost backing: Ref, ghost len: nat)
      returns (e: Option<PatchError>)
      requires parent.Pointer? ==>
                 Backed(store.heap, parent.cell, backing, len) && index < len && parent.cell != backing
      requires store.Valid()
      modifies store
      ensures store.Valid() && e == if parent.Pointer? then None else Some(NotAPointer)
      ensures store.heap
              == if !parent.Pointer? then old(store.heap)
                 else old(store.heap)[backing := ArrayObject(WithoutSlot(old(store.heap)[backing].slots, index, len))]
                        [parent.cell := CellObject(Slice(backing, len - 1))]
    {
      if !parent.Pointer? {
        return Some(NotAPointer);
      }
      var header := store.heap[parent.cell].content;
      var slots := store.heap[header.backing].slots;
      for j := index to header.len - 1
        invariant store.next == old(store.next) && |slots| == |old(store.heap)[backing].slots|
        invariant slots == WithoutSlotUpTo(old(store.heap)[backing].slots, index, j)
        invariant store.heap == old(store.heap)[backing := ArrayObject(slots)]
      {
        slots := slots[j := slots[j + 1]];
        store.heap := store.heap[header.backing := ArrayObject(slots)];
      }
      assert slots == WithoutSlot(old(store.heap)[backing].slots, index, len);
      store.heap := store.heap[parent.cell := CellObject(Slice(header.backing, header.len - 1))];
      return None;
    }

    method UpdateSlicePtr(parent: Value, index: nat, value: Value, ghost backing: Ref, ghost len: nat)
      returns (e: Option<PatchError>)
      requires parent.Pointer? ==> Backed(store.heap, parent.cell, backing, len) && index < len
      requires store.Valid()
      modifies store
      ensures store.Valid() && e == if parent.Pointer? then None else Some(NotAPointer)
      ensures store.heap
              == if !parent.Pointer? then old(store.heap)
                 else old(store.heap)[backing := ArrayObject(old(store.heap)[backing].slots[index := value])]
    {
      if !parent.Pointer? {
        return Some(NotAPointer);
      }
      var header := store.heap[parent.cell].content;
      store.heap := store.heap[header.backing := ArrayObject(store.heap[header.backing].slots[index := value])];
      return None;
    }

    method InsertIntoMap(parent: Value, key: Scalar, value: Value)
      requires parent.MapRef? && parent.ref in store.heap && store.heap[parent.ref].MapObject? && store.Valid()
      modifies store
      ensures store.Valid()
      ensures store.heap == old(store.heap)[parent.ref := MapObject(old(store.heap)[parent.ref].entries[key := value])]
    {
      store.heap := store.heap[parent.ref := MapObject(store.heap[parent.ref].entries[key := value])];
    }

    /** `writeNode`. The node to write is given by its parents. */
    method WriteNode(nc: PathContext, value: Value, ghost found: Located, ghost cell: Ref, ghost base: Heap)
      returns (e: Option<PatchError>)
      requires !found.Lost? && Answers(found, Node(nc), cell, base) && store.Valid()
      requires found.Located? ==> Writable(store.heap, found.target, cell)
      modifies store
      ensures store.Valid() && e == if found.Located? then None else Some(NotAPointer)
      ensures store.heap
              == if found.Located? then Write(old(store.heap), found.target, cell, value) else old(store.heap)
    {
      var parent := nc.parent;
      ghost var backing := if found.Located? && found.target.InList? then found.target.backing else 0;
      ghost var len := if found.Located? && found.target.InList? then found.target.len else 0;
      if value.Nil? {
        if parent.node.Pointer? || parent.node.Slice? {
          e := DeleteFromSlicePtr(parent.node, parent.keyToChild.index, backing, len);
          if e.Some? {
            return;
          }
          if parent.parent.node.MapRef? {
            InsertIntoMap(parent.parent.node, parent.parent.keyToChild.key, parent.node);
          }
        }
      } else if parent.node.Pointer? || parent.node.Slice? {
        e := UpdateSlicePtr(parent.node, parent.keyToChild.index, value, backing, len);
        return;
      } else if parent.node.MapRef? {
        InsertIntoMap(parent.node, parent.keyToChild.key, value);
      }
      e := None;
    }

    /** The patch value is what JSON decodes to, and shares nothing with the document. */
    ghost predicate Storable(h: Heap, value: Value, t: Shape, used: set<Ref>) {
      Holds(h, value, t) && Separate(t) && IsJson(Erase(t)) && Foot(t) !! used
    }

    ghost predicate IsDocument(h: Heap, root: Ref, s: Shape) {
      s.SMap? && Holds(h, MapRef(root), s) && Separate(s) && BoxesInMaps(s)
    }

    /**
     One patch of the document at `root`: it becomes the patched document, or there is an error and it stays. A list
     that is shortened is held through `cell` from then on.
     */
    method ApplyPatch(root: Ref, path: Path, value: Value, ghost s: Shape, ghost t: Shape)
      returns (e: Option<PatchError>, ghost s': Shape, ghost cell: Ref)
      requires Valid() && IsDocument(store.heap, root, s) && Storable(store.heap, value, t, Foot(s))
      modifies store
      ensures Valid() && IsDocument(store.heap, root, s')
      ensures Foot(s') <= Foot(s) + Foot(t) + (store.heap.Keys - old(store.heap).Keys)
      ensures old(store.heap).Keys <= store.heap.Keys
      ensures Agree(old(store.heap), store.heap, old(store.heap).Keys - Foot(s))
      ensures PatchOnce(sel, Erase(s), path, Erase(t), cell)
              == match e case None => Patched(Erase(s')) case Some(err) => Unpatched(err)
      ensures e.Some? ==> s' == s
    {
      hide Holds, Separate, Foot, Erase, BoxesInMaps, SetAt, Locate, Put;
      s' := s;
      ghost var base := store.heap;
      DocumentFrame(base, base, root, s);
      NilHolds(base, value, t);
      FootExists(base, MapRef(root), s);
      FootExists(base, value, t);
      var nc := new PathContext(null, MapRef(root));
      if |path| == 0 {
        // With no parent, a nil value is ignored and any other dereferences nil.
        return if value.Nil? then None else Some(NilNode), s, 0;
      }
      var found;
      found, cell := GetNode(nc, path, InsideList, MapRef(root), s, base);
      PatchOfRoot(sel, s, path, Erase(t), cell);
      DocumentFrame(base, store.heap, root, s);
      if found.LookupError? {
        return Some(found.error), s, cell;
      }
      ghost var located := Locate(sel, InsideList, s, path);
      if located.Located? {
        HoldsFrame(base, store.heap, value, t);
        PatchOfDocument(sel, store.heap, base, root, s, path, value, t, cell);
        s' := Put(sel, InsideList, s, path, t, cell);
      }
      e := WriteNode(found.context, value, located, cell, base);
      FootExists(store.heap, MapRef(root), s');
    }

    lemma DocumentFrame(h: Heap, h': Heap, root: Ref, s: Shape)
      requires IsDocument(h, root, s) && Agree(h, h', h.Keys)
      ensures IsDocument(h', root, s) && s.ref == root
    {
      HoldsFrame(h, h', MapRef(root), s);
    }

    /** For the root, which is a map, it does not matter what holds it. */
    lemma PatchOfRoot(sel: Selector, s: Shape, path: Path, value: Tree, cell: Ref)
      requires s.SMap? && BoxesInMaps(s) && path != []
      ensures match Locate(sel, InsideList, s, path)
              case Lost(e) => PatchOnce(sel, Erase(s), path, value, cell) == Unpatched(e)
              case Unwritable => PatchOnce(sel, Erase(s), path, value, cell) == Unpatched(NotAPointer)
              case Located(_) => PatchOnce(sel, Erase(s), path, value, cell).Patched?
    {
      LocateFailsAlike(sel, InsideList, s, path, value, cell);
    }

    lemma PatchOfDocument(sel: Selector, h: Heap, base: Heap, root: Ref, s: Shape, path: Path, v: Value, t: Shape,
                          cell: Ref)
      requires IsDocument(h, root, s) && Storable(h, v, t, Foot(s)) && path != [] && Foot(s) + Foot(t) <= base.Keys
      requires Locate(sel, InsideList, s, path).Located?
      requires CellFor(Locate(sel, InsideList, s, path).target, cell, base.Keys)
      ensures var target, s' := Locate(sel, InsideList, s, path).target, Put(sel, InsideList, s, path, t, cell);
              && Writable(h, target, cell)
              && var h' := Write(h, target, cell, v);
              && IsDocument(h', root, s') && Foot(s') <= Foot(s) + Foot(t) + {cell} && cell !in base.Keys - Foot(s)
              && PatchOnce(sel, Erase(s), path, Erase(t), cell) == Patched(Erase(s'))
              && Agree(h, h', base.Keys - Foot(s)) && h.Keys <= h'.Keys
    {
      hide Separate, Foot, Holds, BoxesInMaps, Locate, Put;
      var target := Locate(sel, InsideList, s, path).target;
      MapNode(h, MapRef(root), s);
      JsonHasNoBoxes(t);
      PutKeepsBoxesInMaps(sel, InsideList, s, path, t, cell);
      CellForLess(target, cell, base.Keys, Foot(s) + Foot(t) + Outside(InsideList));
      WritePatches(sel, h, InsideList, s, MapRef(root), path, v, t, cell);
      ChangedInside(target, cell, Foot(s), base.Keys, base.Keys - Foot(s));
      WriteFrame(h, target, cell, v, base.Keys - Foot(s));
    }

    /** `applyPatches` between reading and writing the YAML: patches are applied one after the other. */
    method ApplyPatches(root: Ref, patches: seq<Item>, ghost s: Shape, ghost ts: seq<Shape>)
      returns (errs: seq<PatchError>, panicked: bool, ghost s': Shape, ghost cells: seq<Ref>)
      requires Valid() && IsDocument(store.heap, root, s) && |ts| == |patches|
      requires forall i | 0 <= i < |ts| :: Storable(store.heap, patches[i].value, ts[i], Foot(s))
      requires AllJson(ts) && forall i, j | 0 <= i < j < |ts| :: Foot(ts[i]) !! Foot(ts[j])
      modifies store
      ensures Valid() && IsDocument(store.heap, root, s') && |cells| == |patches|
      ensures RunPatches(sel, Erase(s), PatchList(patches, ts, cells)) == Run(Erase(s'), errs, panicked)
      ensures Agree(old(store.heap), store.heap, old(store.heap).Keys - Foot(s) - Feet(ts))
      ensures Foot(s') <= Foot(s) + Feet(ts) + (store.heap.Keys - old(store.heap).Keys)
    {
      hide Holds, Separate, Foot, Erase, BoxesInMaps, IsJson, PatchOnce, RunPatches, Feet;
      errs, panicked, s', cells := [], false, s, [];
      assert AllJson(ts) && forall i | 0 <= i <= |ts| :: AllJson(ts[..i]);
      NoPatches(sel, Erase(s));
      for i := 0 to |patches|
        invariant Valid() && IsDocument(store.heap, root, s') && |cells| == i
        invariant forall j | i <= j < |ts| :: Storable(store.heap, patches[j].value, ts[j], Foot(s'))
        invariant RunPatches(sel, Erase(s), PatchList(patches[..i], ts[..i], cells)) == Run(Erase(s'), errs, false)
        invariant old(store.heap).Keys <= store.heap.Keys
        invariant Agree(old(store.heap), store.heap, old(store.heap).Keys - Foot(s) - Feet(ts))
        invariant Foot(s') <= Foot(s) + Feet(ts) + (store.heap.Keys - old(store.heap).Keys)
      {
        ghost var before, h := s', store.heap;
        var e;
        ghost var cell;
        e, s', cell := ApplyPatch(root, patches[i].path, patches[i].value, before, ts[i]);
        forall j | i < j < |ts|
          ensures Storable(store.heap, patches[j].value, ts[j], Foot(s'))
        {
          StaysStorable(h, store.heap, patches[j].value, ts[j], Foot(before), Foot(ts[i]), Foot(s'));
        }
        OneMore(sel, Erase(s), patches, ts, cells, cell, i);
        cells := cells + [cell];
        FeetHave(ts, i);
        if e.Some? {
          if e.value == NilNode {
            panicked := true;
            cells := cells + seq(|patches| - i - 1, _ => 0);
            assert cells[..i + 1] == cells[..i] + [cell];
            RestIgnored(sel, Erase(s), patches, ts, cells, i + 1);
            return;
          }
          errs := errs + [e.value];
        }
      }
      assert patches[..|patches|] == patches && ts[..|ts|] == ts;
    }

    lemma StaysStorable(h: Heap, h': Heap, value: Value, t: Shape, used: set<Ref>, stored: set<Ref>, used': set<Ref>)
      requires Storable(h, value, t, used) && stored !! Foot(t) && h.Keys <= h'.Keys && Agree(h, h', h.Keys - used)
      requires used' <= used + stored + (h'.Keys - h.Keys)
      ensures Storable(h', value, t, used')
    {
      FootExists(h, value, t);
      HoldsFrame(h, h', value, t);
    }
  }

  /** The objects of all values. */
  ghost function Feet(ts: seq<Shape>): set<Ref> {
    set i, x | 0 <= i < |ts| && x in Foot(ts[i]) :: x
  }

  lemma FeetHave(ts: seq<Shape>, i: nat)
    requires i < |ts|
    ensures Foot(ts[i]) <= Feet(ts)
  {
  }

  ghost predicate AllJson(ts: seq<Shape>) {
    forall i | 0 <= i < |ts| :: IsJson(Erase(ts[i]))
  }

  datatype Item = Item(path: Path, value: Value)

  /** The patches, with the values that `ts` says they hold and the variables that lists come to be held through. */
  ghost function PatchList(patches: seq<Item>, ts: seq<Shape>, cells: seq<Ref>): (ps: seq<Patch>)
    requires |ts| == |patches| == |cells| && AllJson(ts)
    ensures |ps| == |patches|
    ensures forall i | 0 <= i < |ps| :: ps[i] == Patch(patches[i].path, Erase(ts[i]), cells[i])
  {
    seq(|patches|, i requires 0 <= i < |patches| => Patch(patches[i].path, Erase(ts[i]), cells[i]))
  }

  /** The run of one more patch. */
  lemma OneMore(sel: Selector, t: Tree, patches: seq<Item>, ts: seq<Shape>, cells: seq<Ref>, cell: Ref, i: nat)
    requires |ts| == |patches| && i < |patches| && |cells| == i && AllJson(ts[..i]) && AllJson(ts[..i + 1])
    ensures var run := RunPatches(sel, t, PatchList(patches[..i], ts[..i], cells));
            RunPatches(sel, t, PatchList(patches[..i + 1], ts[..i + 1], cells + [cell]))
            == if run.panicked then run
               else After(run, PatchOnce(sel, run.tree, patches[i].path, Erase(ts[i]), cell))
  {
    hide RunPatches, Erase, IsJson, PatchOnce;
    var all := PatchList(patches[..i + 1], ts[..i + 1], cells + [cell]);
    assert all[..i] == PatchList(patches[..i], ts[..i], cells);
    RunOneMore(sel, t, all[..i], all[i]);
    assert all == all[..i] + [all[i]];
  }

  /** Nothing is run after a panic. */
  lemma RestIgnored(sel: Selector, t: Tree, patches: seq<Item>, ts: seq<Shape>, cells: seq<Ref>, i: nat)
    requires |ts| == |patches| == |cells| && i <= |patches| && AllJson(ts[..i]) && AllJson(ts)
    requires RunPatches(sel, t, PatchList(patches[..i], ts[..i], cells[..i])).panicked
    ensures RunPatches(sel, t, PatchList(patches, ts, cells))
            == RunPatches(sel, t, PatchList(patches[..i], ts[..i], cells[..i]))
  {
    hide RunPatches, Erase, IsJson;
    var all := PatchList(patches, ts, cells);
    assert all[..i] == PatchList(patches[..i], ts[..i], cells[..i]);
    assert all == all[..i] + all[i..];
    NoneAfterPanic(sel, t, all[..i], all[i..]);
  }

  ghost predicate Backed(h: Heap, cell: Ref, backing: Ref, len: nat) {
    && cell in h && h[cell] == CellObject(Slice(backing, len))
    && backing in h && h[backing].ArrayObject? && len <= |h[backing].slots|
  }

  ghost function WithoutSlotUpTo(slots: seq<Value>, i: nat, j: nat): seq<Value>
    requires i <= j < |slots|
  {
    slots[..i] + slots[i + 1..j + 1] + slots[j..]
  }

  /** The kind of a value can be told from its shape. */
  lemma NodeKinds(h: Heap, v: Value, s: Shape)
    requires Holds(h, v, s)
    ensures v.Slice? || v.Pointer? <==> s.SList?
    ensures v.Pointer? <==> IsBoxed(s)
    ensures v.Slice? ==> v == Slice(s.backing, |s.elements|)
    ensures v.MapRef? <==> s.SMap?
    ensures v.Nil? <==> s.SNull?
    ensures s.SMap? ==> v == MapRef(s.ref) && s.ref in h && h[s.ref].MapObject?
  {
  }

  /** The entry of a map, which is nil if the key is missing. */
  lemma ChildParts(h: Heap, s: Shape, key: string)
    requires s.SMap? && Holds(h, MapRef(s.ref), s) && Separate(s) && BoxesInMaps(s)
    ensures s.ref in h && h[s.ref].MapObject?
    ensures var entries, child := h[s.ref].entries, Entry(s, key);
            var nn := if Str(key) in entries then entries[Str(key)] else Nil;
            && Holds(h, nn, child) && Separate(child) && BoxesInMaps(child)
            && (nn.Slice? <==> child.SList? && child.cells == {})
            && (nn.Pointer? <==> child.SList? && child.cells != {})
            && (nn.Slice? ==> nn == Slice(child.backing, |child.elements|))
            && (nn.Pointer? ==> nn.cell in h && h[nn.cell] == CellObject(Slice(child.backing, |child.elements|)))
            && (nn.Pointer? ==> child.cells == {nn.cell})
  {
  }

  lemma ElementIsNode(base: Heap, h: Heap, s: Shape, v: Value, i: nat)
    requires s.SList? && i < |s.elements| && Holds(base, v, s) && Separate(s) && BoxesInMaps(s)
            && Agree(base, h, base.Keys)
    ensures s.backing in base && base[s.backing].ArrayObject? && i < |base[s.backing].slots|
    ensures var e := s.elements[i];
            && Holds(base, base[s.backing].slots[i], e) && Holds(h, base[s.backing].slots[i], e) && Separate(e)
            && BoxesInMaps(e) && !IsBoxed(e)
  {
    ElementParts(base, s, v, i);
    HoldsFrame(base, h, base[s.backing].slots[i], s.elements[i]);
  }

  /** The tests that `getNode` makes of a list element are those of `Matches`. */
  lemma ElementMatches(h: Heap, le: Value, s: Shape, pe: string, sprint: (Heap, Value) -> string, sel: Selector)
    requires Holds(h, le, s) && Prints(sprint, sel)
    ensures le.MapRef? ==> s.SMap? && le.ref in h && h[le.ref].MapObject?
    ensures Matches(sel, Erase(s), pe)
            == if le.MapRef? then
                 match PathKV(pe)
                 case None => Malformed
                 case Some((k, v)) =>
                   var entries := h[le.ref].entries;
                   if Text(sprint, h, if Str(k) in entries then entries[Str(k)] else Nil) == v then Yes else No
               else
                 match PathV(pe)
                 case None => Malformed
                 case Some(pattern) => if sel.regex(pattern, Text(sprint, h, le)) then Yes else No
  {
    if s.SMap? && PathKV(pe).Some? {
      var (k, v) := PathKV(pe).value;
      EraseEntry(s, k);
      var entries := h[le.ref].entries;
      assert Holds(h, if Str(k) in entries then entries[Str(k)] else Nil, Entry(s, k));
    }
  }
}
