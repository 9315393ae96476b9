/** `setTreeInternal` on the shared heap, proved against the pure function. */
module SetTreeCode {
  import opened Options
  import opened Paths
  import opened Addresses
  import opened GoHeap
  import opened SetTreeSpec

  /** Every list is held directly, not through a pointer, and every map can be written. */
  ghost predicate NoCells(s: Shape)
    decreases s
  {
    match s
    case SNull => true
    case SLeaf(_) => true
    case SJsonMap(_) => false
    case SMap(_, entries) => forall k | k in entries :: NoCells(entries[k])
    case SList(cells, _, es) => cells == {} && forall i | 0 <= i < |es| :: NoCells(es[i])
  }

  /** A set from any node on that is not null. */
  function SetNode(t: Tree, path: Path, value: Tree, pick: Scalar): Outcome
    requires PicksRoot(value, pick)
  {
    if path == [] then Outcome(t, Some(EmptyPath))
    else
      match t
      case List(es) => SetInList(es, path, value, pick)
      case Map(_) => SetTree(t, path, value, pick)
      case _ => if |path| == 1 then Outcome(value, None) else Outcome(t, Some(ScalarInPath))
  }

  function Existing(child: Tree): Tree {
    if child.Null? then EMPTY_MAP else child
  }

  lemma SetTreeStep(t: Tree, path: Path, value: Tree, pick: Scalar)
    requires t.Map? && |path| > 1 && PicksRoot(value, pick)
    ensures var inner := SetNode(Existing(Get(t, path[0])), path[1..], value, pick);
            SetTree(t, path, value, pick) == Outcome(Put(t, path[0], inner.tree), inner.error)
  {
    var found := Get(t, path[0]);
    if found.Leaf? {
      assert Put(t, path[0], found).entries == t.entries;
    }
  }

  lemma SetTreeHere(t: Tree, path: Path, value: Tree, pick: Scalar)
    requires t.Map? && |path| == 1 && PicksRoot(value, pick)
    ensures SetTree(t, path, value, pick) == Outcome(Put(t, path[0], value), None)
  {
  }

  /** `s` is a document in `h`. */
  ghost predicate Document(h: Heap, v: Value, s: Shape) {
    Holds(h, v, s) && Separate(s) && NoCells(s)
  }

  /** From `h` to `h'`, the document `s` was turned into `s'`, in which `t` may have been stored. */
  ghost predicate Became(h: Heap, h': Heap, s: Shape, t: Shape, v': Value, s': Shape) {
    && Document(h', v', s')
    && h.Keys <= h'.Keys
    && Foot(s') <= Foot(s) + Foot(t) + (h'.Keys - h.Keys)
  }

  // ---- Below a map

  /** The entry under `key` of the map was changed or replaced, and nothing else of the map. */
  ghost predicate EntryBecame(h: Heap, h': Heap, s: Shape, key: string, t: Shape, v': Value, child': Shape) {
    && s.SMap? && Document(h, MapRef(s.ref), s) && Foot(s) !! Foot(t)
    && Became(h, h', Entry(s, key), t, v', child')
    && Agree(h, h', Foot(s) - Foot(Entry(s, key)) - {s.ref})
    && s.ref in h' && h'[s.ref] == MapObject(h[s.ref].entries[Str(key) := v'])
  }

  lemma BelowMap(h: Heap, h': Heap, s: Shape, key: string, t: Shape, v': Value, child': Shape)
    requires EntryBecame(h, h', s, key, t, v', child')
    ensures Became(h, h', s, t, MapRef(s.ref), WithEntry(s, Str(key), child'))
    ensures Erase(s).Map? && Erase(WithEntry(s, Str(key), child')) == Put(Erase(s), key, Erase(child'))
  {
    hide Holds, Separate, Foot, NoCells;
    MapParts(h, s, key);
    FootExists(h, MapRef(s.ref), s);
    forall j | j in s.entries && j != Str(key)
      ensures Agree(h, h', Foot(s.entries[j])) && Foot(s.entries[j]) !! Foot(child')
    {
    }
    EntryReplaced(h, h', s, Str(key), v', child');
    EntryNoCells(s, Str(key), child');
  }

  lemma EntryNoCells(s: Shape, key: Scalar, t: Shape)
    requires s.SMap? && NoCells(s) && NoCells(t)
    ensures NoCells(WithEntry(s, key, t))
  {
  }

  lemma MapParts(h: Heap, s: Shape, key: string)
    requires s.SMap? && Document(h, MapRef(s.ref), s)
    ensures s.ref in h && h[s.ref].MapObject? && h[s.ref].entries.Keys == s.entries.Keys
    ensures Str(key) in s.entries ==> Document(h, h[s.ref].entries[Str(key)], Entry(s, key))
    ensures Foot(Entry(s, key)) <= Foot(s) && s.ref in Foot(s) && s.ref !in Foot(Entry(s, key))
    ensures Erase(s).Map? && Get(Erase(s), key) == Erase(Entry(s, key))
    ensures forall j | j in s.entries && j != Str(key) ::
              Foot(s.entries[j]) <= Foot(s) && s.ref !in Foot(s.entries[j]) && Foot(s.entries[j]) !! Foot(Entry(s, key))
  {
  }

  // ---- Below a list

  lemma ListDocument(h: Heap, v: Value, s: Shape)
    requires s.SList? && Document(h, v, s)
    ensures v == Slice(s.backing, |s.elements|) && s.backing in h && h[s.backing].ArrayObject?
    ensures |s.elements| <= |h[s.backing].slots| && s.backing in Foot(s)
    ensures forall i | 0 <= i < |s.elements| :: Document(h, h[s.backing].slots[i], s.elements[i])
    ensures Erase(s) == List(Trees(s.elements))
  {
  }

  lemma BelowList(h: Heap, h': Heap, v: Value, s: Shape, i: nat, t: Shape, e': Shape)
    requires s.SList? && i < |s.elements| && Document(h, v, s) && Foot(s) !! Foot(t)
    requires s.backing in h && h[s.backing].ArrayObject? && i < |h[s.backing].slots|
    requires Became(h, h', s.elements[i], t, h[s.backing].slots[i], e')
    requires Agree(h, h', Foot(s) - Foot(s.elements[i]))
    ensures Became(h, h', s, t, v, WithElement(s, i, e'))
    ensures Erase(WithElement(s, i, e')) == List(Trees(s.elements)[i := Erase(e')])
  {
    hide Holds, Separate, Foot, NoCells;
    ListDocument(h, v, s);
    ElementParts(h, s, v, i);
    FootExists(h, v, s);
    ListParts(h, s, v);
    var slots := h[s.backing].slots;
    assert slots[i := slots[i]] == slots;
    ElementReplaced(h, h', v, s, i, slots[i], e');
    ElementNoCells(s, i, e');
  }

  lemma ElementNoCells(s: Shape, i: nat, t: Shape)
    requires s.SList? && i < |s.elements| && NoCells(s) && NoCells(t)
    ensures NoCells(WithElement(s, i, t))
  {
  }

  ghost function Longer(s: Shape, backing: Ref, e: Shape): Shape
    requires s.SList?
  {
    SList({}, backing, s.elements + [e])
  }

  /** An element was added behind the list, in spare capacity or in a copy of the backing array. */
  ghost predicate Appended(h: Heap, h': Heap, v: Value, s: Shape, backing: Ref, t: Shape, e: Value, e': Shape) {
    && s.SList? && Document(h, v, s) && Foot(s) !! Foot(t)
    && s.backing in h && h[s.backing].ArrayObject? && |s.elements| <= |h[s.backing].slots|
    && h.Keys <= h'.Keys && Agree(h, h', Foot(s) - {s.backing})
    && (backing == s.backing || backing !in h)
    && backing in h' && h'[backing].ArrayObject? && |s.elements| < |h'[backing].slots|
    && h'[backing].slots[..|s.elements|] == h[s.backing].slots[..|s.elements|]
    && h'[backing].slots[|s.elements|] == e
    && Document(h', e, e') && Foot(e') <= Foot(t) + (h'.Keys - h.Keys) - {backing}
  }

  lemma BehindList(h: Heap, h': Heap, v: Value, s: Shape, backing: Ref, t: Shape, e: Value, e': Shape)
    requires Appended(h, h', v, s, backing, t, e, e')
    ensures Became(h, h', s, t, Slice(backing, |s.elements| + 1), Longer(s, backing, e'))
    ensures Erase(Longer(s, backing, e')) == List(Trees(s.elements) + [Erase(e')])
  {
    LongerHolds(h, h', v, s, backing, t, e, e');
    LongerSeparate(h, h', v, s, backing, t, e, e');
    EraseList(Longer(s, backing, e'));
    assert Trees(s.elements + [e']) == Trees(s.elements) + [Erase(e')];
  }

  lemma LongerHolds(h: Heap, h': Heap, v: Value, s: Shape, backing: Ref, t: Shape, e: Value, e': Shape)
    requires Appended(h, h', v, s, backing, t, e, e')
    ensures Holds(h', Slice(backing, |s.elements| + 1), Longer(s, backing, e')) && NoCells(Longer(s, backing, e'))
  {
    var es := s.elements + [e'];
    ListDocument(h, v, s);
    forall i | 0 <= i < |es|
      ensures Holds(h', h'[backing].slots[i], es[i])
    {
      if i < |s.elements| {
        ElementParts(h, s, v, i);
        assert h'[backing].slots[..|s.elements|][i] == h[s.backing].slots[..|s.elements|][i];
        HoldsFrame(h, h', h[s.backing].slots[i], s.elements[i]);
      }
    }
  }

  lemma LongerSeparate(h: Heap, h': Heap, v: Value, s: Shape, backing: Ref, t: Shape, e: Value, e': Shape)
    requires Appended(h, h', v, s, backing, t, e, e')
    ensures Separate(Longer(s, backing, e'))
    ensures Foot(Longer(s, backing, e')) <= Foot(s) + Foot(t) + (h'.Keys - h.Keys)
  {
    hide Holds, Separate, Foot, NoCells;
    FootExists(h, v, s);
    ListParts(h, s, v);
    var es, refs := s.elements + [e'], Foot(s) + Foot(t) + (h'.Keys - h.Keys);
    forall i | 0 <= i < |s.elements|
      ensures Separate(s.elements[i]) && Foot(s.elements[i]) <= Foot(s) && backing !in Foot(s.elements[i])
      ensures Foot(s.elements[i]) !! Foot(e')
      ensures forall j | 0 <= j < |s.elements| && j != i :: Foot(s.elements[j]) !! Foot(s.elements[i])
    {
      ElementParts(h, s, v, i);
    }
    ExtendedSeparate(s.elements, e', backing);
    ListFoot({}, backing, es, refs);
  }

  lemma ExtendedSeparate(es: seq<Shape>, e: Shape, backing: Ref)
    requires forall i | 0 <= i < |es| ::
               Separate(es[i]) && backing !in Foot(es[i]) && Foot(es[i]) !! Foot(e)
               && forall j | 0 <= j < |es| && j != i :: Foot(es[j]) !! Foot(es[i])
    requires Separate(e) && backing !in Foot(e)
    ensures Separate(SList({}, backing, es + [e]))
  {
    hide Foot;
  }

  // ---- The code

  /** The map at `parent` holds `root` under `key` and is no part of the documents. */
  ghost predicate HeldBy(h: Heap, parent: Ref, key: string, root: Value, s: Shape, t: Shape) {
    && parent in h && h[parent].MapObject? && Str(key) in h[parent].entries && h[parent].entries[Str(key)] == root
    && parent !in Foot(s) && parent !in Foot(t)
  }

  /** The document at `root` became `s'`. A root that is not a map may be replaced under its key in its parent. */
  ghost predicate SetAt(h: Heap, h': Heap, root: Value, parentMap: Option<Ref>, key: string, s: Shape, t: Shape,
                        s': Shape)
  {
    if root.MapRef? then Became(h, h', s, t, root, s') && Agree(h, h', h.Keys - Foot(s))
    else parentMap.Some? && SetUnder(h, h', parentMap.value, key, s, t, s')
  }

  ghost predicate SetUnder(h: Heap, h': Heap, parent: Ref, key: string, s: Shape, t: Shape, s': Shape) {
    && parent in h && h[parent].MapObject?
    && parent in h' && h'[parent].MapObject? && Str(key) in h'[parent].entries
    && var v' := h'[parent].entries[Str(key)];
    && Became(h, h', s, t, v', s') && Agree(h, h', h.Keys - Foot(s) - {parent})
    && h'[parent] == MapObject(h[parent].entries[Str(key) := v'])
  }

  ghost predicate Settable(h: Heap, root: Value, s: Shape, value: Value, t: Shape, pick: Scalar) {
    && Document(h, root, s) && Document(h, value, t) && Foot(s) !! Foot(t) && PicksRoot(Erase(t), pick)
  }

  /** `setTree`: an error comes with whatever change was made before it. */
  method SetTreeInMap(store: Store, root: Value, path: Path, value: Value, pick: Scalar, ghost s: Shape, ghost t: Shape)
    returns (err: Option<SetError>, ghost s': Shape)
    requires store.Valid() && Settable(store.heap, root, s, value, t, pick) && s.SMap?
    modifies store
    ensures store.Valid() && Became(old(store.heap), store.heap, s, t, root, s') && s'.SMap?
    ensures Agree(old(store.heap), store.heap, old(store.heap).Keys - Foot(s))
    ensures Erase(s).Map? && SetTree(Erase(s), path, Erase(t), pick) == Outcome(Erase(s'), err)
  {
    err, s' := SetTreeInternal(store, root, path, value, None, "", pick, s, t);
  }

  method SetTreeInternal(store: Store, root: Value, path: Path, value: Value, parentMap: Option<Ref>,
                         keyToChild: string, pick: Scalar, ghost s: Shape, ghost t: Shape)
    returns (err: Option<SetError>, ghost s': Shape)
    requires store.Valid() && Settable(store.heap, root, s, value, t, pick) && !s.SNull?
    requires !root.MapRef? ==> parentMap.Some? && HeldBy(store.heap, parentMap.value, keyToChild, root, s, t)
    modifies store
    ensures store.Valid() && SetAt(old(store.heap), store.heap, root, parentMap, keyToChild, s, t, s')
    ensures SetNode(Erase(s), path, Erase(t), pick) == Outcome(Erase(s'), err)
    decreases |path|, 2
  {
    hide Holds, Separate, Foot, NoCells, SetTree, SetInList;
    Kinds(store.heap, root, s);
    if |path| == 0 {
      Unchanged(store.heap, root, parentMap, keyToChild, s, t);
      return Some(EmptyPath), s;
    }
    if root.Slice? {
      err, s' := SetInSlice(store, root, path, value, parentMap.value, keyToChild, pick, s, t);
    } else if root.MapRef? {
      err, s' := SetInMap(store, root.ref, path, value, pick, s, t);
    } else {
      if |path| != 1 {
        // Scalar nodes must be leaves.
        Unchanged(store.heap, root, parentMap, keyToChild, s, t);
        return Some(ScalarInPath), s;
      }
      PutEntry(store, parentMap.value, Str(keyToChild), value);
      ScalarReplaced(old(store.heap), store.heap, parentMap.value, keyToChild, root, s, value, t);
      err, s' := None, t;
    }
  }

  /** What a node is can be told from its shape. */
  lemma Kinds(h: Heap, v: Value, s: Shape)
    requires Document(h, v, s)
    ensures v.MapRef? <==> s.SMap?
    ensures v.Slice? <==> s.SList?
    ensures v.Nil? <==> s.SNull?
    ensures s.SMap? ==> v.ref == s.ref && v.ref in h && h[v.ref].MapObject?
    ensures Erase(s).Map? <==> s.SMap?
    ensures Erase(s).List? <==> s.SList?
    ensures Erase(s).Null? <==> s.SNull?
  {
  }

  lemma Unchanged(h: Heap, root: Value, parentMap: Option<Ref>, key: string, s: Shape, t: Shape)
    requires Document(h, root, s)
    requires !root.MapRef? ==> parentMap.Some? && HeldBy(h, parentMap.value, key, root, s, t)
    ensures SetAt(h, h, root, parentMap, key, s, t, s)
  {
    if !root.MapRef? {
      var entries := h[parentMap.value].entries;
      assert entries[Str(key) := root] == entries;
    }
  }

  method PutEntry(store: Store, ref: Ref, key: Scalar, v: Value)
    requires store.Valid() && ref in store.heap && store.heap[ref].MapObject?
    modifies store
    ensures store.Valid()
    ensures store.heap == old(store.heap)[ref := MapObject(old(store.heap)[ref].entries[key := v])]
  {
    store.heap := store.heap[ref := MapObject(store.heap[ref].entries[key := v])];
  }

  lemma ScalarReplaced(h: Heap, h': Heap, parent: Ref, key: string, root: Value, s: Shape, value: Value, t: Shape)
    requires HeldBy(h, parent, key, root, s, t) && Document(h, value, t)
    requires h' == h[parent := MapObject(h[parent].entries[Str(key) := value])]
    ensures SetUnder(h, h', parent, key, s, t, t)
  {
    HoldsFrame(h, h', value, t);
  }

  // ---- At a map

  method SetInMap(store: Store, r: Ref, path: Path, value: Value, pick: Scalar, ghost s: Shape, ghost t: Shape)
    returns (err: Option<SetError>, ghost s': Shape)
    requires store.Valid() && Settable(store.heap, MapRef(r), s, value, t, pick) && s.SMap? && path != []
    modifies store
    ensures store.Valid() && Became(old(store.heap), store.heap, s, t, MapRef(r), s') && s'.SMap?
    ensures Agree(old(store.heap), store.heap, old(store.heap).Keys - Foot(s))
    ensures Erase(s).Map? && SetTree(Erase(s), path, Erase(t), pick) == Outcome(Erase(s'), err)
    decreases |path|, 1
  {
    hide Holds, Separate, Foot, NoCells, Erase, Became, SetTree, SetNode, SetInList;
    ghost var h := store.heap;
    var pe := path[0];
    Kinds(h, MapRef(r), s);
    MapParts(h, s, pe);
    if |path| == 1 {
      PutEntry(store, r, Str(pe), value);
      EntrySet(h, store.heap, s, Str(pe), value, t);
      s' := WithEntry(s, Str(pe), t);
      SetTreeHere(Erase(s), path, Erase(t), pick);
      return None, s';
    }
    var entries := store.heap[r].entries;
    ghost var c := Entry(s, pe);
    if Str(pe) !in entries || entries[Str(pe)].Nil? {
      var made := store.New(MapObject(map[]));
      PutEntry(store, r, Str(pe), MapRef(made));
      c := SMap(made, map[]);
      NewEntry(h, store.heap, s, pe, made, value, t);
    } else {
      OldEntry(h, s, pe, t);
    }
    ghost var h1 := store.heap;
    ghost var c';
    err, c' := SetTreeInternal(store, store.heap[r].entries[Str(pe)], path[1..], value, Some(r), pe, pick, c, t);
    s' := WithEntry(s, Str(pe), c');
    ChildSet(h, h1, store.heap, s, pe, h1[r].entries[Str(pe)], c, t, c');
    SetTreeStep(Erase(s), path, Erase(t), pick);
  }

  lemma OldEntry(h: Heap, s: Shape, key: string, t: Shape)
    requires s.SMap? && Document(h, MapRef(s.ref), s) && Foot(s) !! Foot(t) && s.ref in h && h[s.ref].MapObject?
    requires Str(key) in h[s.ref].entries && !h[s.ref].entries[Str(key)].Nil?
    ensures var child := h[s.ref].entries[Str(key)];
            && Document(h, child, Entry(s, key)) && Foot(Entry(s, key)) !! Foot(t)
            && HeldBy(h, s.ref, key, child, Entry(s, key), t)
            && !Entry(s, key).SNull? && Existing(Get(Erase(s), key)) == Erase(Entry(s, key))
            && h[s.ref] == MapObject(h[s.ref].entries[Str(key) := child])
  {
    hide Holds, Separate, Foot, NoCells;
    var entries := h[s.ref].entries;
    MapParts(h, s, key);
    Kinds(h, entries[Str(key)], Entry(s, key));
    assert entries[Str(key) := entries[Str(key)]] == entries;
  }

  lemma NewEntry(h: Heap, h1: Heap, s: Shape, key: string, made: Ref, value: Value, t: Shape)
    requires s.SMap? && Document(h, MapRef(s.ref), s) && Foot(s) !! Foot(t) && s.ref in h && h[s.ref].MapObject?
    requires Str(key) in h[s.ref].entries ==> h[s.ref].entries[Str(key)].Nil?
    requires Document(h, value, t) && made !in h
    requires h1 == h[made := MapObject(map[])][s.ref := MapObject(h[s.ref].entries[Str(key) := MapRef(made)])]
    ensures var c := SMap(made, map[]);
            && Document(h1, MapRef(made), c) && Document(h1, value, t) && Foot(c) == {made} && made !in Foot(t)
            && Erase(c) == EMPTY_MAP && Existing(Get(Erase(s), key)) == EMPTY_MAP
  {
    MapParts(h, s, key);
    FootExists(h, value, t);
    HoldsFrame(h, h1, value, t);
    if Str(key) in s.entries {
      Kinds(h, h[s.ref].entries[Str(key)], Entry(s, key));
    }
    assert Erase(SMap(made, map[])).entries == map[];
  }

  lemma EntrySet(h: Heap, h': Heap, s: Shape, key: Scalar, v: Value, t: Shape)
    requires s.SMap? && Document(h, MapRef(s.ref), s) && Document(h, v, t) && Foot(s) !! Foot(t) && s.ref in h
    requires h[s.ref].MapObject? && h' == h[s.ref := MapObject(h[s.ref].entries[key := v])]
    ensures Became(h, h', s, t, MapRef(s.ref), WithEntry(s, key, t)) && Agree(h, h', h.Keys - Foot(s))
    ensures Erase(s).Map? && Erase(WithEntry(s, key, t)) == Map(Erase(s).entries[key := Erase(t)])
  {
    hide NoCells;
    HoldsFrame(h, h', v, t);
    forall j | j in s.entries && j != key
      ensures Agree(h, h', Foot(s.entries[j])) && Foot(s.entries[j]) !! Foot(t)
    {
      FootOfEntry(s, j);
    }
    EntryReplaced(h, h', s, key, v, t);
    EntryNoCells(s, key, t);
  }

  /**
   From `h` to `h1` the map got `child` under `key`, if it had none there; from `h1` to `h'` the child became `c'`.
   */
  lemma ChildSet(h: Heap, h1: Heap, h': Heap, s: Shape, key: string, child: Value, c: Shape, t: Shape, c': Shape)
    requires s.SMap? && Document(h, MapRef(s.ref), s) && Foot(s) !! Foot(t) && s.ref in h && h[s.ref].MapObject?
    requires h.Keys <= h1.Keys && Agree(h, h1, h.Keys - {s.ref})
    requires s.ref in h1 && h1[s.ref] == MapObject(h[s.ref].entries[Str(key) := child])
    requires Foot(c) <= Foot(Entry(s, key)) + (h1.Keys - h.Keys)
    requires SetAt(h1, h', child, Some(s.ref), key, c, t, c')
    ensures Became(h, h', s, t, MapRef(s.ref), WithEntry(s, Str(key), c'))
    ensures Agree(h, h', h.Keys - Foot(s))
    ensures Erase(s).Map? && Erase(WithEntry(s, Str(key), c')) == Put(Erase(s), key, Erase(c'))
  {
    hide Holds, Separate, Foot, NoCells;
    MapParts(h, s, key);
    FootExists(h, MapRef(s.ref), s);
    assert s.ref !in Foot(c);
    var v' := if child.MapRef? then child else h'[s.ref].entries[Str(key)];
    assert h'[s.ref].entries == h[s.ref].entries[Str(key) := v'];
    BelowMap(h, h', s, key, t, v', c');
  }

  // ---- At a list

  method SetInSlice(store: Store, root: Value, path: Path, value: Value, parent: Ref, keyToChild: string, pick: Scalar,
                    ghost s: Shape, ghost t: Shape)
    returns (err: Option<SetError>, ghost s': Shape)
    requires store.Valid() && Settable(store.heap, root, s, value, t, pick) && s.SList? && path != []
    requires HeldBy(store.heap, parent, keyToChild, root, s, t)
    modifies store
    ensures store.Valid() && SetUnder(old(store.heap), store.heap, parent, keyToChild, s, t, s')
    ensures SetNode(Erase(s), path, Erase(t), pick) == Outcome(Erase(s'), err)
    decreases |path|, 1
  {
    hide Holds, Separate, Foot, NoCells, Erase, SetUnder, SetTree, SetRoot;
    ghost var h := store.heap;
    var kv := PathKV(path[0]);
    ListDocument(h, root, s);
    if kv.None? {
      Unchanged(h, root, Some(parent), keyToChild, s, t);
      return Some(BadElement), s;
    }
    var (k, v) := kv.value;
    var sli := store.heap[root.backing].slots[..root.len];
    for i := 0 to |sli|
      invariant store.Valid() && store.heap == h
      invariant Find(Trees(s.elements), k, v, i) == Find(Trees(s.elements), k, v, 0)
    {
      var svi := sli[i];
      Kinds(h, svi, s.elements[i]);
      if !svi.MapRef? {
        Unchanged(h, root, Some(parent), keyToChild, s, t);
        return Some(ElementNotMap), s;
      }
      var sv := store.heap[svi.ref].entries;
      SelectsAlike(h, svi, s.elements[i], k, v);
      if Str(k) in sv && sv[Str(k)] == Atom(Str(v)) {
        FootOfElement(s, i);
        ghost var e;
        err, e := SetInElement(store, svi.ref, path, value, pick, s, i, t);
        ElementSetUnder(h, store.heap, parent, keyToChild, root, s, i, t, e);
        return err, WithElement(s, i, e);
      }
    }
    // No element matches: create one.
    ghost var e;
    var backing;
    err, e, backing := AddElement(store, root, path, value, parent, keyToChild, k, v, pick, s, t);
    s' := Longer(s, backing, e);
  }

  lemma SelectsAlike(h: Heap, e: Value, s: Shape, k: string, v: string)
    requires e.MapRef? && Document(h, e, s)
    ensures e.ref in h && h[e.ref].MapObject? && Erase(s).Map?
    ensures Selected(Erase(s), k, v) <==> Str(k) in h[e.ref].entries && h[e.ref].entries[Str(k)] == Atom(Str(v))
  {
    MapParts(h, s, k);
    if Str(k) in s.entries {
      var child := s.entries[Str(k)];
      assert Erase(child) == Leaf(Str(v)) <==> child == SLeaf(Str(v));
    }
  }

  /** A change of the element at `i` of the list is one of the list; the map that holds the list stays as it is. */
  lemma ElementSetUnder(h: Heap, h': Heap, parent: Ref, key: string, root: Value, s: Shape, i: nat, t: Shape, e: Shape)
    requires s.SList? && i < |s.elements| && Document(h, root, s) && Foot(s) !! Foot(t)
    requires HeldBy(h, parent, key, root, s, t)
    requires s.backing in h && h[s.backing].ArrayObject? && i < |h[s.backing].slots|
    requires Became(h, h', s.elements[i], t, h[s.backing].slots[i], e) && Agree(h, h', h.Keys - Foot(s.elements[i]))
    ensures SetUnder(h, h', parent, key, s, t, WithElement(s, i, e))
    ensures Erase(WithElement(s, i, e)) == List(Trees(s.elements)[i := Erase(e)])
  {
    hide Holds, Separate, Foot, NoCells;
    FootOfElement(s, i);
    FootExists(h, root, s);
    BelowList(h, h', root, s, i, t, e);
    assert h[parent].entries[Str(key) := root] == h[parent].entries;
  }

  /** `setTreeInternal` at the list element that matches. */
  method SetInElement(store: Store, sv: Ref, path: Path, value: Value, pick: Scalar, ghost s: Shape, ghost i: nat,
                      ghost t: Shape)
    returns (err: Option<SetError>, ghost e: Shape)
    requires s.SList? && i < |s.elements| && path != []
    requires store.Valid() && Settable(store.heap, MapRef(sv), s.elements[i], value, t, pick)
    modifies store
    ensures store.Valid() && Became(old(store.heap), store.heap, s.elements[i], t, MapRef(sv), e)
    ensures Agree(old(store.heap), store.heap, old(store.heap).Keys - Foot(s.elements[i]))
    ensures Erase(s.elements[i]).Map?
    ensures Outcome(Erase(e), err) == if |path| == 1 then SetRoot(Erase(s.elements[i]), Erase(t), pick)
                                      else SetTree(Erase(s.elements[i]), path[1..], Erase(t), pick)
    decreases |path|, 0
  {
    hide Holds, Separate, Foot, NoCells, SetTree, SetInList;
    e := s.elements[i];
    Kinds(store.heap, MapRef(sv), e);
    Kinds(store.heap, value, t);
    if |path| == 1 {
      if !value.MapRef? {
        return Some(ValueNotMap), e;
      }
      var m := store.heap[value.ref].entries;
      RootOf(store.heap, value, t, pick);
      if m == map[] {
        PutEntry(store, sv, Str(""), Nil);
        EntrySet(old(store.heap), store.heap, e, Str(""), Nil, SNull);
        return None, WithEntry(e, Str(""), SNull);
      }
      PutEntry(store, sv, pick, m[pick]);
      EntrySet(old(store.heap), store.heap, e, pick, m[pick], t.entries[pick]);
      return None, WithEntry(e, pick, t.entries[pick]);
    }
    err, e := SetTreeInternal(store, MapRef(sv), path[1..], value, None, "", pick, e, t);
  }

  /** `getTreeRootKV`: the root of a value is the entry that happens to be visited first. */
  lemma RootOf(h: Heap, value: Value, t: Shape, pick: Scalar)
    requires value.MapRef? && Document(h, value, t) && PicksRoot(Erase(t), pick)
    ensures value.ref in h && h[value.ref].MapObject? && t.SMap? && Erase(t).Map?
    ensures h[value.ref].entries == map[] <==> Erase(t).entries == map[]
    ensures h[value.ref].entries != map[] ==>
              && pick in h[value.ref].entries && pick in t.entries && pick in Erase(t).entries
              && Document(h, h[value.ref].entries[pick], t.entries[pick])
              && Foot(t.entries[pick]) <= Foot(t) && Erase(t).entries[pick] == Erase(t.entries[pick])
    ensures Foot(SNull) == {} && Document(h, Nil, SNull) && Erase(SNull) == Null
  {
    assert h[value.ref].entries.Keys == t.entries.Keys == Erase(t).entries.Keys;
    assert h[value.ref].entries == map[] <==> h[value.ref].entries.Keys == {};
    assert Erase(t).entries == map[] <==> Erase(t).entries.Keys == {};
  }

  /** `append`: in place if the backing array has room, else into a copy of some larger capacity. */
  method Append(store: Store, list: Value, v: Value) returns (backing: Ref)
    requires store.Valid() && list.Slice? && list.backing in store.heap && store.heap[list.backing].ArrayObject?
    requires list.len <= |store.heap[list.backing].slots|
    modifies store
    ensures store.Valid() && old(store.heap).Keys <= store.heap.Keys <= old(store.heap).Keys + {backing}
    ensures Agree(old(store.heap), store.heap, old(store.heap).Keys - {backing})
    ensures backing == list.backing || backing !in old(store.heap)
    ensures backing in store.heap && store.heap[backing].ArrayObject? && list.len < |store.heap[backing].slots|
    ensures store.heap[backing].slots[..list.len] == old(store.heap)[list.backing].slots[..list.len]
    ensures store.heap[backing].slots[list.len] == v
  {
    backing := list.backing;
    var slots := store.heap[backing].slots;
    if list.len < |slots| {
      store.heap := store.heap[backing := ArrayObject(slots[list.len := v])];
    } else {
      var spare: seq<Value> :| |spare| == list.len;
      backing := store.New(ArrayObject(slots + [v] + spare));
    }
  }

  /** The heap `h1` has a new map, a longer list in `backing`, and the new slice in the parent. */
  ghost predicate Grown(h: Heap, h1: Heap, parent: Ref, key: string, s: Shape, nn: Ref, element: Object, backing: Ref)
  {
    && s.SList? && s.backing in h && h[s.backing].ArrayObject? && |s.elements| <= |h[s.backing].slots|
    && h.Keys <= h1.Keys && Agree(h, h1, h.Keys - {s.backing, parent})
    && nn !in h && nn != backing && nn in h1 && h1[nn] == element
    && (backing == s.backing || backing !in h) && backing in h1 && h1[backing].ArrayObject? && backing != parent
    && |s.elements| < |h1[backing].slots|
    && h1[backing].slots[..|s.elements|] == h[s.backing].slots[..|s.elements|]
    && h1[backing].slots[|s.elements|] == MapRef(nn)
    && parent in h && h[parent].MapObject? && parent in h1
    && h1[parent] == MapObject(h[parent].entries[Str(key) := Slice(backing, |s.elements| + 1)])
  }

  /** A new object, the list with it behind, and the longer header in the map that holds the list. */
  lemma ListGrown(h: Heap, h0: Heap, ha: Heap, h1: Heap, parent: Ref, key: string, s: Shape, nn: Ref, element: Object,
                  backing: Ref)
    requires s.SList? && s.backing in h && h[s.backing].ArrayObject? && |s.elements| <= |h[s.backing].slots|
    requires parent in h && h[parent].MapObject? && nn !in h && h0 == h[nn := element]
    requires h0.Keys <= ha.Keys && Agree(h0, ha, h0.Keys - {backing}) && (backing == s.backing || backing !in h0)
    requires backing in ha && ha[backing].ArrayObject? && |s.elements| < |ha[backing].slots|
    requires ha[backing].slots[..|s.elements|] == h[s.backing].slots[..|s.elements|]
    requires ha[backing].slots[|s.elements|] == MapRef(nn) && parent in ha && ha[parent].MapObject?
    requires h1 == ha[parent := MapObject(ha[parent].entries[Str(key) := Slice(backing, |s.elements| + 1)])]
    ensures Grown(h, h1, parent, key, s, nn, element, backing)
  {
  }

  lemma SetNodeOfMap(t: Tree, path: Path, value: Tree, pick: Scalar)
    requires t.Map? && PicksRoot(value, pick)
    ensures |path| > 1 ==> SetNode(t, path[1..], value, pick) == SetTree(t, path[1..], value, pick)
  {
    hide SetTree;
  }

  function NewObject(k: string, v: string): Object {
    MapObject(map[Str(k) := Atom(Str(v))])
  }

  ghost function NewShape(nn: Ref, k: string, v: string): Shape {
    SMap(nn, map[Str(k) := SLeaf(Str(v))])
  }

  lemma NewElementReady(h: Heap, h1: Heap, parent: Ref, key: string, root: Value, s: Shape, nn: Ref, k: string,
                        v: string, backing: Ref, value: Value, t: Shape)
    requires Grown(h, h1, parent, key, s, nn, NewObject(k, v), backing) && HeldBy(h, parent, key, root, s, t)
    requires Document(h, value, t) && Foot(s) !! Foot(t) && s.backing in Foot(s)
    ensures var e := NewShape(nn, k, v);
            && Document(h1, MapRef(nn), e) && Document(h1, value, t) && Foot(e) == {nn} && nn !in Foot(t)
            && Erase(e) == NewElement(k, v)
  {
    hide Holds, Separate, Foot, NoCells, NewShape, Erase;
    FootExists(h, value, t);
    HoldsFrame(h, h1, value, t);
    NewShapeHeld(h1, nn, k, v);
  }

  lemma NewShapeHeld(h: Heap, nn: Ref, k: string, v: string)
    requires nn in h && h[nn] == NewObject(k, v)
    ensures var e := NewShape(nn, k, v);
            Document(h, MapRef(nn), e) && Foot(e) == {nn} && Erase(e) == NewElement(k, v)
  {
    assert Erase(NewShape(nn, k, v)).entries == NewElement(k, v).entries;
  }

  lemma ElementAdded(h: Heap, h1: Heap, h': Heap, parent: Ref, key: string, root: Value, s: Shape, nn: Ref,
                     element: Object, backing: Ref, t: Shape, e': Shape)
    requires Grown(h, h1, parent, key, s, nn, element, backing) && HeldBy(h, parent, key, root, s, t)
    requires Document(h, root, s) && Foot(s) !! Foot(t) && h1.Keys <= h'.Keys && Agree(h1, h', h1.Keys - {nn})
    requires Document(h', MapRef(nn), e') && Foot(e') <= {nn} + Foot(t) + (h'.Keys - h1.Keys)
    requires Foot(t) <= h.Keys
    ensures SetUnder(h, h', parent, key, s, t, Longer(s, backing, e'))
    ensures Erase(Longer(s, backing, e')) == List(Trees(s.elements) + [Erase(e')])
  {
    hide Holds, Separate, Foot, NoCells;
    ListDocument(h, root, s);
    BehindList(h, h', root, s, backing, t, MapRef(nn), e');
  }

  method AddElement(store: Store, root: Value, path: Path, value: Value, parent: Ref, keyToChild: string, k: string,
                    v: string, pick: Scalar, ghost s: Shape, ghost t: Shape)
    returns (err: Option<SetError>, ghost e: Shape, backing: Ref)
    requires store.Valid() && Settable(store.heap, root, s, value, t, pick) && s.SList? && path != []
    requires HeldBy(store.heap, parent, keyToChild, root, s, t)
    modifies store
    ensures store.Valid() && SetUnder(old(store.heap), store.heap, parent, keyToChild, s, t, Longer(s, backing, e))
    ensures Erase(Longer(s, backing, e)) == List(Trees(s.elements) + [Erase(e)])
    ensures Outcome(Erase(e), err) == if |path| == 1 then Outcome(NewElement(k, v), None)
                                      else SetTree(NewElement(k, v), path[1..], Erase(t), pick)
    decreases |path|, 0
  {
    hide Holds, Separate, Foot, NoCells, Erase, Longer, Grown, SetTree, SetNode, SetInList, SetUnder;
    ghost var h := store.heap;
    ListDocument(h, root, s);
    FootExists(h, value, t);
    var nn := store.New(NewObject(k, v));
    ghost var h0 := store.heap;
    backing := Append(store, root, MapRef(nn));
    ghost var ha := store.heap;
    PutEntry(store, parent, Str(keyToChild), Slice(backing, root.len + 1));
    ghost var h1 := store.heap;
    ListGrown(h, h0, ha, h1, parent, keyToChild, s, nn, NewObject(k, v), backing);
    NewElementReady(h, h1, parent, keyToChild, root, s, nn, k, v, backing, value, t);
    SetNodeOfMap(NewElement(k, v), path, Erase(t), pick);
    e := NewShape(nn, k, v);
    err := None;
    if |path| > 1 {
      err, e := SetTreeInternal(store, MapRef(nn), path[1..], value, None, "", pick, e, t);
    }
    ElementAdded(h, h1, store.heap, parent, keyToChild, root, s, nn, NewObject(k, v), backing, t, e);
  }
}
