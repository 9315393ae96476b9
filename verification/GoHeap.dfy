/**
 Document trees as Go holds them: maps, slices over backing arrays, and pointers to interface variables, all of which
 are shared by reference and mutated in place. `Tree` is the pure document; a `Shape` says which object of the heap
 holds which node of it.
 */
module GoHeap {
  type Ref = nat

  /** A scalar: its dynamic type and how it prints. */
  datatype Scalar = Scalar(tag: nat, text: string)

  const STRING_TAG := 0

  function Str(s: string): Scalar {
    Scalar(STRING_TAG, s)
  }

  /**
   What an `interface{}` holds. A slice is a header: a backing array and a length. `Json` is a map that was decoded from
   JSON, inside the value of a patch: a patch never writes to one, so that it is a value here.
   */
  datatype Value =
    | Nil
    | Atom(scalar: Scalar)
    | Json(fields: map<string, Tree>)
    | MapRef(ref: Ref)
    | Slice(backing: Ref, len: nat)
    | Pointer(cell: Ref)

  datatype Object =
    | MapObject(entries: map<Scalar, Value>)
    | ArrayObject(slots: seq<Value>) // as many slots as its capacity
    | CellObject(content: Value)     // an interface variable whose address was taken

  type Heap = map<Ref, Object>

  /** A boxed list is held through a pointer to the interface variable `cell`. */
  datatype Tree =
    | Null
    | Leaf(scalar: Scalar)
    | JsonMap(fields: map<string, Tree>)
    | Map(entries: map<Scalar, Tree>)
    | List(elements: seq<Tree>)
    | Boxed(cell: Ref, elements: seq<Tree>)

  datatype Shape =
    | SNull
    | SLeaf(scalar: Scalar)
    | SJsonMap(fields: map<string, Tree>)
    | SMap(ref: Ref, entries: map<Scalar, Shape>)
    | SList(cells: set<Ref>, backing: Ref, elements: seq<Shape>) // at most one cell: the pointer it is held through

  /** The value `v` in heap `h` is a document of shape `s`. */
  ghost predicate Holds(h: Heap, v: Value, s: Shape)
    decreases s
  {
    match s
    case SNull => v == Nil
    case SLeaf(scalar) => v == Atom(scalar)
    case SJsonMap(fields) => v == Json(fields)
    case SMap(ref, entries) =>
      && v == MapRef(ref)
      && HoldsMap(h, ref, entries.Keys)
      && forall k | k in entries :: Holds(h, h[ref].entries[k], entries[k])
    case SList(cells, backing, elements) =>
      && IsList(h, v, cells, backing, |elements|)
      && forall i | 0 <= i < |elements| :: Holds(h, h[backing].slots[i], elements[i])
  }

  ghost predicate HoldsMap(h: Heap, ref: Ref, keys: set<Scalar>) {
    ref in h && h[ref].MapObject? && h[ref].entries.Keys == keys
  }

  /** `v` is the header of `len` elements in `backing`, held directly or through the one cell. */
  ghost predicate IsList(h: Heap, v: Value, cells: set<Ref>, backing: Ref, len: nat) {
    && backing in h && h[backing].ArrayObject? && len <= |h[backing].slots|
    && if v.Pointer? then cells == {v.cell} && v.cell in h && h[v.cell] == CellObject(Slice(backing, len))
       else cells == {} && v == Slice(backing, len)
  }

  /** The objects a shape is made of. */
  ghost function Foot(s: Shape): set<Ref>
    decreases s
  {
    match s
    case SNull => {}
    case SLeaf(_) => {}
    case SJsonMap(_) => {}
    case SMap(ref, entries) => {ref} + set k, x | k in entries && x in Foot(entries[k]) :: x
    case SList(cells, backing, elements) =>
      cells + {backing} + set i, x | 0 <= i < |elements| && x in Foot(elements[i]) :: x
  }

  /** No object is used twice. */
  ghost predicate Separate(s: Shape)
    decreases s
  {
    match s
    case SNull => true
    case SLeaf(_) => true
    case SJsonMap(_) => true
    case SMap(ref, entries) =>
      && (forall k | k in entries :: Separate(entries[k]) && ref !in Foot(entries[k]))
      && (forall j, k | j in entries && k in entries && j != k :: Foot(entries[j]) !! Foot(entries[k]))
    case SList(cells, backing, elements) =>
      && backing !in cells
      && (forall i | 0 <= i < |elements| :: Separate(elements[i]) && (cells + {backing}) !! Foot(elements[i]))
      && (forall i, j | 0 <= i < j < |elements| :: Foot(elements[i]) !! Foot(elements[j]))
  }

  /** The document of a shape. */
  ghost function Erase(s: Shape): Tree
    decreases s
  {
    match s
    case SNull => Null
    case SLeaf(scalar) => Leaf(scalar)
    case SJsonMap(fields) => JsonMap(fields)
    case SMap(_, entries) => Map(map k | k in entries :: Erase(entries[k]))
    case SList(cells, _, elements) =>
      ListOf(cells, seq(|elements|, i requires 0 <= i < |elements| => Erase(elements[i])))
  }

  /** The list `es`, held directly or through the one cell. */
  ghost function ListOf(cells: set<Ref>, es: seq<Tree>): Tree {
    if cells == {} then List(es)
    else
      var cell :| cell in cells;
      Boxed(cell, es)
  }

  ghost predicate Agree(h: Heap, h': Heap, refs: set<Ref>) {
    forall r | r in refs && r in h :: r in h' && h'[r] == h[r]
  }

  /** A document is unaffected by what happens to objects it is not made of. */
  lemma {:induction false} HoldsFrame(h: Heap, h': Heap, v: Value, s: Shape)
    requires Holds(h, v, s) && Agree(h, h', Foot(s))
    ensures Holds(h', v, s)
    decreases s
  {
    match s
    case SNull =>
    case SLeaf(_) =>
    case SJsonMap(_) =>
    case SMap(ref, entries) =>
      forall k | k in entries
        ensures Holds(h', h'[ref].entries[k], entries[k])
      {
        FootOfEntry(s, k);
        HoldsFrame(h, h', h[ref].entries[k], entries[k]);
      }
    case SList(cells, backing, elements) =>
      forall i | 0 <= i < |elements|
        ensures Holds(h', h'[backing].slots[i], elements[i])
      {
        FootOfElement(s, i);
        HoldsFrame(h, h', h[backing].slots[i], elements[i]);
      }
  }

  lemma FootOfEntry(s: Shape, k: Scalar)
    requires s.SMap? && k in s.entries
    ensures Foot(s.entries[k]) <= Foot(s)
  {
  }

  lemma FootOfElement(s: Shape, i: nat)
    requires s.SList? && i < |s.elements|
    ensures Foot(s.elements[i]) <= Foot(s)
  {
  }

  /** A document is made of objects that exist. */
  lemma {:induction false} FootExists(h: Heap, v: Value, s: Shape)
    requires Holds(h, v, s)
    ensures Foot(s) <= h.Keys
    decreases s
  {
    match s
    case SNull =>
    case SLeaf(_) =>
    case SJsonMap(_) =>
    case SMap(ref, entries) =>
      forall k | k in entries
        ensures Foot(entries[k]) <= h.Keys
      {
        FootExists(h, h[ref].entries[k], entries[k]);
      }
    case SList(cells, backing, elements) =>
      forall i | 0 <= i < |elements|
        ensures Foot(elements[i]) <= h.Keys
      {
        FootExists(h, h[backing].slots[i], elements[i]);
      }
  }

  ghost function Entry(s: Shape, key: string): Shape
    requires s.SMap?
  {
    if Str(key) in s.entries then s.entries[Str(key)] else SNull
  }

  lemma ListParts(h: Heap, s: Shape, list: Value)
    requires s.SList? && Holds(h, list, s) && Separate(s)
    ensures s.backing in h && h[s.backing].ArrayObject? && |s.elements| <= |h[s.backing].slots|
    ensures s.cells <= h.Keys && s.cells + {s.backing} <= Foot(s) && s.backing !in s.cells
  {
  }

  lemma ElementParts(h: Heap, s: Shape, list: Value, i: nat)
    requires s.SList? && i < |s.elements| && Holds(h, list, s) && Separate(s)
    ensures s.backing in h && h[s.backing].ArrayObject? && i < |h[s.backing].slots|
    ensures Holds(h, h[s.backing].slots[i], s.elements[i]) && Separate(s.elements[i])
    ensures Foot(s.elements[i]) <= Foot(s) && (s.cells + {s.backing}) !! Foot(s.elements[i])
    ensures forall j | 0 <= j < |s.elements| && j != i ::
              Foot(s.elements[j]) <= Foot(s) && Foot(s.elements[j]) !! Foot(s.elements[i])
              && (s.cells + {s.backing}) !! Foot(s.elements[j])
  {
  }

  /** Replacing one entry of a map, by storing another value under its key. */
  ghost function WithEntry(s: Shape, k: Scalar, t: Shape): Shape
    requires s.SMap?
  {
    SMap(s.ref, s.entries[k := t])
  }

  /** The map at `s.ref` got `v` under `k`, which holds `t`, and nothing its other entries are made of changed. */
  ghost predicate Replaced(h: Heap, h': Heap, s: Shape, k: Scalar, v: Value, t: Shape) {
    && s.SMap? && Holds(h, MapRef(s.ref), s) && Separate(s)
    && s.ref in h' && h'[s.ref] == MapObject(h[s.ref].entries[k := v])
    && Holds(h', v, t) && Separate(t) && s.ref !in Foot(t)
    && (forall j | j in s.entries && j != k :: Agree(h, h', Foot(s.entries[j])) && Foot(s.entries[j]) !! Foot(t))
  }

  lemma EntryReplaced(h: Heap, h': Heap, s: Shape, k: Scalar, v: Value, t: Shape)
    requires Replaced(h, h', s, k, v, t)
    ensures Holds(h', MapRef(s.ref), WithEntry(s, k, t)) && Separate(WithEntry(s, k, t))
    ensures Foot(WithEntry(s, k, t)) <= Foot(s) + Foot(t)
    ensures Erase(WithEntry(s, k, t)) == Map(Erase(s).entries[k := Erase(t)])
  {
    ReplacedHolds(h, h', s, k, v, t);
    ReplacedSeparate(h, h', s, k, v, t);
    ReplacedErase(s, k, t);
    ReplacedFoot(s, k, t);
  }

  lemma ReplacedHolds(h: Heap, h': Heap, s: Shape, k: Scalar, v: Value, t: Shape)
    requires Replaced(h, h', s, k, v, t)
    ensures Holds(h', MapRef(s.ref), WithEntry(s, k, t))
  {
    hide Foot, Separate;
    var s' := WithEntry(s, k, t);
    forall j | j in s'.entries
      ensures Holds(h', h'[s.ref].entries[j], s'.entries[j])
    {
      if j != k {
        HoldsFrame(h, h', h[s.ref].entries[j], s.entries[j]);
      }
    }
  }

  lemma ReplacedSeparate(h: Heap, h': Heap, s: Shape, k: Scalar, v: Value, t: Shape)
    requires Replaced(h, h', s, k, v, t)
    ensures Separate(WithEntry(s, k, t))
  {
    hide Foot, Holds;
  }

  lemma ReplacedErase(s: Shape, k: Scalar, t: Shape)
    requires s.SMap?
    ensures Erase(s).Map? && Erase(WithEntry(s, k, t)) == Map(Erase(s).entries[k := Erase(t)])
  {
    assert Erase(WithEntry(s, k, t)).entries == Erase(s).entries[k := Erase(t)];
  }

  lemma ReplacedFoot(s: Shape, k: Scalar, t: Shape)
    requires s.SMap?
    ensures Foot(WithEntry(s, k, t)) <= Foot(s) + Foot(t)
  {
  }

  ghost function Trees(es: seq<Shape>): (ts: seq<Tree>)
    ensures |ts| == |es| && forall i | 0 <= i < |es| :: ts[i] == Erase(es[i])
  {
    seq(|es|, i requires 0 <= i < |es| => Erase(es[i]))
  }

  lemma EraseList(s: Shape)
    requires s.SList?
    ensures Erase(s) == ListOf(s.cells, Trees(s.elements))
  {
  }

  ghost function WithElement(s: Shape, i: nat, t: Shape): Shape
    requires s.SList? && i < |s.elements|
  {
    SList(s.cells, s.backing, s.elements[i := t])
  }

  /**
   Slot `i` of the list held by `list` got `v`, which holds `t`, and nothing its other elements are made of changed.
   */
  ghost predicate ElementSet(h: Heap, h': Heap, list: Value, s: Shape, i: nat, v: Value, t: Shape) {
    && s.SList? && i < |s.elements| && Holds(h, list, s) && Separate(s)
    && Agree(h, h', s.cells)
    && s.backing in h' && h'[s.backing] == ArrayObject(h[s.backing].slots[i := v])
    && Holds(h', v, t) && Separate(t) && (s.cells + {s.backing}) !! Foot(t)
    && (forall j | 0 <= j < |s.elements| && j != i ::
          Agree(h, h', Foot(s.elements[j])) && Foot(s.elements[j]) !! Foot(t))
  }

  lemma ElementReplaced(h: Heap, h': Heap, list: Value, s: Shape, i: nat, v: Value, t: Shape)
    requires ElementSet(h, h', list, s, i, v, t)
    ensures Holds(h', list, WithElement(s, i, t)) && Separate(WithElement(s, i, t))
    ensures Foot(WithElement(s, i, t)) <= Foot(s) + Foot(t)
    ensures Erase(WithElement(s, i, t)) == ListOf(s.cells, Trees(s.elements)[i := Erase(t)])
  {
    ElementHolds(h, h', list, s, i, v, t);
    ElementSeparate(h, h', list, s, i, v, t);
    ElementFoot(s, i, t);
    EraseList(WithElement(s, i, t));
    assert Trees(s.elements[i := t]) == Trees(s.elements)[i := Erase(t)];
  }

  lemma ElementHolds(h: Heap, h': Heap, list: Value, s: Shape, i: nat, v: Value, t: Shape)
    requires ElementSet(h, h', list, s, i, v, t)
    ensures Holds(h', list, WithElement(s, i, t))
  {
    hide Foot, Separate;
    var es := s.elements[i := t];
    forall j | 0 <= j < |es|
      ensures Holds(h', h'[s.backing].slots[j], es[j])
    {
      if j != i {
        HoldsFrame(h, h', h[s.backing].slots[j], s.elements[j]);
      }
    }
  }

  lemma ElementSeparate(h: Heap, h': Heap, list: Value, s: Shape, i: nat, v: Value, t: Shape)
    requires ElementSet(h, h', list, s, i, v, t)
    ensures Separate(WithElement(s, i, t))
  {
    hide Foot, Holds;
  }

  lemma ElementFoot(s: Shape, i: nat, t: Shape)
    requires s.SList? && i < |s.elements|
    ensures Foot(WithElement(s, i, t)) <= Foot(s) + Foot(t)
  {
  }

  /** The first `len` slots without slot `i`: those behind it have moved down, the last keeps a stale copy. */
  function WithoutSlot(slots: seq<Value>, i: nat, len: nat): (r: seq<Value>)
    requires i < len <= |slots|
    ensures |r| == |slots|
    ensures forall j | 0 <= j < len - 1 :: r[j] == slots[if j < i then j else j + 1]
  {
    slots[..i] + slots[i + 1..len] + slots[len - 1..]
  }

  ghost function WithoutElement(s: Shape, i: nat, cell: Ref): Shape
    requires s.SList? && i < |s.elements|
  {
    SList({cell}, s.backing, s.elements[..i] + s.elements[i + 1..])
  }

  /** The slots behind slot `i` moved down by one, and `cell` holds the shorter header. */
  ghost predicate SlotsShifted(h: Heap, h': Heap, list: Value, s: Shape, i: nat, cell: Ref) {
    && s.SList? && i < |s.elements| && Holds(h, list, s) && Separate(s)
    && s.backing in h' && h'[s.backing] == ArrayObject(WithoutSlot(h[s.backing].slots, i, |s.elements|))
    && cell != s.backing && cell in h' && h'[cell] == CellObject(Slice(s.backing, |s.elements| - 1))
    && (forall j | 0 <= j < |s.elements| :: Agree(h, h', Foot(s.elements[j])) && cell !in Foot(s.elements[j]))
  }

  lemma ElementRemoved(h: Heap, h': Heap, list: Value, s: Shape, i: nat, cell: Ref)
    requires SlotsShifted(h, h', list, s, i, cell)
    ensures Holds(h', Pointer(cell), WithoutElement(s, i, cell)) && Separate(WithoutElement(s, i, cell))
    ensures Foot(WithoutElement(s, i, cell)) <= Foot(s) + {cell}
    ensures Erase(WithoutElement(s, i, cell)) == Boxed(cell, Trees(s.elements)[..i] + Trees(s.elements)[i + 1..])
  {
    RemovedHolds(h, h', list, s, i, cell);
    RemovedSeparate(h, h', list, s, i, cell);
    RemovedFoot(s, i, cell);
    EraseList(WithoutElement(s, i, cell));
    assert Trees(s.elements[..i] + s.elements[i + 1..]) == Trees(s.elements)[..i] + Trees(s.elements)[i + 1..];
  }

  lemma RemovedHolds(h: Heap, h': Heap, list: Value, s: Shape, i: nat, cell: Ref)
    requires SlotsShifted(h, h', list, s, i, cell)
    ensures Holds(h', Pointer(cell), WithoutElement(s, i, cell))
  {
    hide Foot, Separate;
    var es := s.elements[..i] + s.elements[i + 1..];
    forall j | 0 <= j < |es|
      ensures Holds(h', h'[s.backing].slots[j], es[j])
    {
      var k := if j < i then j else j + 1;
      HoldsFrame(h, h', h[s.backing].slots[k], s.elements[k]);
    }
  }

  lemma RemovedSeparate(h: Heap, h': Heap, list: Value, s: Shape, i: nat, cell: Ref)
    requires SlotsShifted(h, h', list, s, i, cell)
    ensures Separate(WithoutElement(s, i, cell))
  {
    hide Foot, Holds;
  }

  lemma ListFoot(cells: set<Ref>, backing: Ref, es: seq<Shape>, refs: set<Ref>)
    requires cells + {backing} <= refs && forall j | 0 <= j < |es| :: Foot(es[j]) <= refs
    ensures Foot(SList(cells, backing, es)) <= refs
  {
  }

  lemma RemovedFoot(s: Shape, i: nat, cell: Ref)
    requires s.SList? && i < |s.elements|
    ensures Foot(WithoutElement(s, i, cell)) <= Foot(s) + {cell}
  {
    var es := s.elements[..i] + s.elements[i + 1..];
    forall j | 0 <= j < |es|
      ensures Foot(es[j]) <= Foot(s)
    {
      FootOfElement(s, if j < i then j else j + 1);
    }
    ListFoot({cell}, s.backing, es, Foot(s) + {cell});
  }

  /** The memory of the program. New objects get references that were never in use. */
  class Store {
    var heap: Heap
    var next: Ref

    constructor ()
      ensures heap == map[] && Valid()
    {
      heap, next := map[], 0;
    }

    ghost predicate Valid()
      reads this
    {
      forall r | r in heap :: r < next
    }

    method New(o: Object) returns (r: Ref)
      requires Valid()
      modifies this
      ensures Valid() && r !in old(heap) && heap == old(heap)[r := o]
    {
      r := next;
      heap := heap[r := o];
      next := next + 1;
    }
  }
}
