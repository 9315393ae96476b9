/** Nodes of a document, addressed by map keys and list indices. */
module Addresses {
  import opened Options
  import opened GoHeap

  /** The entry of a map under `key`; a missing one counts as null. */
  function Get(t: Tree, key: string): Tree
    requires t.Map?
  {
    if Str(key) in t.entries then t.entries[Str(key)] else Null
  }

  predicate IsListTree(t: Tree) {
    t.List? || t.Boxed?
  }

  /** What looking for a list element comes to. An element that cannot be compared ends the search. */
  datatype Search = Found(index: nat) | Missing | Unsearchable

  datatype Step = Key(key: Scalar) | Index(index: nat)

  type Address = seq<Step>

  predicate HasStep(t: Tree, step: Step) {
    match step
    case Key(key) => t.Map? && key in t.entries
    case Index(i) => IsListTree(t) && i < |t.elements|
  }

  function Child(t: Tree, step: Step): Tree
    requires HasStep(t, step)
  {
    match step
    case Key(key) => t.entries[key]
    case Index(i) => t.elements[i]
  }

  function At(t: Tree, a: Address): Option<Tree>
    decreases |a|
  {
    if a == [] then Some(t)
    else if HasStep(t, a[0]) then At(Child(t, a[0]), a[1..])
    else None
  }

  predicate Comparable(a: Address, b: Address) {
    a <= b || b <= a
  }

  function WithChild(t: Tree, step: Step, child: Tree): (t': Tree)
    requires HasStep(t, step)
    ensures HasStep(t', step) && Child(t', step) == child
    ensures forall other | other != step :: HasStep(t', other) == HasStep(t, other)
    ensures forall other | other != step && HasStep(t, other) :: Child(t', other) == Child(t, other)
  {
    match step
    case Key(key) => Map(t.entries[key := child])
    case Index(i) => t.(elements := t.elements[i := child])
  }

  lemma ComparableTails(a: Address, b: Address)
    requires a != [] && b != [] && a[0] == b[0]
    ensures Comparable(a[1..], b[1..]) == Comparable(a, b)
    ensures b[1..] < a[1..] <==> b < a
  {
    assert a == [a[0]] + a[1..] && b == [b[0]] + b[1..];
  }
}
