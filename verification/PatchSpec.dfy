/** What one patch does to a document, as a pure function. */
module PatchSpec {
  import opened Options
  import opened Paths
  import opened Addresses
  import opened GoHeap

  /**
   `NilNode` is not an error return: reflecting on a missing intermediate node panics. `NotAPointer` is the error of
   `UpdateSlicePtr` and `DeleteFromSlicePtr`.
   */
  datatype PatchError = BadPathElement | NotFound | LeafInPath | NotAPointer | NilNode

  datatype PatchResult = Patched(tree: Tree) | Unpatched(error: PatchError)

  /**
   How elements are selected: `fmt.Sprint` of a node that is neither nil nor a scalar, and
   `regexp.MatchString(pattern, text)`; a pattern that does not compile matches nothing.
   */
  datatype Selector = Selector(sprint: Tree -> string, regex: (string, string) -> bool)

  function Printed(sel: Selector, t: Tree): string {
    match t
    case Null => "<nil>"
    case Leaf(scalar) => scalar.text
    case _ => sel.sprint(t)
  }

  datatype Match = Yes | No | Malformed

  /** Whether the list element `e` is the one that path element `pe` selects. */
  function Matches(sel: Selector, e: Tree, pe: string): Match {
    if e.Map? then
      match PathKV(pe)
      case None => Malformed
      case Some((key, value)) => if Printed(sel, Get(e, key)) == value then Yes else No
    else
      match PathV(pe)
      case None => Malformed
      case Some(pattern) => if sel.regex(pattern, Printed(sel, e)) then Yes else No
  }

  /** The first selected element from index `i` on. An element for which `pe` is malformed ends the search. */
  function FindEntry(sel: Selector, es: seq<Tree>, pe: string, i: nat := 0): (r: Search)
    ensures r.Found? ==> i <= r.index < |es| && Matches(sel, es[r.index], pe) == Yes
    ensures r.Found? ==> forall j | i <= j < r.index :: Matches(sel, es[j], pe) == No
    decreases |es| - i
  {
    if i >= |es| then Missing
    else
      match Matches(sel, es[i], pe)
      case Yes => Found(i)
      case No => FindEntry(sel, es, pe, i + 1)
      case Malformed => Unsearchable
  }

  function Without(es: seq<Tree>, i: nat): seq<Tree>
    requires i < |es|
  {
    es[..i] + es[i + 1..]
  }

  /** What JSON decodes to: its maps are no maps of a document. */
  predicate IsJson(t: Tree) {
    match t
    case Map(_) => false
    case Boxed(_, _) => false
    case JsonMap(fields) => forall k | k in fields :: IsJson(fields[k])
    case List(es) => forall i | 0 <= i < |es| :: IsJson(es[i])
    case _ => true
  }

  type JsonTree = t: Tree | IsJson(t) witness Null

  /** A list of which an element is removed is held through a pointer from then on: through `cell`, if not before. */
  function Shortened(t: Tree, i: nat, cell: Ref): Tree
    requires IsListTree(t) && i < |t.elements|
  {
    Boxed(if t.Boxed? then t.cell else cell, Without(t.elements, i))
  }

  /**
   `t` with `value` at `path`: a null value removes a list element and leaves a map alone. A map of JSON is a leaf.
   Elements of a list that is itself an element of a list, `inner`, cannot be written.
   */
  function SetAt(sel: Selector, t: Tree, path: Path, value: Tree, cell: Ref, inner: bool := false): PatchResult
    requires path != []
    decreases |path|
  {
    if t.Null? then Unpatched(NilNode)
    else if t.Leaf? || t.JsonMap? then Unpatched(LeafInPath)
    else if t.Map? then
      if |path| == 1 then Patched(if value.Null? then t else Map(t.entries[Str(path[0]) := value]))
      else
        match SetAt(sel, Get(t, path[0]), path[1..], value, cell)
        case Patched(child) => Patched(Map(t.entries[Str(path[0]) := child]))
        case Unpatched(e) => Unpatched(e)
    else
      match FindEntry(sel, t.elements, path[0])
      case Missing => Unpatched(NotFound)
      case Unsearchable => Unpatched(BadPathElement)
      case Found(i) =>
        if |path| == 1 then
          if inner && t.List? then Unpatched(NotAPointer)
          else Patched(if value.Null? then Shortened(t, i, cell) else t.(elements := t.elements[i := value]))
        else
          match SetAt(sel, t.elements[i], path[1..], value, cell, true)
          case Patched(child) => Patched(t.(elements := t.elements[i := child]))
          case Unpatched(e) => Unpatched(e)
  }

  /** With an empty path the node is the root, which has no parent to write through. */
  function PatchOnce(sel: Selector, t: Tree, path: Path, value: Tree, cell: Ref): PatchResult {
    if path != [] then SetAt(sel, t, path, value, cell)
    else if value.Null? then Patched(t)
    else Unpatched(NilNode)
  }

  /** A patch, with the interface variable through which it would hold a list that it shortens. */
  datatype Patch = Patch(path: Path, value: JsonTree, cell: Ref)

  /** The document and the errors after a list of patches; a panic ends the run. */
  datatype Run = Run(tree: Tree, errors: seq<PatchError>, panicked: bool)

  function ApplyOne(sel: Selector, t: Tree, patch: Patch): PatchResult {
    PatchOnce(sel, t, patch.path, patch.value, patch.cell)
  }

  function RunPatches(sel: Selector, t: Tree, patches: seq<Patch>): Run
    decreases |patches|
  {
    if patches == [] then Run(t, [], false)
    else
      match ApplyOne(sel, t, patches[0])
      case Patched(t') => RunPatches(sel, t', patches[1..])
      case Unpatched(NilNode) => Run(t, [], true)
      case Unpatched(e) =>
        var rest := RunPatches(sel, t, patches[1..]);
        rest.(errors := [e] + rest.errors)
  }

  /** The run and then one more patch. */
  function After(run: Run, result: PatchResult): Run {
    match result
    case Patched(t) => run.(tree := t)
    case Unpatched(e) => if e == NilNode then run.(panicked := true) else run.(errors := run.errors + [e])
  }

  lemma NoPatches(sel: Selector, t: Tree)
    ensures RunPatches(sel, t, []) == Run(t, [], false)
  {
  }

  lemma {:induction false} RunOneMore(sel: Selector, t: Tree, patches: seq<Patch>, patch: Patch)
    ensures var run := RunPatches(sel, t, patches);
            RunPatches(sel, t, patches + [patch])
            == if run.panicked then run else After(run, ApplyOne(sel, run.tree, patch))
    decreases |patches|
  {
    hide ApplyOne;
    var all := patches + [patch];
    if patches == [] {
      assert all[0] == patch && all[1..] == [];
    } else {
      assert all[0] == patches[0] && all[1..] == patches[1..] + [patch];
      if ApplyOne(sel, t, patches[0]) != Unpatched(NilNode) {
        RunOneMore(sel, AfterOne(sel, t, patches[0]), patches[1..], patch);
      }
    }
  }

  lemma {:induction false} NoneAfterPanic(sel: Selector, t: Tree, patches: seq<Patch>, rest: seq<Patch>)
    requires RunPatches(sel, t, patches).panicked
    ensures RunPatches(sel, t, patches + rest) == RunPatches(sel, t, patches)
    decreases |patches|
  {
    hide ApplyOne;
    assert (patches + rest)[0] == patches[0] && (patches + rest)[1..] == patches[1..] + rest;
    if ApplyOne(sel, t, patches[0]) != Unpatched(NilNode) {
      NoneAfterPanic(sel, AfterOne(sel, t, patches[0]), patches[1..], rest);
    }
  }

  /** The address that `path` selects in `t`; its last step may be a key that is not there yet. */
  function Resolve(sel: Selector, t: Tree, path: Path, inner: bool := false): (r: Option<Address>)
    requires path != []
    ensures r.Some? ==> |r.value| == |path|
    decreases |path|
  {
    if t.Map? then
      var step := Key(Str(path[0]));
      if |path| == 1 then Some([step])
      else
        match Resolve(sel, Get(t, path[0]), path[1..])
        case Some(a) => Some([step] + a)
        case None => None
    else if IsListTree(t) then
      match FindEntry(sel, t.elements, path[0])
      case Found(i) =>
        if |path| == 1 then if inner && t.List? then None else Some([Index(i)])
        else
          (match Resolve(sel, t.elements[i], path[1..], true)
           case Some(a) => Some([Index(i)] + a)
           case None => None)
      case _ => None
    else None
  }

  /** A patch succeeds exactly if its path leads somewhere. */
  lemma {:induction false} SucceedsIfResolved(sel: Selector, t: Tree, path: Path, value: Tree, cell: Ref, inner: bool)
    requires path != []
    ensures SetAt(sel, t, path, value, cell, inner).Patched? <==> Resolve(sel, t, path, inner).Some?
    decreases |path|
  {
    if |path| > 1 {
      var next := StepInto(sel, t, path[0]);
      if next.Some? {
        SucceedsIfResolved(sel, next.value, path[1..], value, cell, IsListTree(t));
      }
    }
  }

  /** The document after a patch; a failed patch leaves it alone. */
  function Result(sel: Selector, t: Tree, path: Path, value: Tree, cell: Ref, inner: bool := false): Tree
    requires path != []
  {
    match SetAt(sel, t, path, value, cell, inner)
    case Patched(t') => t'
    case Unpatched(_) => t
  }

  /** The node that the first element of a longer path leads to. */
  function Next(sel: Selector, t: Tree, path: Path, inner: bool): Tree
    requires |path| > 1 && Resolve(sel, t, path, inner).Some?
  {
    StepInto(sel, t, path[0]).value
  }

  lemma StepDown(sel: Selector, t: Tree, path: Path, value: Tree, cell: Ref, inner: bool)
    requires |path| > 1 && Resolve(sel, t, path, inner).Some?
    ensures var a := Resolve(sel, t, path, inner).value;
            var next := Next(sel, t, path, inner);
            && HasStep(t, a[0]) && Child(t, a[0]) == next
            && Resolve(sel, next, path[1..], IsListTree(t)) == Some(a[1..]) && a == [a[0]] + a[1..]
            && Result(sel, t, path, value, cell, inner)
               == WithChild(t, a[0], Result(sel, next, path[1..], value, cell, IsListTree(t)))
  {
    SucceedsIfResolved(sel, t, path, value, cell, inner);
    SucceedsIfResolved(sel, Next(sel, t, path, inner), path[1..], value, cell, IsListTree(t));
  }

  /** After a patch with a value, the node at the address is the value and every other node is what it was. */
  lemma {:induction false} PatchReplaces(sel: Selector, t: Tree, path: Path, value: Tree, cell: Ref, inner: bool,
                                         b: Address)
    requires path != [] && Resolve(sel, t, path, inner).Some? && !value.Null?
    ensures var a := Resolve(sel, t, path, inner).value;
            var t' := Result(sel, t, path, value, cell, inner);
            At(t', a) == Some(value) && (!Comparable(a, b) ==> At(t', b) == At(t, b))
    decreases |path|
  {
    SucceedsIfResolved(sel, t, path, value, cell, inner);
    var a := Resolve(sel, t, path, inner).value;
    var t' := Result(sel, t, path, value, cell, inner);
    if |path| == 1 {
      assert At(t', a) == At(Child(t', a[0]), a[1..]);
    } else {
      StepDown(sel, t, path, value, cell, inner);
      var below := if b == [] then [] else b[1..];
      PatchReplaces(sel, Next(sel, t, path, inner), path[1..], value, cell, IsListTree(t), below);
      if b != [] && b[0] == a[0] {
        ComparableTails(a, b);
      }
    }
  }

  /**
   A null value removes a selected list element, so that those behind it move up by one, and leaves a map alone; no
   other node changes but those that contain the list.
   */
  lemma {:induction false} PatchRemoves(sel: Selector, t: Tree, path: Path, cell: Ref, inner: bool, b: Address)
    requires path != [] && Resolve(sel, t, path, inner).Some?
    ensures var a := Resolve(sel, t, path, inner).value;
            var t' := Result(sel, t, path, Null, cell, inner);
            if a[|a| - 1].Key? then t' == t else b < a || At(t', b) == At(t, BeforeRemoval(a, b))
    decreases |path|
  {
    hide SetAt, Resolve, FindEntry;
    SucceedsIfResolved(sel, t, path, Null, cell, inner);
    var a := Resolve(sel, t, path, inner).value;
    var t' := Result(sel, t, path, Null, cell, inner);
    if |path| == 1 {
      RemovesHere(sel, t, path, cell, inner, b);
    } else {
      StepDown(sel, t, path, Null, cell, inner);
      var below := if b == [] then [] else b[1..];
      PatchRemoves(sel, Next(sel, t, path, inner), path[1..], cell, IsListTree(t), below);
      if a[|a| - 1].Key? {
        assert WithChild(t, a[0], Child(t, a[0])) == t;
      } else if b != [] && b[0] == a[0] {
        ComparableTails(a, b);
      }
    }
  }

  lemma RemovesHere(sel: Selector, t: Tree, path: Path, cell: Ref, inner: bool, b: Address)
    requires |path| == 1 && Resolve(sel, t, path, inner).Some?
    ensures var a := Resolve(sel, t, path, inner).value;
            var t' := Result(sel, t, path, Null, cell, inner);
            |a| == 1 && if a[0].Key? then t' == t else b < a || At(t', b) == At(t, BeforeRemoval(a, b))
  {
    if IsListTree(t) && b != [] {
      var a := Resolve(sel, t, path, inner).value;
      ElementAfterRemoval(t, a[0].index, cell, b[0]);
      assert BeforeRemoval(a, b)[1..] == b[1..];
    }
  }

  /** Where the node at `b` stood before the list element at `a` was removed. */
  function BeforeRemoval(a: Address, b: Address): Address
    requires a != []
    decreases |a|
  {
    if b == [] then []
    else if |a| == 1 then [StepBefore(a[0], b[0])] + b[1..]
    else if a[0] == b[0] then [b[0]] + BeforeRemoval(a[1..], b[1..])
    else b
  }

  function StepBefore(removed: Step, step: Step): Step {
    if removed.Index? && step.Index? && step.index >= removed.index then Index(step.index + 1) else step
  }

  lemma ElementAfterRemoval(t: Tree, i: nat, cell: Ref, step: Step)
    requires IsListTree(t) && i < |t.elements|
    ensures var t' := Shortened(t, i, cell);
            var before := StepBefore(Index(i), step);
            HasStep(t', step) == HasStep(t, before) && (HasStep(t', step) ==> Child(t', step) == Child(t, before))
  {
  }

  // ---- When a patch fails

  /** The node one step down, if the step leads to one. A missing key leads to null. */
  function StepInto(sel: Selector, t: Tree, pe: string): Option<Tree> {
    if t.Map? then Some(Get(t, pe))
    else if IsListTree(t) then
      match FindEntry(sel, t.elements, pe)
      case Found(i) => Some(t.elements[i])
      case _ => None
    else None
  }

  /** The node that `path` leads to. Nothing comes below a null, a scalar, or a map of JSON. */
  function Walk(sel: Selector, t: Tree, path: Path): Option<Tree>
    decreases |path|
  {
    if path == [] then Some(t)
    else
      match StepInto(sel, t, path[0])
      case None => None
      case Some(next) => Walk(sel, next, path[1..])
  }

  /** Why path element `pe`, perhaps the last, cannot be followed from `t`, perhaps the element of a list. */
  function Obstacle(sel: Selector, t: Tree, pe: string, inner: bool, last: bool): Option<PatchError> {
    match t
    case Null => Some(NilNode)
    case Leaf(_) => Some(LeafInPath)
    case JsonMap(_) => Some(LeafInPath)
    case Map(_) => None
    case _ =>
      match FindEntry(sel, t.elements, pe)
      case Missing => Some(NotFound)
      case Unsearchable => Some(BadPathElement)
      case Found(_) => if last && inner && t.List? then Some(NotAPointer) else None
  }

  /** The node that the first `n` elements of the path lead to is an obstacle to the next. */
  predicate ObstacleAt(sel: Selector, t: Tree, path: Path, inner: bool, n: nat, e: PatchError)
    requires n < |path|
  {
    match Walk(sel, t, path[..n])
    case None => false
    case Some(node) => Obstacle(sel, node, path[n], IsElement(sel, t, path, inner, n), n == |path| - 1) == Some(e)
  }

  /** Whether the node is an element of a list, if `inner` says so for the root. */
  predicate IsElement(sel: Selector, t: Tree, path: Path, inner: bool, n: nat)
    requires n < |path|
  {
    if n == 0 then inner
    else Walk(sel, t, path[..n - 1]).Some? && IsListTree(Walk(sel, t, path[..n - 1]).value)
  }

  ghost predicate MeetsObstacle(sel: Selector, t: Tree, path: Path, inner: bool, e: PatchError) {
    exists n: nat | n < |path| :: ObstacleAt(sel, t, path, inner, n, e)
  }

  lemma ObstacleBelow(sel: Selector, t: Tree, path: Path, inner: bool, n: nat, e: PatchError)
    requires 0 < n < |path|
    ensures ObstacleAt(sel, t, path, inner, n, e)
            <==> StepInto(sel, t, path[0]).Some?
                 && ObstacleAt(sel, StepInto(sel, t, path[0]).value, path[1..], IsListTree(t), n - 1, e)
  {
    assert path[..n][1..] == path[1..][..n - 1];
    if n > 1 {
      assert path[..n - 1][1..] == path[1..][..n - 2];
    }
  }

  lemma FirstObstacle(sel: Selector, t: Tree, path: Path, inner: bool, e: PatchError)
    requires path != []
    ensures MeetsObstacle(sel, t, path, inner, e)
            <==> Obstacle(sel, t, path[0], inner, |path| == 1) == Some(e)
                 || (StepInto(sel, t, path[0]).Some?
                     && MeetsObstacle(sel, StepInto(sel, t, path[0]).value, path[1..], IsListTree(t), e))
  {
    assert path[..0] == [] && Walk(sel, t, []) == Some(t);
    assert ObstacleAt(sel, t, path, inner, 0, e) <==> Obstacle(sel, t, path[0], inner, |path| == 1) == Some(e);
    var next := StepInto(sel, t, path[0]);
    hide ObstacleAt, Obstacle, StepInto;
    forall n: nat | 0 < n < |path|
      ensures ObstacleAt(sel, t, path, inner, n, e)
              <==> next.Some? && ObstacleAt(sel, next.value, path[1..], IsListTree(t), n - 1, e)
    {
      ObstacleBelow(sel, t, path, inner, n, e);
    }
    if next.Some? && MeetsObstacle(sel, next.value, path[1..], IsListTree(t), e) {
      var n: nat :| n < |path[1..]| && ObstacleAt(sel, next.value, path[1..], IsListTree(t), n, e);
      assert ObstacleAt(sel, t, path, inner, n + 1, e);
    }
  }

  /** A patch fails, and with which error, exactly by the obstacle that its path meets. */
  lemma {:induction false} FailsAtObstacle(sel: Selector, t: Tree, path: Path, value: Tree, cell: Ref, inner: bool,
                                           e: PatchError)
    requires path != []
    ensures SetAt(sel, t, path, value, cell, inner) == Unpatched(e) <==> MeetsObstacle(sel, t, path, inner, e)
    decreases |path|
  {
    hide MeetsObstacle, Obstacle, StepInto, SetAt;
    FirstObstacle(sel, t, path, inner, e);
    FailsHereOrBelow(sel, t, path, value, cell, inner, e);
    var next := StepInto(sel, t, path[0]);
    if next.Some? {
      if |path| > 1 {
        FailsAtObstacle(sel, next.value, path[1..], value, cell, IsListTree(t), e);
      } else {
        NoPathNoObstacle(sel, next.value, path[1..], IsListTree(t), e);
      }
    }
  }

  lemma FailsHereOrBelow(sel: Selector, t: Tree, path: Path, value: Tree, cell: Ref, inner: bool, e: PatchError)
    requires path != []
    ensures SetAt(sel, t, path, value, cell, inner) == Unpatched(e)
            <==> Obstacle(sel, t, path[0], inner, |path| == 1) == Some(e)
                 || (StepInto(sel, t, path[0]).Some? && |path| > 1
                     && SetAt(sel, StepInto(sel, t, path[0]).value, path[1..], value, cell, IsListTree(t))
                        == Unpatched(e))
  {
    hide FindEntry;
  }

  lemma NoPathNoObstacle(sel: Selector, t: Tree, path: Path, inner: bool, e: PatchError)
    requires path == []
    ensures !MeetsObstacle(sel, t, path, inner, e)
  {
  }

  /** Some node that the path leads through, before its end, is null. */
  ghost predicate MeetsNull(sel: Selector, t: Tree, path: Path) {
    exists n: nat | n < |path| :: Walk(sel, t, path[..n]) == Some(Null)
  }

  /** A patch panics exactly if its path leads through a missing or null node; any other failure is an error return. */
  lemma PanicsAtNull(sel: Selector, t: Tree, path: Path, value: Tree, cell: Ref)
    requires path != []
    ensures SetAt(sel, t, path, value, cell) == Unpatched(NilNode) <==> MeetsNull(sel, t, path)
  {
    FailsAtObstacle(sel, t, path, value, cell, false, NilNode);
    forall n: nat | n < |path|
      ensures ObstacleAt(sel, t, path, false, n, NilNode) <==> Walk(sel, t, path[..n]) == Some(Null)
    {
    }
  }

  predicate IsLeafTree(t: Tree) {
    t.Leaf? || t.JsonMap?
  }

  /** Some node that the path leads to, before its end, is a scalar or a map of JSON. */
  ghost predicate MeetsLeaf(sel: Selector, t: Tree, path: Path) {
    exists n: nat | n < |path| :: LeafAfter(sel, t, path, n)
  }

  predicate LeafAfter(sel: Selector, t: Tree, path: Path, n: nat)
    requires n <= |path|
  {
    Walk(sel, t, path[..n]).Some? && IsLeafTree(Walk(sel, t, path[..n]).value)
  }

  /** The error of a leaf in a path comes exactly from a scalar, or from a map that the value of a patch brought. */
  lemma LeafInPathExactly(sel: Selector, t: Tree, path: Path, value: Tree, cell: Ref)
    requires path != []
    ensures SetAt(sel, t, path, value, cell) == Unpatched(LeafInPath) <==> MeetsLeaf(sel, t, path)
  {
    FailsAtObstacle(sel, t, path, value, cell, false, LeafInPath);
    forall n: nat | n < |path|
      ensures ObstacleAt(sel, t, path, false, n, LeafInPath) <==> LeafAfter(sel, t, path, n)
    {
    }
  }

  /** An element of a list that is itself an element of a list can be found, but neither replaced nor removed. */
  lemma InnerListExample(sel: Selector, value: Tree, cell: Ref)
    requires sel.regex("x", sel.sprint(List([Leaf(Str("1"))]))) && sel.regex("y", "1")
    ensures SetAt(sel, Map(map[Str("a") := List([List([Leaf(Str("1"))])])]), ["a", "[x]", "[y]"], value, cell)
            == Unpatched(NotAPointer)
  {
    var one := Leaf(Str("1"));
    var inner := List([one]);
    var t, path := Map(map[Str("a") := List([inner])]), ["a", "[x]", "[y]"];
    assert "[x]"[1..2] == "x" && "[y]"[1..2] == "y";
    assert Matches(sel, inner, "[x]") == Yes && Matches(sel, one, "[y]") == Yes;
    assert FindEntry(sel, [inner], "[x]") == Found(0) && FindEntry(sel, [one], "[y]") == Found(0);
    assert path[1..] == ["[x]", "[y]"] && path[1..][1..] == ["[y]"];
    assert SetAt(sel, inner, ["[y]"], value, cell, true) == Unpatched(NotAPointer);
    assert SetAt(sel, List([inner]), ["[x]", "[y]"], value, cell) == Unpatched(NotAPointer);
    assert Get(t, "a") == List([inner]);
  }

  // ---- A patch below the value of an earlier one

  lemma {:induction false} WalkOn(sel: Selector, t: Tree, p: Path, q: Path)
    ensures Walk(sel, t, p + q) == match Walk(sel, t, p) case None => None case Some(node) => Walk(sel, node, q)
    decreases |p|
  {
    if p == [] {
      assert p + q == q;
    } else {
      assert (p + q)[1..] == p[1..] + q;
      var next := StepInto(sel, t, p[0]);
      if next.Some? {
        WalkOn(sel, next.value, p[1..], q);
      }
    }
  }

  /** A patch along map keys makes its path lead to its value. */
  lemma {:induction false} LeadsToValue(sel: Selector, t: Tree, path: Path, value: Tree, cell: Ref)
    requires path != [] && Resolve(sel, t, path).Some? && !value.Null?
    requires forall step | step in Resolve(sel, t, path).value :: step.Key?
    ensures Walk(sel, Result(sel, t, path, value, cell), path) == Some(value)
    decreases |path|
  {
    SucceedsIfResolved(sel, t, path, value, cell, false);
    if |path| > 1 {
      StepDown(sel, t, path, value, cell, false);
      var a := Resolve(sel, t, path).value;
      assert a[0] in a && a[0].Key? && t.Map?;
      LeadsToValue(sel, Get(t, path[0]), path[1..], value, cell);
    } else {
      var a := Resolve(sel, t, path).value;
      assert a[0] in a && t.Map?;
      assert path[1..] == [];
    }
  }

  /**
   A patch that goes on below the value of an earlier one, at `path`, reports a leaf in its path exactly if the rest of
   its path meets a scalar or a map in that value. If the value is a map, it always does.
   */
  lemma BelowValue(sel: Selector, t: Tree, path: Path, value: JsonTree, cell: Ref, rest: Path, value': Tree, cell': Ref)
    requires path != [] && Resolve(sel, t, path).Some? && !value.Null? && rest != []
    requires forall step | step in Resolve(sel, t, path).value :: step.Key?
    ensures var t' := Result(sel, t, path, value, cell);
            SetAt(sel, t', path + rest, value', cell') == Unpatched(LeafInPath) <==> MeetsLeaf(sel, value, rest)
    ensures value.JsonMap? ==> MeetsLeaf(sel, value, rest)
  {
    var t' := Result(sel, t, path, value, cell);
    LeadsToValue(sel, t, path, value, cell);
    LeafInPathExactly(sel, t', path + rest, value', cell');
    forall n: nat | n < |rest|
      ensures LeafAfter(sel, t', path + rest, |path| + n) <==> LeafAfter(sel, value, rest, n)
    {
      assert (path + rest)[..|path| + n] == path + rest[..n];
      WalkOn(sel, t', path, rest[..n]);
    }
    forall n: nat | n < |path|
      ensures !LeafAfter(sel, t', path + rest, n)
    {
      assert (path + rest)[..n] == path[..n] && path == path[..n] + path[n..];
      WalkOn(sel, t', path[..n], path[n..]);
    }
    if n: nat :| n < |rest| && LeafAfter(sel, value, rest, n) {
      assert LeafAfter(sel, t', path + rest, |path| + n);
    }
    if n: nat :| n < |path + rest| && LeafAfter(sel, t', path + rest, n) {
      assert LeafAfter(sel, value, rest, n - |path|);
    }
    assert value.JsonMap? ==> LeafAfter(sel, value, rest, 0);
  }

  // ---- When a list of patches fails

  /** With an empty path, any value but nil is written through the parent that the root does not have. */
  ghost predicate Fails(sel: Selector, t: Tree, patch: Patch, e: PatchError) {
    if patch.path == [] then !patch.value.Null? && e == NilNode else MeetsObstacle(sel, t, patch.path, false, e)
  }

  lemma FailsExactly(sel: Selector, t: Tree, patch: Patch, e: PatchError)
    ensures ApplyOne(sel, t, patch) == Unpatched(e) <==> Fails(sel, t, patch, e)
  {
    if patch.path != [] {
      FailsAtObstacle(sel, t, patch.path, patch.value, patch.cell, false, e);
    }
  }

  /** Patch `k` fails with `e`, on the document that the patches before it have made. */
  ghost predicate FailsAt(sel: Selector, t: Tree, patches: seq<Patch>, k: nat, e: PatchError)
    requires k < |patches|
  {
    var before := RunPatches(sel, t, patches[..k]);
    !before.panicked && Fails(sel, before.tree, patches[k], e)
  }

  /** The run reports an error, or panics. */
  predicate Reports(run: Run, e: PatchError) {
    if e == NilNode then run.panicked else e in run.errors
  }

  /**
   A list of patches reports an error, or panics, exactly if one of them does, on the document that those before it
   made.
   */
  lemma {:induction false} RunFailsExactly(sel: Selector, t: Tree, patches: seq<Patch>, e: PatchError)
    ensures Reports(RunPatches(sel, t, patches), e) <==> exists k: nat | k < |patches| :: FailsAt(sel, t, patches, k, e)
    decreases |patches|
  {
    hide Fails;
    if patches != [] {
      var first, rest := patches[0], patches[1..];
      FailsExactly(sel, t, first, e);
      FailsExactly(sel, t, first, NilNode);
      RunOfNone(sel, t, patches);
      assert FailsAt(sel, t, patches, 0, e) <==> ApplyOne(sel, t, first) == Unpatched(e);
      if ApplyOne(sel, t, first) == Unpatched(NilNode) {
        PanicsAtOnce(sel, t, patches, e);
      } else {
        RunFailsExactly(sel, AfterOne(sel, t, first), rest, e);
        LaterFailures(sel, t, patches, e);
      }
    }
  }

  lemma PanicsAtOnce(sel: Selector, t: Tree, patches: seq<Patch>, e: PatchError)
    requires patches != [] && ApplyOne(sel, t, patches[0]) == Unpatched(NilNode)
    ensures forall k: nat | 0 < k < |patches| :: !FailsAt(sel, t, patches, k, e)
  {
    forall k: nat | 0 < k < |patches|
      ensures RunPatches(sel, t, patches[..k]).panicked
    {
      assert patches[..k][0] == patches[0];
    }
  }

  lemma LaterFailures(sel: Selector, t: Tree, patches: seq<Patch>, e: PatchError)
    requires patches != [] && ApplyOne(sel, t, patches[0]) != Unpatched(NilNode)
    ensures var t', rest := AfterOne(sel, t, patches[0]), patches[1..];
            (exists k: nat | 0 < k < |patches| :: FailsAt(sel, t, patches, k, e))
            <==> (exists k: nat | k < |rest| :: FailsAt(sel, t', rest, k, e))
  {
    hide Fails, RunPatches, AfterOne;
    var t', rest := AfterOne(sel, t, patches[0]), patches[1..];
    forall k: nat | 0 < k < |patches|
      ensures FailsAt(sel, t, patches, k, e) <==> FailsAt(sel, t', rest, k - 1, e)
    {
      RunFirst(sel, t, patches, k);
    }
    if k: nat :| k < |rest| && FailsAt(sel, t', rest, k, e) {
      assert FailsAt(sel, t, patches, k + 1, e);
    }
  }

  function AfterOne(sel: Selector, t: Tree, patch: Patch): Tree {
    match ApplyOne(sel, t, patch)
    case Patched(t') => t'
    case Unpatched(_) => t
  }

  lemma RunOfNone(sel: Selector, t: Tree, patches: seq<Patch>)
    ensures RunPatches(sel, t, patches[..0]) == Run(t, [], false)
  {
  }

  lemma RunFirst(sel: Selector, t: Tree, patches: seq<Patch>, k: nat)
    requires 1 <= k <= |patches| && ApplyOne(sel, t, patches[0]) != Unpatched(NilNode)
    ensures var r := RunPatches(sel, t, patches[..k]);
            var r' := RunPatches(sel, AfterOne(sel, t, patches[0]), patches[1..][..k - 1]);
            r.panicked == r'.panicked && r.tree == r'.tree
  {
    assert patches[..k][1..] == patches[1..][..k - 1] && patches[..k][0] == patches[0];
  }

  lemma {:induction false} NilNodeIsNoError(sel: Selector, t: Tree, patches: seq<Patch>)
    ensures NilNode !in RunPatches(sel, t, patches).errors
    decreases |patches|
  {
    hide ApplyOne;
    if patches != [] {
      NilNodeIsNoError(sel, AfterOne(sel, t, patches[0]), patches[1..]);
    }
  }

  /** All patches of a list take effect exactly if none of them fails. */
  lemma RunSucceedsExactly(sel: Selector, t: Tree, patches: seq<Patch>)
    ensures var run := RunPatches(sel, t, patches);
            run.errors == [] && !run.panicked
            <==> forall k: nat, e | k < |patches| :: !FailsAt(sel, t, patches, k, e)
  {
    hide FailsAt, RunPatches;
    var run := RunPatches(sel, t, patches);
    NilNodeIsNoError(sel, t, patches);
    if run.errors == [] && !run.panicked {
      forall k: nat, e | k < |patches|
        ensures !FailsAt(sel, t, patches, k, e)
      {
        RunFailsExactly(sel, t, patches, e);
      }
    } else {
      RunFailsExactly(sel, t, patches, if run.panicked then NilNode else run.errors[0]);
    }
  }

  ghost predicate Panics(sel: Selector, t: Tree, patch: Patch) {
    if patch.path == [] then !patch.value.Null? else MeetsNull(sel, t, patch.path)
  }

  /** A list of patches panics exactly if one of them leads through a null node of what those before it have made. */
  lemma RunPanicsExactly(sel: Selector, t: Tree, patches: seq<Patch>)
    ensures RunPatches(sel, t, patches).panicked
            <==> exists k: nat | k < |patches| ::
                   !RunPatches(sel, t, patches[..k]).panicked
                   && Panics(sel, RunPatches(sel, t, patches[..k]).tree, patches[k])
  {
    RunFailsExactly(sel, t, patches, NilNode);
    forall k: nat | k < |patches|
      ensures FailsAt(sel, t, patches, k, NilNode)
              <==> !RunPatches(sel, t, patches[..k]).panicked
                   && Panics(sel, RunPatches(sel, t, patches[..k]).tree, patches[k])
    {
      var before, patch := RunPatches(sel, t, patches[..k]).tree, patches[k];
      FailsExactly(sel, before, patch, NilNode);
      if patch.path != [] {
        PanicsAtNull(sel, before, patch.path, patch.value, patch.cell);
      }
    }
  }

  /** It happens: in an empty document the patch of a.b panics, and no error was reported. */
  lemma PanicExample(sel: Selector, cell: Ref)
    ensures RunPatches(sel, Map(map[]), [Patch(["a", "b"], Leaf(Str("x")), cell)]) == Run(Map(map[]), [], true)
  {
    var t, path := Map(map[]), ["a", "b"];
    assert path[1..] == ["b"] && Get(t, "a") == Null;
    assert SetAt(sel, Null, ["b"], Leaf(Str("x")), cell) == Unpatched(NilNode);
  }

  /** After a patch of a with an empty map, the patch of a.b.c is an error: what would be null is not looked at. */
  lemma BelowEmptyMapExample(sel: Selector, cell: Ref)
    ensures var patches := [Patch(["a"], JsonMap(map[]), cell), Patch(["a", "b", "c"], Leaf(Str("x")), cell)];
            RunPatches(sel, Map(map[]), patches) == Run(Map(map[Str("a") := JsonMap(map[])]), [LeafInPath], false)
  {
    BelowMapOfA(sel, map[], Patch(["a", "b", "c"], Leaf(Str("x")), cell), cell);
  }

  /** After a patch of a with the map of b to 1, the patch of a.b is an error, though the key b is there. */
  lemma BelowMapExample(sel: Selector, cell: Ref)
    ensures var a := JsonMap(map["b" := Leaf(Str("1"))]);
            var patches := [Patch(["a"], a, cell), Patch(["a", "b"], Leaf(Str("2")), cell)];
            RunPatches(sel, Map(map[]), patches) == Run(Map(map[Str("a") := a]), [LeafInPath], false)
  {
    BelowMapOfA(sel, map["b" := Leaf(Str("1"))], Patch(["a", "b"], Leaf(Str("2")), cell), cell);
  }

  lemma BelowMapOfA(sel: Selector, fields: map<string, Tree>, second: Patch, cell: Ref)
    requires IsJson(JsonMap(fields)) && |second.path| > 1 && second.path[0] == "a"
    ensures RunPatches(sel, Map(map[]), [Patch(["a"], JsonMap(fields), cell), second])
            == Run(Map(map[Str("a") := JsonMap(fields)]), [LeafInPath], false)
  {
    var t, a := Map(map[]), Patch(["a"], JsonMap(fields), cell);
    var t' := Map(map[Str("a") := JsonMap(fields)]);
    assert ApplyOne(sel, t, a) == Patched(t');
    assert Get(t', "a") == JsonMap(fields);
    assert SetAt(sel, JsonMap(fields), second.path[1..], second.value, second.cell) == Unpatched(LeafInPath);
    assert ApplyOne(sel, t', second) == Unpatched(LeafInPath);
    assert [a, second][1..] == [second] && [second][1..] == [];
    assert RunPatches(sel, t', [second]) == Run(t', [LeafInPath], false);
  }
}
