/** Patches of list elements, with the selectors `[value]` and `[key:value]` written out. */
module PatchLists {
  import opened Paths
  import opened Addresses
  import opened GoHeap
  import opened PatchSpec

  /** How an element prints. */
  function Shown(sel: Selector, e: Tree): string {
    if e.Null? then "<nil>" else if e.Leaf? then e.scalar.text else sel.sprint(e)
  }

  /** How the entry of a map under `key` prints; a missing one prints like nil. */
  function ShownUnder(sel: Selector, e: Tree, key: string): string
    requires e.Map?
  {
    if Str(key) in e.entries then Shown(sel, e.entries[Str(key)]) else "<nil>"
  }

  /** The list without element `i`, or with `value` there. */
  function Edited(list: Tree, i: nat, value: Tree, cell: Ref): Tree
    requires IsListTree(list) && i < |list.elements|
  {
    if !value.Null? then list.(elements := list.elements[i := value])
    else Boxed(if list.Boxed? then list.cell else cell, list.elements[..i] + list.elements[i + 1..])
  }

  lemma {:induction false} FirstMatch(sel: Selector, es: seq<Tree>, pe: string, from: nat, i: nat)
    requires from <= i < |es| && Matches(sel, es[i], pe) == Yes
    requires forall j | from <= j < i :: Matches(sel, es[j], pe) == No
    ensures FindEntry(sel, es, pe, from) == Found(i)
    decreases i - from
  {
    if from < i {
      FirstMatch(sel, es, pe, from + 1, i);
    }
  }

  lemma {:induction false} NoMatch(sel: Selector, es: seq<Tree>, pe: string, from: nat)
    requires from <= |es| && forall j | from <= j < |es| :: Matches(sel, es[j], pe) == No
    ensures FindEntry(sel, es, pe, from) == Missing
    decreases |es| - from
  {
    if from < |es| {
      NoMatch(sel, es, pe, from + 1);
    }
  }

  // ---- [value]

  /** Of a list of scalars, `[v]` selects the first whose text the regular expression `v` matches. */
  lemma LeafListPatch(sel: Selector, t: Tree, key: string, v: string, i: nat, value: Tree, cell: Ref)
    requires t.Map? && Str(key) in t.entries && IsListTree(t.entries[Str(key)]) && v != ""
    requires var es := t.entries[Str(key)].elements;
             && i < |es| && (forall j | 0 <= j <= i :: es[j].Null? || es[j].Leaf?)
             && sel.regex(v, Shown(sel, es[i])) && forall j | 0 <= j < i :: !sel.regex(v, Shown(sel, es[j]))
    ensures SetAt(sel, t, [key, "[" + v + "]"], value, cell)
            == Patched(Map(t.entries[Str(key) := Edited(t.entries[Str(key)], i, value, cell)]))
  {
    var pe := "[" + v + "]";
    VRoundTrip(v, pe);
    FirstMatch(sel, t.entries[Str(key)].elements, pe, 0, i);
    HereInList(sel, t, key, pe, i, value, cell);
  }

  /** If it matches none of them, the patch is an error. */
  lemma LeafListMisses(sel: Selector, t: Tree, key: string, v: string, value: Tree, cell: Ref)
    requires t.Map? && Str(key) in t.entries && IsListTree(t.entries[Str(key)]) && v != ""
    requires var es := t.entries[Str(key)].elements;
             forall j | 0 <= j < |es| :: (es[j].Null? || es[j].Leaf?) && !sel.regex(v, Shown(sel, es[j]))
    ensures SetAt(sel, t, [key, "[" + v + "]"], value, cell) == Unpatched(NotFound)
  {
    var pe := "[" + v + "]";
    VRoundTrip(v, pe);
    NoMatch(sel, t.entries[Str(key)].elements, pe, 0);
    assert [key, pe][1..] == [pe];
  }

  lemma HereInList(sel: Selector, t: Tree, key: string, pe: string, i: nat, value: Tree, cell: Ref)
    requires t.Map? && Str(key) in t.entries && IsListTree(t.entries[Str(key)])
    requires FindEntry(sel, t.entries[Str(key)].elements, pe) == Found(i)
    ensures SetAt(sel, t, [key, pe], value, cell)
            == Patched(Map(t.entries[Str(key) := Edited(t.entries[Str(key)], i, value, cell)]))
  {
    assert [key, pe][1..] == [pe];
  }

  // ---- [key:value]

  /** Of a list of maps, `[k:v]` selects the first whose entry under `k` prints as `v`. */
  lemma KeyedListPatch(sel: Selector, t: Tree, key: string, k: string, v: string, i: nat, value: Tree, cell: Ref)
    requires t.Map? && Str(key) in t.entries && IsListTree(t.entries[Str(key)]) && IsSelector(k, v)
    requires var es := t.entries[Str(key)].elements;
             && i < |es| && (forall j | 0 <= j <= i :: es[j].Map?)
             && ShownUnder(sel, es[i], k) == v && forall j | 0 <= j < i :: ShownUnder(sel, es[j], k) != v
    ensures SetAt(sel, t, [key, "[" + k + ":" + v + "]"], value, cell)
            == Patched(Map(t.entries[Str(key) := Edited(t.entries[Str(key)], i, value, cell)]))
  {
    hide SetAt, FindEntry, IsSelector;
    var pe := "[" + k + ":" + v + "]";
    SelectsFirst(sel, t.entries[Str(key)].elements, k, v, i);
    HereInList(sel, t, key, pe, i, value, cell);
  }

  /** A path that goes on behind the selector goes on in that element. */
  lemma BelowKeyedElement(sel: Selector, t: Tree, key: string, k: string, v: string, i: nat, rest: Path, value: Tree,
                          cell: Ref)
    requires t.Map? && Str(key) in t.entries && IsListTree(t.entries[Str(key)]) && IsSelector(k, v) && rest != []
    requires var es := t.entries[Str(key)].elements;
             && i < |es| && (forall j | 0 <= j <= i :: es[j].Map?)
             && ShownUnder(sel, es[i], k) == v && forall j | 0 <= j < i :: ShownUnder(sel, es[j], k) != v
    ensures var list := t.entries[Str(key)];
            SetAt(sel, t, [key, "[" + k + ":" + v + "]"] + rest, value, cell)
            == match SetAt(sel, list.elements[i], rest, value, cell)
               case Unpatched(e) => Unpatched(e)
               case Patched(e) => Patched(Map(t.entries[Str(key) := list.(elements := list.elements[i := e])]))
  {
    hide SetAt, FindEntry, IsSelector;
    var pe := "[" + k + ":" + v + "]";
    SelectsFirst(sel, t.entries[Str(key)].elements, k, v, i);
    BelowInList(sel, t, key, pe, i, rest, value, cell);
  }

  lemma SelectsFirst(sel: Selector, es: seq<Tree>, k: string, v: string, i: nat)
    requires IsSelector(k, v) && i < |es| && (forall j | 0 <= j <= i :: es[j].Map?)
    requires ShownUnder(sel, es[i], k) == v && forall j | 0 <= j < i :: ShownUnder(sel, es[j], k) != v
    ensures FindEntry(sel, es, "[" + k + ":" + v + "]") == Found(i)
  {
    hide PathKV, IsSelector, FindEntry;
    SelectorParses(k, v);
    FirstMatch(sel, es, "[" + k + ":" + v + "]", 0, i);
  }

  lemma BelowInList(sel: Selector, t: Tree, key: string, pe: string, i: nat, rest: Path, value: Tree, cell: Ref)
    requires t.Map? && Str(key) in t.entries && IsListTree(t.entries[Str(key)]) && rest != []
    requires FindEntry(sel, t.entries[Str(key)].elements, pe) == Found(i) && t.entries[Str(key)].elements[i].Map?
    ensures var list := t.entries[Str(key)];
            SetAt(sel, t, [key, pe] + rest, value, cell)
            == match SetAt(sel, list.elements[i], rest, value, cell)
               case Unpatched(e) => Unpatched(e)
               case Patched(e) => Patched(Map(t.entries[Str(key) := list.(elements := list.elements[i := e])]))
  {
    hide FindEntry;
    var path := [key, pe] + rest;
    assert path[1..] == [pe] + rest && path[1..][1..] == rest;
    var list := t.entries[Str(key)];
    assert SetAt(sel, list.elements[i], rest, value, cell, true) == SetAt(sel, list.elements[i], rest, value, cell);
  }

  // ---- Malformed selectors, and plain keys

  /**
   An element without a colon selects nothing in a list that begins with a map, and one without brackets in no list.
   */
  lemma MalformedSelectors(sel: Selector, t: Tree, key: string, pe: string, rest: Path, value: Tree, cell: Ref)
    requires t.Map? && Str(key) in t.entries && IsListTree(t.entries[Str(key)]) && t.entries[Str(key)].elements != []
    requires (t.entries[Str(key)].elements[0].Map? && ':' !in pe) || pe == "" || pe[0] != '[' || pe[|pe| - 1] != ']'
    ensures SetAt(sel, t, [key, pe] + rest, value, cell) == Unpatched(BadPathElement)
  {
    var path := [key, pe] + rest;
    KVForm(pe);
    VRoundTrip("", pe);
    assert path[1..] == [pe] + rest;
    assert Matches(sel, t.entries[Str(key)].elements[0], pe) == Malformed;
  }

  /** A plain key is set in its map, which nil leaves alone; a longer path goes on in what is under it. */
  lemma PlainKeyPatch(sel: Selector, t: Tree, key: string, rest: Path, value: Tree, cell: Ref)
    requires t.Map?
    ensures rest == [] ==>
              SetAt(sel, t, [key] + rest, value, cell)
              == Patched(if value.Null? then t else Map(t.entries[Str(key) := value]))
    ensures rest != [] ==>
              SetAt(sel, t, [key] + rest, value, cell)
              == match SetAt(sel, if Str(key) in t.entries then t.entries[Str(key)] else Null, rest, value, cell)
                 case Unpatched(e) => Unpatched(e)
                 case Patched(child) => Patched(Map(t.entries[Str(key) := child]))
  {
    var path := [key] + rest;
    assert path[1..] == rest;
  }

  /**
   A nil value at the text of an argument removes it from the command of the container that is selected by its name.
   */
  lemma RemoveArgumentExample(sel: Selector, cell: Ref)
    requires sel.regex("--validation", "--validation") && !sel.regex("--validation", "--meshConfigFile")
    ensures var command := List([Leaf(Str("--meshConfigFile")), Leaf(Str("--validation"))]);
            var galley := map[Str("name") := Leaf(Str("galley")), Str("command") := command];
            var other := Map(map[Str("name") := Leaf(Str("other"))]);
            SetAt(sel, Map(map[Str("containers") := List([other, Map(galley)])]),
                  ["containers", "[name:galley]", "command", "[--validation]"], Null, cell)
            == Patched(Map(map[Str("containers") :=
                 List([other, Map(galley[Str("command") := Boxed(cell, [Leaf(Str("--meshConfigFile"))])])])]))
  {
    hide SetAt, IsSelector;
    var mesh, validation := Leaf(Str("--meshConfigFile")), Leaf(Str("--validation"));
    var command := List([mesh, validation]);
    var galley := map[Str("name") := Leaf(Str("galley")), Str("command") := command];
    var galley' := galley[Str("command") := Boxed(cell, [mesh])];
    var other := Map(map[Str("name") := Leaf(Str("other"))]);
    var t := Map(map[Str("containers") := List([other, Map(galley)])]);
    Texts();
    var rest := ["command", "[--validation]"];
    assert Edited(command, 1, Null, cell) == Boxed(cell, [mesh]);
    LeafListPatch(sel, Map(galley), "command", "--validation", 1, Null, cell);
    assert ShownUnder(sel, other, "name") == "other" && ShownUnder(sel, Map(galley), "name") == "galley";
    BelowKeyedElement(sel, t, "containers", "name", "galley", 1, rest, Null, cell);
    assert ["containers", "[name:galley]"] + rest == ["containers", "[name:galley]", "command", "[--validation]"];
    assert t.entries[Str("containers") := List([other, Map(galley')])]
           == map[Str("containers") := List([other, Map(galley')])];
    assert [other, Map(galley)][1 := Map(galley')] == [other, Map(galley')];
  }

  lemma Texts()
    ensures "[" + "name" + ":" + "galley" + "]" == "[name:galley]" && "[" + "--validation" + "]" == "[--validation]"
    ensures IsSelector("name", "galley") && "--validation" != ""
    ensures Str("name") != Str("command") && "other" != "galley"
  {
  }
}
