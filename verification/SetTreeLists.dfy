/** What a set does step by step, with the selector `[key:value]` written out. */
module SetTreeLists {
  import opened Options
  import opened Paths
  import opened Addresses
  import opened GoHeap
  import opened SetTreeSpec

  /** The element is a map that has the string `v` under `k`. */
  predicate Has(e: Tree, k: string, v: string) {
    e.Map? && Str(k) in e.entries && e.entries[Str(k)] == Leaf(Scalar(0, v))
  }

  function ListUnder(t: Tree, key: string): seq<Tree>
    requires IsListUnder(t, key)
  {
    t.entries[Str(key)].elements
  }

  predicate IsListUnder(t: Tree, key: string) {
    t.Map? && Str(key) in t.entries && t.entries[Str(key)].List?
  }

  /** `t` with another list under the key. */
  function WithList(t: Tree, key: string, es: seq<Tree>): Tree
    requires t.Map?
  {
    Map(t.entries[Str(key) := List(es)])
  }

  lemma {:induction false} FirstSelected(es: seq<Tree>, k: string, v: string, from: nat, i: nat)
    requires from <= i < |es| && Has(es[i], k, v) && forall j | from <= j < i :: es[j].Map? && !Has(es[j], k, v)
    ensures Find(es, k, v, from) == Found(i)
    decreases i - from
  {
    if from < i {
      FirstSelected(es, k, v, from + 1, i);
    }
  }

  lemma {:induction false} NoneSelected(es: seq<Tree>, k: string, v: string, from: nat)
    requires from <= |es| && forall j | from <= j < |es| :: es[j].Map? && !Has(es[j], k, v)
    ensures Find(es, k, v, from) == Missing
    decreases |es| - from
  {
    if from < |es| {
      NoneSelected(es, k, v, from + 1);
    }
  }

  lemma {:induction false} NotSearched(es: seq<Tree>, k: string, v: string, from: nat, i: nat)
    requires from <= i < |es| && !es[i].Map? && forall j | from <= j < i :: es[j].Map? && !Has(es[j], k, v)
    ensures Find(es, k, v, from) == Unsearchable
    decreases i - from
  {
    if from < i {
      NotSearched(es, k, v, from + 1, i);
    }
  }

  lemma IntoList(t: Tree, key: string, pe: string, rest: Path, value: Tree, pick: Scalar)
    requires IsListUnder(t, key) && PicksRoot(value, pick)
    ensures var inner := SetInList(ListUnder(t, key), [pe] + rest, value, pick);
            SetTree(t, [key, pe] + rest, value, pick)
            == Outcome(Map(t.entries[Str(key) := inner.tree]), inner.error)
  {
    var path := [key, pe] + rest;
    assert path[1..] == [pe] + rest;
  }

  // ---- A selected element

  /** The path goes on in the first element that has `v` under `k`. */
  lemma SetBelowElement(t: Tree, key: string, k: string, v: string, i: nat, rest: Path, value: Tree, pick: Scalar)
    requires IsListUnder(t, key) && IsSelector(k, v) && PicksRoot(value, pick) && rest != []
    requires var es := ListUnder(t, key);
             i < |es| && Has(es[i], k, v) && forall j | 0 <= j < i :: es[j].Map? && !Has(es[j], k, v)
    ensures var es := ListUnder(t, key);
            var inner := SetTree(es[i], rest, value, pick);
            SetTree(t, [key, "[" + k + ":" + v + "]"] + rest, value, pick)
            == Outcome(WithList(t, key, es[i := inner.tree]), inner.error)
  {
    var pe := "[" + k + ":" + v + "]";
    KVRoundTrip(k, v);
    FirstSelected(ListUnder(t, key), k, v, 0, i);
    IntoList(t, key, pe, rest, value, pick);
    assert ([pe] + rest)[1..] == rest;
  }

  /** A path that ends at the element stores an entry of the value in it: a value that is no map is an error. */
  lemma SetAtElement(t: Tree, key: string, k: string, v: string, i: nat, value: Tree, pick: Scalar)
    requires IsListUnder(t, key) && IsSelector(k, v) && PicksRoot(value, pick)
    requires var es := ListUnder(t, key);
             i < |es| && Has(es[i], k, v) && forall j | 0 <= j < i :: es[j].Map? && !Has(es[j], k, v)
    ensures var es := ListUnder(t, key);
            SetTree(t, [key, "[" + k + ":" + v + "]"], value, pick)
            == if !value.Map? then Outcome(t, Some(ValueNotMap))
               else
                 var entry := if value.entries == map[] then map[Scalar(0, "") := Null]
                              else map[pick := value.entries[pick]];
                 Outcome(WithList(t, key, es[i := Map(es[i].entries + entry)]), None)
  {
    var pe := "[" + k + ":" + v + "]";
    var es := ListUnder(t, key);
    KVRoundTrip(k, v);
    FirstSelected(es, k, v, 0, i);
    IntoList(t, key, pe, [], value, pick);
    assert [key, pe] + [] == [key, pe] && [pe] + [] == [pe];
    if !value.Map? {
      assert es[i := es[i]] == es && t.entries[Str(key) := List(es)] == t.entries;
    } else if value.entries == map[] {
      assert es[i].entries + map[Scalar(0, "") := Null] == es[i].entries[Str("") := Null];
    } else {
      assert es[i].entries + map[pick := value.entries[pick]] == es[i].entries[pick := value.entries[pick]];
    }
  }

  // ---- No selected element

  /** If no element has `v` under `k`, one that has just that is appended, and the path goes on there. */
  lemma SetBehindList(t: Tree, key: string, k: string, v: string, rest: Path, value: Tree, pick: Scalar)
    requires IsListUnder(t, key) && IsSelector(k, v) && PicksRoot(value, pick)
    requires forall j | 0 <= j < |ListUnder(t, key)| :: ListUnder(t, key)[j].Map? && !Has(ListUnder(t, key)[j], k, v)
    ensures var es, e := ListUnder(t, key), Map(map[Str(k) := Leaf(Scalar(0, v))]);
            var inner := if rest == [] then Outcome(e, None) else SetTree(e, rest, value, pick);
            SetTree(t, [key, "[" + k + ":" + v + "]"] + rest, value, pick)
            == Outcome(WithList(t, key, es + [inner.tree]), inner.error)
  {
    var pe := "[" + k + ":" + v + "]";
    KVRoundTrip(k, v);
    NoneSelected(ListUnder(t, key), k, v, 0);
    IntoList(t, key, pe, rest, value, pick);
    assert ([pe] + rest)[1..] == rest;
  }

  /** An element that is no map ends the search with an error, and one without a colon or brackets begins none. */
  lemma SetFailsInList(t: Tree, key: string, k: string, v: string, i: nat, pe: string, rest: Path, value: Tree,
                       pick: Scalar)
    requires IsListUnder(t, key) && PicksRoot(value, pick)
    ensures IsSelector(k, v) && i < |ListUnder(t, key)| && !ListUnder(t, key)[i].Map?
            && (forall j | 0 <= j < i :: ListUnder(t, key)[j].Map? && !Has(ListUnder(t, key)[j], k, v)) ==>
              SetTree(t, [key, "[" + k + ":" + v + "]"] + rest, value, pick) == Outcome(t, Some(ElementNotMap))
    ensures ':' !in pe || pe[0] != '[' || pe[|pe| - 1] != ']' ==>
              SetTree(t, [key, pe] + rest, value, pick) == Outcome(t, Some(BadElement))
  {
    var es := ListUnder(t, key);
    assert Map(t.entries[Str(key) := List(es)]) == t by {
      assert t.entries[Str(key) := List(es)] == t.entries;
    }
    if IsSelector(k, v) && i < |es| && !es[i].Map? && (forall j | 0 <= j < i :: es[j].Map? && !Has(es[j], k, v)) {
      KVRoundTrip(k, v);
      NotSearched(es, k, v, 0, i);
      IntoList(t, key, "[" + k + ":" + v + "]", rest, value, pick);
    }
    KVForm(pe);
    IntoList(t, key, pe, rest, value, pick);
  }

  // ---- Plain keys

  /**
   The last key is set, whatever it held; before that, a missing or nil child is a new map, and a scalar is an error.
   */
  lemma SetPlainKey(t: Tree, key: string, rest: Path, value: Tree, pick: Scalar)
    requires t.Map? && PicksRoot(value, pick)
    ensures rest == [] ==> SetTree(t, [key] + rest, value, pick) == Outcome(Map(t.entries[Str(key) := value]), None)
    ensures rest != [] && (Str(key) !in t.entries || t.entries[Str(key)].Null?) ==>
              var inner := SetTree(Map(map[]), rest, value, pick);
              SetTree(t, [key] + rest, value, pick) == Outcome(Map(t.entries[Str(key) := inner.tree]), inner.error)
    ensures rest != [] && Str(key) in t.entries && t.entries[Str(key)].Map? ==>
              var inner := SetTree(t.entries[Str(key)], rest, value, pick);
              SetTree(t, [key] + rest, value, pick) == Outcome(Map(t.entries[Str(key) := inner.tree]), inner.error)
  {
    assert ([key] + rest)[1..] == rest;
  }

  /** A scalar before the end is an error, unless the end is next: then the value takes its place. */
  lemma SetBelowScalar(t: Tree, key: string, rest: Path, value: Tree, pick: Scalar)
    requires t.Map? && PicksRoot(value, pick) && rest != []
    requires Str(key) in t.entries && t.entries[Str(key)].Leaf?
    ensures SetTree(t, [key] + rest, value, pick)
            == if |rest| == 1 then Outcome(Map(t.entries[Str(key) := value]), None) else Outcome(t, Some(ScalarInPath))
    ensures SetTree(t, [], value, pick) == Outcome(t, Some(EmptyPath))
  {
    assert ([key] + rest)[1..] == rest;
  }

  // ---- Two lists in one path

  function Inner(i1: string): Tree {
    Map(map[Str("i1") := Leaf(Str(i1))])
  }

  function Element(below: Tree): Tree {
    Map(map[Str("i3a") := Leaf(Str("key1")), Str("i3b") := below])
  }

  function List2(i1: string): Tree {
    Map(map[Str("list2") := List([Inner("val1"), Map(map[Str("i2") := Leaf(Str("val2"))]), Element(Inner(i1))])])
  }

  function List1(i1: string): Tree {
    Map(map[Str("c") := Leaf(Str("val1")),
            Str("list1") := List([Inner("val1"), Map(map[Str("i2") := Leaf(Str("val2"))]), Element(List2(i1))])])
  }

  function Document(i1: string): Tree {
    Map(map[Str("a") := Map(map[Str("b") := List1(i1)])])
  }

  /** The value below a selected element of a list, below a selected element of a list. */
  lemma ListKeysExample(pick: Scalar)
    ensures SetTree(Document("va11"), ["a", "b", "list1", "[i3a:key1]", "i3b", "list2", "[i3a:key1]", "i3b", "i1"],
                    Leaf(Str("val2")), pick)
            == Outcome(Document("val2"), None)
  {
    hide SetTree, List2, List1;
    var value := Leaf(Str("val2"));
    var below2 := ["i3b", "i1"];
    var below1 := ["i3b", "list2", "[i3a:key1]"] + below2;
    SetInner(pick);
    SetInList2(pick);
    SetInList1(pick);
    var path := ["list1", "[i3a:key1]"] + below1;
    SetPlainKey(Map(map[Str("b") := List1("va11")]), "b", path, value, pick);
    assert map[Str("b") := List1("va11")][Str("b") := List1("val2")] == map[Str("b") := List1("val2")];
    SetPlainKey(Document("va11"), "a", ["b"] + path, value, pick);
    assert Document("va11").entries[Str("a") := Map(map[Str("b") := List1("val2")])] == Document("val2").entries;
    assert ["a"] + (["b"] + path)
           == ["a", "b", "list1", "[i3a:key1]", "i3b", "list2", "[i3a:key1]", "i3b", "i1"];
  }

  lemma SetInner(pick: Scalar)
    ensures SetTree(Element(Inner("va11")), ["i3b", "i1"], Leaf(Str("val2")), pick)
            == Outcome(Element(Inner("val2")), None)
  {
    hide SetTree;
    var value := Leaf(Str("val2"));
    SetPlainKey(Inner("va11"), "i1", [], value, pick);
    assert Inner("va11").entries[Str("i1") := value] == Inner("val2").entries && ["i1"] + [] == ["i1"];
    SetPlainKey(Element(Inner("va11")), "i3b", ["i1"], value, pick);
    ElementReplaced(Inner("va11"), Inner("val2"));
    assert ["i3b"] + ["i1"] == ["i3b", "i1"];
  }

  lemma ElementReplaced(below: Tree, below': Tree)
    ensures Element(below).Map? && Str("i3b") in Element(below).entries && Element(below).entries[Str("i3b")] == below
    ensures Element(below).entries[Str("i3b") := below'] == Element(below').entries
    ensures Has(Element(below), "i3a", "key1") && IsSelector("i3a", "key1")
    ensures "[" + "i3a" + ":" + "key1" + "]" == "[i3a:key1]"
    ensures !Has(Inner("val1"), "i3a", "key1") && !Has(Map(map[Str("i2") := Leaf(Str("val2"))]), "i3a", "key1")
  {
    assert Str("i3a") != Str("i3b") && Str("i3a") != Str("i1") && Str("i3a") != Str("i2");
  }

  lemma SetInList2(pick: Scalar)
    requires SetTree(Element(Inner("va11")), ["i3b", "i1"], Leaf(Str("val2")), pick)
             == Outcome(Element(Inner("val2")), None)
    ensures SetTree(Element(List2("va11")), ["i3b", "list2", "[i3a:key1]"] + ["i3b", "i1"], Leaf(Str("val2")), pick)
            == Outcome(Element(List2("val2")), None)
  {
    hide SetTree, IsSelector, Has;
    var value, rest := Leaf(Str("val2")), ["i3b", "i1"];
    ElementReplaced(Inner("va11"), Inner("val2"));
    ElementReplaced(List2("va11"), List2("val2"));
    var es := ListUnder(List2("va11"), "list2");
    SetBelowElement(List2("va11"), "list2", "i3a", "key1", 2, rest, value, pick);
    assert es[2 := Element(Inner("val2"))] == ListUnder(List2("val2"), "list2");
    assert WithList(List2("va11"), "list2", es[2 := Element(Inner("val2"))]).entries == List2("val2").entries;
    var path := ["list2", "[i3a:key1]"] + rest;
    SetPlainKey(Element(List2("va11")), "i3b", path, value, pick);
    assert ["i3b"] + path == ["i3b", "list2", "[i3a:key1]"] + rest;
  }

  lemma SetInList1(pick: Scalar)
    requires SetTree(Element(List2("va11")), ["i3b", "list2", "[i3a:key1]"] + ["i3b", "i1"], Leaf(Str("val2")), pick)
             == Outcome(Element(List2("val2")), None)
    ensures var below1 := ["i3b", "list2", "[i3a:key1]"] + ["i3b", "i1"];
            SetTree(List1("va11"), ["list1", "[i3a:key1]"] + below1, Leaf(Str("val2")), pick)
            == Outcome(List1("val2"), None)
    ensures List1("va11").Map?
  {
    hide SetTree, IsSelector, Has, List2;
    ElementReplaced(List2("va11"), List2("val2"));
    var rest := ["i3b", "list2", "[i3a:key1]"] + ["i3b", "i1"];
    var es := ListUnder(List1("va11"), "list1");
    assert es[2] == Element(List2("va11"));
    SetBelowElement(List1("va11"), "list1", "i3a", "key1", 2, rest, Leaf(Str("val2")), pick);
    assert es[2 := Element(List2("val2"))] == ListUnder(List1("val2"), "list1");
    assert WithList(List1("va11"), "list1", es[2 := Element(List2("val2"))]).entries == List1("val2").entries;
  }
}
