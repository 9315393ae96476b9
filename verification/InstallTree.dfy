/** The install tree that is built from the dependency table, and the components that rendering it writes. */
module InstallTree {
  import opened ApplyProtocol
  import opened GoHeap
  import opened SetTreeSpec
  import opened SetTreeCode

  /** The components below `c` in the forest; every recursion into the table makes this smaller. */
  ghost function Higher(f: Forest, c: Component): set<Component> {
    set d | d in f.parent && f.Rank(d) > f.Rank(c)
  }

  lemma ChildIsHigher(f: Forest, c: Component, i: nat)
    requires f.Valid() && i < |f.Children(c)|
    ensures |Higher(f, f.Children(c)[i])| < |Higher(f, c)|
  {
    var d := f.Children(c)[i];
    assert d in Higher(f, c) && d !in Higher(f, d);
    assert Higher(f, d) < Higher(f, c);
    Smaller(Higher(f, d), Higher(f, c));
  }

  lemma Smaller<T>(s: set<T>, t: set<T>)
    requires s < t
    ensures |s| < |t|
  {
    var x :| x in t && x !in s;
    assert s <= t - {x};
    SubsetSize(s, t - {x});
  }

  lemma SubsetSize<T>(s: set<T>, t: set<T>)
    requires s <= t
    ensures |s| <= |t|
  {
    if s != {} {
      var x :| x in s;
      SubsetSize(s - {x}, t - {x});
    }
  }

  /** What stands under `c` in the install tree: its children, each with what stands under it. */
  ghost function Under(f: Forest, c: Component): (t: Tree)
    requires f.Valid()
    ensures t.Map?
    decreases |Higher(f, c)|, |f.Children(c)|, 1
  {
    WithChildren(f, c, |f.Children(c)|)
  }

  ghost function WithChildren(f: Forest, c: Component, n: nat): (t: Tree)
    requires f.Valid() && n <= |f.Children(c)|
    ensures t.Map?
    decreases |Higher(f, c)|, n, 0
  {
    hide Higher, Forest.Valid;
    if n == 0 then EMPTY_MAP
    else
      ChildIsHigher(f, c, n - 1);
      Put(WithChildren(f, c, n - 1), f.Children(c)[n - 1], Under(f, f.Children(c)[n - 1]))
  }

  /** A tree of maps, as a component tree is. */
  ghost predicate AllMaps(s: Shape)
    decreases s
  {
    s.SMap? && forall k | k in s.entries :: AllMaps(s.entries[k])
  }

  lemma EntryAllMaps(s: Shape, k: Scalar, t: Shape)
    requires AllMaps(s) && AllMaps(t)
    ensures AllMaps(WithEntry(s, k, t))
  {
  }

  lemma AllChildren(f: Forest, c: Component)
    requires f.Valid()
    ensures WithChildren(f, c, 0) == EMPTY_MAP && WithChildren(f, c, |f.Children(c)|) == Under(f, c)
  {
  }

  lemma OneMoreChild(f: Forest, c: Component, i: nat)
    requires f.Valid() && i < |f.Children(c)|
    ensures WithChildren(f, c, i + 1) == Put(WithChildren(f, c, i), f.Children(c)[i], Under(f, f.Children(c)[i]))
  {
  }

  /** `insertChildrenRecursive`: the component gets a new map, with its children in it. */
  method InsertChildrenRecursive(store: Store, c: Component, tree: Ref, f: Forest, ghost s: Shape)
    returns (ghost s': Shape)
    requires f.Valid() && store.Valid() && Document(store.heap, MapRef(tree), s) && s.SMap?
    modifies store
    ensures store.Valid() && Became(old(store.heap), store.heap, s, SNull, MapRef(tree), s') && s'.SMap?
    ensures Agree(old(store.heap), store.heap, old(store.heap).Keys - Foot(s))
    ensures Erase(s).Map? && Erase(s') == Put(Erase(s), c, Under(f, c))
    ensures AllMaps(s) ==> AllMaps(s')
    decreases |Higher(f, c)|, 1
  {
    hide Holds, Separate, Foot, NoCells, Put, NodeBuilt, Higher, AllMaps;
    ghost var h := store.heap;
    Kinds(h, MapRef(tree), s);
    MapParts(h, s, c);
    var node := store.New(MapObject(map[]));
    PutEntry(store, tree, Str(c), MapRef(node));
    ghost var h1, n := store.heap, SMap(node, map[]);
    EmptyNode(h1, node);
    n := InsertChildren(store, c, node, f, n);
    s' := WithEntry(s, Str(c), n);
    if AllMaps(s) {
      EntryAllMaps(s, Str(c), n);
    }
    NodeInserted(h, h1, store.heap, s, c, node, n);
  }

  /** The loop of `insertChildrenRecursive` over the children of `c`, into the new map `node`. */
  method InsertChildren(store: Store, c: Component, node: Ref, f: Forest, ghost empty: Shape) returns (ghost n: Shape)
    requires f.Valid() && store.Valid() && NodeBuilt(store.heap, store.heap, node, empty) && Erase(empty) == EMPTY_MAP
    requires AllMaps(empty)
    modifies store
    ensures store.Valid() && NodeBuilt(old(store.heap), store.heap, node, n) && Erase(n) == Under(f, c) && AllMaps(n)
    decreases |Higher(f, c)|, 0
  {
    hide AllMaps, Holds, Separate, Foot, NoCells, Put, NodeBuilt, Higher, WithChildren, Under, Erase;
    n := empty;
    var children := f.Children(c);
    AllChildren(f, c);
    for i := 0 to |children|
      invariant store.Valid() && NodeBuilt(old(store.heap), store.heap, node, n) && Erase(n) == WithChildren(f, c, i)
      invariant AllMaps(n)
    {
      ChildIsHigher(f, c, i);
      OneMoreChild(f, c, i);
      ghost var before, n0 := store.heap, n;
      NodeIsDocument(old(store.heap), before, node, n0);
      n := InsertChildrenRecursive(store, children[i], node, f, n);
      NodeGrown(old(store.heap), before, store.heap, node, n0, n);
    }
  }

  /** The new map `node` was filled, and no other object changed. */
  ghost predicate NodeBuilt(h1: Heap, h: Heap, node: Ref, n: Shape) {
    && n.SMap? && Document(h, MapRef(node), n) && node in h1 && h1.Keys <= h.Keys && Agree(h1, h, h1.Keys - {node})
    && Foot(n) <= {node} + (h.Keys - h1.Keys)
  }

  lemma EmptyNode(h: Heap, node: Ref)
    requires node in h && h[node] == MapObject(map[])
    ensures NodeBuilt(h, h, node, SMap(node, map[])) && Erase(SMap(node, map[])) == EMPTY_MAP && Foot(SNull) == {}
    ensures AllMaps(SMap(node, map[]))
  {
    assert Erase(SMap(node, map[])).entries == map[];
  }

  lemma NodeIsDocument(h1: Heap, h: Heap, node: Ref, n: Shape)
    requires NodeBuilt(h1, h, node, n)
    ensures n.SMap? && Document(h, MapRef(node), n)
  {
  }

  lemma NodeGrown(h1: Heap, h: Heap, h': Heap, node: Ref, n: Shape, n': Shape)
    requires NodeBuilt(h1, h, node, n) && Became(h, h', n, SNull, MapRef(node), n') && n'.SMap?
    requires Agree(h, h', h.Keys - Foot(n))
    ensures NodeBuilt(h1, h', node, n')
  {
    hide Holds, Separate, NoCells;
  }

  lemma NodeInserted(h: Heap, h1: Heap, h': Heap, s: Shape, c: Component, node: Ref, n: Shape)
    requires s.SMap? && Document(h, MapRef(s.ref), s) && s.ref in h && h[s.ref].MapObject? && node !in h
    requires h1 == h[node := MapObject(map[])][s.ref := MapObject(h[s.ref].entries[Str(c) := MapRef(node)])]
    requires NodeBuilt(h1, h', node, n) && Foot(SNull) == {}
    ensures Became(h, h', s, SNull, MapRef(s.ref), WithEntry(s, Str(c), n)) && Agree(h, h', h.Keys - Foot(s))
    ensures Erase(s).Map? && Erase(WithEntry(s, Str(c), n)) == Put(Erase(s), c, Erase(n))
  {
    hide Holds, Separate, Foot, NoCells;
    MapParts(h, s, c);
    BelowMap(h, h', s, c, SNull, MapRef(node), n);
  }

  // ---- Rendering

  /** Component `c` is written: it has a manifest, and so has every component between it and the root. */
  ghost predicate Reached(f: Forest, texts: map<Component, string>, root: Component, c: Component)
    requires f.Valid()
    decreases f.Rank(c)
  {
    && c in texts && texts[c] != ""
    && (c == root || (c in f.parent && Reached(f, texts, root, f.parent[c])))
  }

  predicate HasText(texts: map<Component, string>, c: Component) {
    c in texts && texts[c] != ""
  }

  /** The manifest of `c` is written for the tree `t`: for one of its keys, or below one, that has a manifest. */
  ghost predicate Rendered(texts: map<Component, string>, t: Tree, c: Component)
    decreases t
  {
    t.Map? && exists d :: Str(d) in t.entries && HasText(texts, d) && (c == d || Rendered(texts, t.entries[Str(d)], c))
  }

  /** `renderRecursive`, without the files: the components whose manifests it writes, in the order of some visit. */
  method RenderRecursive(store: Store, texts: map<Component, string>, tree: Ref, ghost s: Shape)
    returns (written: seq<Component>)
    requires s.SMap? && Document(store.heap, MapRef(tree), s)
    requires AllMaps(s)
    ensures forall c :: c in written <==> Rendered(texts, Erase(s), c)
    decreases s
  {
    hide Rendered, Holds, Separate, NoCells, Erase, RenderedFrom;
    written := [];
    Kinds(store.heap, MapRef(tree), s);
    TreeKeys(store.heap, s);
    NothingRendered(texts, Erase(s));
    var entries := store.heap[tree].entries;
    var ks := entries.Keys;
    assert entries.Keys - ks == {};
    while ks != {}
      invariant ks <= entries.Keys
      invariant forall c :: c in written <==> RenderedFrom(texts, Erase(s), entries.Keys - ks, c)
      decreases |ks|
    {
      var k :| k in ks;
      var componentName := k.text;
      EntryIsTree(store.heap, s, k);
      EntryRendered(texts, s, entries.Keys - ks, k);
      assert entries.Keys - (ks - {k}) == entries.Keys - ks + {k};
      ks := ks - {k};
      if k != Str(componentName) || !HasText(texts, componentName) {
        // No manifest: nothing is written for the component or below it.
        continue;
      }
      var below := RenderRecursive(store, texts, entries[k].ref, s.entries[k]);
      written := written + [componentName] + below;
    }
    assert entries.Keys - ks == entries.Keys;
    AllRendered(texts, s);
  }

  lemma TreeKeys(h: Heap, s: Shape)
    requires s.SMap? && Document(h, MapRef(s.ref), s)
    ensures s.ref in h && h[s.ref].MapObject? && h[s.ref].entries.Keys == s.entries.Keys
    ensures Erase(s).Map? && Erase(s).entries.Keys == s.entries.Keys
  {
  }

  lemma NothingRendered(texts: map<Component, string>, t: Tree)
    ensures forall c :: !RenderedFrom(texts, t, {}, c)
  {
  }

  lemma AllRendered(texts: map<Component, string>, s: Shape)
    requires s.SMap?
    ensures forall c :: Rendered(texts, Erase(s), c) <==> RenderedFrom(texts, Erase(s), s.entries.Keys, c)
  {
    assert Erase(s).entries.Keys == s.entries.Keys;
  }

  lemma EntryIsTree(h: Heap, s: Shape, k: Scalar)
    requires s.SMap? && Document(h, MapRef(s.ref), s) && AllMaps(s) && k in s.entries
    ensures s.ref in h && h[s.ref].MapObject? && h[s.ref].entries.Keys == s.entries.Keys
    ensures s.entries[k].SMap? && AllMaps(s.entries[k])
    ensures h[s.ref].entries[k] == MapRef(s.entries[k].ref) && Document(h, h[s.ref].entries[k], s.entries[k])
  {
    assert Holds(h, h[s.ref].entries[k], s.entries[k]);
    assert AllMaps(s.entries[k]);
  }

  /** Component `c` is written for one of the keys `ks` of the tree. */
  ghost predicate RenderedFrom(texts: map<Component, string>, t: Tree, ks: set<Scalar>, c: Component) {
    t.Map? && exists d :: Str(d) in ks && Str(d) in t.entries && HasText(texts, d)
                          && (c == d || Rendered(texts, t.entries[Str(d)], c))
  }

  lemma EntryRendered(texts: map<Component, string>, s: Shape, done: set<Scalar>, k: Scalar)
    requires s.SMap? && k in s.entries
    ensures forall c :: RenderedFrom(texts, Erase(s), done + {k}, c)
                        <==> RenderedFrom(texts, Erase(s), done, c)
                             || (k == Str(k.text) && HasText(texts, k.text)
                                 && (c == k.text || Rendered(texts, Erase(s.entries[k]), c)))
  {
    hide Rendered;
    var t := Erase(s);
    forall c
      ensures RenderedFrom(texts, t, done + {k}, c)
              <==> RenderedFrom(texts, t, done, c)
                   || (k == Str(k.text) && HasText(texts, k.text)
                       && (c == k.text || Rendered(texts, Erase(s.entries[k]), c)))
    {
      if RenderedFrom(texts, t, done + {k}, c) {
        var d :| Str(d) in done + {k} && Str(d) in t.entries && HasText(texts, d)
                 && (c == d || Rendered(texts, t.entries[Str(d)], c));
      }
    }
  }

  // ---- What is rendered is what would be applied

  /** Component `c` is strictly below `p`, and every component from there down to `c` has a manifest. */
  ghost predicate ReachedBelow(f: Forest, texts: map<Component, string>, p: Component, c: Component)
    requires f.Valid()
    decreases f.Rank(c)
  {
    HasText(texts, c) && c in f.parent && (f.parent[c] == p || ReachedBelow(f, texts, p, f.parent[c]))
  }

  /** `c` is the child number `i` of `p`, which has a manifest, or is reached below it. */
  ghost predicate ReachedThrough(f: Forest, texts: map<Component, string>, p: Component, i: nat, c: Component)
    requires f.Valid() && i < |f.Children(p)|
  {
    var child := f.Children(p)[i];
    HasText(texts, child) && (c == child || ReachedBelow(f, texts, child, c))
  }

  lemma {:induction false} ReachedThroughChild(f: Forest, texts: map<Component, string>, p: Component, c: Component)
    requires f.Valid()
    ensures ReachedBelow(f, texts, p, c) <==> exists i | 0 <= i < |f.Children(p)| :: ReachedThrough(f, texts, p, i, c)
    decreases f.Rank(c)
  {
    if HasText(texts, c) && c in f.parent {
      var q := f.parent[c];
      ReachedThroughChild(f, texts, p, q);
      if q == p {
        var i :| 0 <= i < |f.Children(p)| && f.Children(p)[i] == c;
        assert ReachedThrough(f, texts, p, i, c);
      } else if ReachedBelow(f, texts, p, q) {
        var i :| 0 <= i < |f.Children(p)| && ReachedThrough(f, texts, p, i, q);
        assert ReachedThrough(f, texts, p, i, c);
      }
      if i :| 0 <= i < |f.Children(p)| && ReachedThrough(f, texts, p, i, c) {
        var child := f.Children(p)[i];
        assert f.parent[child] == p;
        if c != child {
          assert ReachedThrough(f, texts, p, i, q);
        }
      }
    }
  }

  /** The entries of `t` are the first `n` children of `c`. */
  ghost predicate HoldsChildren(f: Forest, c: Component, n: nat, t: Tree)
    requires f.Valid() && n <= |f.Children(c)|
  {
    && t.Map? && (forall d :: Str(d) in t.entries <==> d in f.Children(c)[..n])
    && (forall i | 0 <= i < n ::
          var child := f.Children(c)[i]; Str(child) in t.entries && t.entries[Str(child)] == Under(f, child))
  }

  lemma {:induction false} ChildEntries(f: Forest, c: Component, n: nat)
    requires f.Valid() && n <= |f.Children(c)|
    ensures HoldsChildren(f, c, n, WithChildren(f, c, n))
    decreases n
  {
    hide Forest.Valid, WithChildren, Under;
    if n == 0 {
      AllChildren(f, c);
    } else {
      ChildEntries(f, c, n - 1);
      OneMoreChild(f, c, n - 1);
      ChildPut(f, c, n - 1, WithChildren(f, c, n - 1));
    }
  }

  lemma ChildPut(f: Forest, c: Component, n: nat, t: Tree)
    requires f.Valid() && n < |f.Children(c)| && HoldsChildren(f, c, n, t)
    ensures HoldsChildren(f, c, n + 1, Put(t, f.Children(c)[n], Under(f, f.Children(c)[n])))
  {
    hide Under;
    assert f.Children(c)[..n + 1] == f.Children(c)[..n] + [f.Children(c)[n]];
  }

  lemma {:induction false} RenderedUnder(f: Forest, texts: map<Component, string>, p: Component, c: Component)
    requires f.Valid()
    ensures Rendered(texts, Under(f, p), c) <==> ReachedBelow(f, texts, p, c)
    decreases |Higher(f, p)|
  {
    hide Higher, ReachedBelow, Under;
    var children, t := f.Children(p), Under(f, p);
    AllChildren(f, p);
    ChildEntries(f, p, |children|);
    assert children[..|children|] == children;
    forall i | 0 <= i < |children|
      ensures Rendered(texts, Under(f, children[i]), c) <==> ReachedBelow(f, texts, children[i], c)
    {
      ChildIsHigher(f, p, i);
      RenderedUnder(f, texts, children[i], c);
    }
    ReachedThroughChild(f, texts, p, c);
    RenderedOfChildren(f, texts, p, c, t);
  }

  lemma RenderedOfChildren(f: Forest, texts: map<Component, string>, p: Component, c: Component, t: Tree)
    requires f.Valid() && t.Map?
    requires forall d :: Str(d) in t.entries <==> d in f.Children(p)
    requires forall i | 0 <= i < |f.Children(p)| :: t.entries[Str(f.Children(p)[i])] == Under(f, f.Children(p)[i])
    requires forall i | 0 <= i < |f.Children(p)| ::
               Rendered(texts, Under(f, f.Children(p)[i]), c) <==> ReachedBelow(f, texts, f.Children(p)[i], c)
    ensures Rendered(texts, t, c) <==> exists i | 0 <= i < |f.Children(p)| :: ReachedThrough(f, texts, p, i, c)
  {
    hide ReachedBelow, Under;
    if Rendered(texts, t, c) {
      var d :| Str(d) in t.entries && HasText(texts, d) && (c == d || Rendered(texts, t.entries[Str(d)], c));
      var i :| 0 <= i < |f.Children(p)| && f.Children(p)[i] == d;
      assert ReachedThrough(f, texts, p, i, c);
    }
    if i :| 0 <= i < |f.Children(p)| && ReachedThrough(f, texts, p, i, c) {
      var d := f.Children(p)[i];
      assert Str(d) in t.entries;
    }
  }

  /** Rendering the install tree of `root` writes exactly the components that are reached from it. */
  lemma RenderedIsReached(f: Forest, texts: map<Component, string>, root: Component, c: Component)
    requires f.Valid() && root !in f.parent
    ensures Rendered(texts, Put(EMPTY_MAP, root, Under(f, root)), c) <==> Reached(f, texts, root, c)
  {
    var t := Put(EMPTY_MAP, root, Under(f, root));
    RenderedUnder(f, texts, root, c);
    ReachedFromRoot(f, texts, root, c);
    assert forall d :: Str(d) in t.entries <==> d == root;
    assert t.entries[Str(root)] == Under(f, root);
  }

  lemma {:induction false} ReachedFromRoot(f: Forest, texts: map<Component, string>, root: Component, c: Component)
    requires f.Valid() && root !in f.parent
    ensures Reached(f, texts, root, c) <==> HasText(texts, root) && (c == root || ReachedBelow(f, texts, root, c))
    decreases f.Rank(c)
  {
    if HasText(texts, c) && c in f.parent {
      ReachedFromRoot(f, texts, root, f.parent[c]);
    }
  }

  /** `buildInstallTree` and `RenderToDir`, without the files, for the components below a root. */
  method RenderToDir(f: Forest, texts: map<Component, string>, root: Component) returns (written: seq<Component>)
    requires f.Valid() && root !in f.parent
    ensures forall c :: c in written <==> Reached(f, texts, root, c)
  {
    hide Reached, AllMaps, Under, Rendered, Put;
    var store := new Store();
    var tree := store.New(MapObject(map[]));
    ghost var s := SMap(tree, map[]);
    EmptyNode(store.heap, tree);
    NodeIsDocument(store.heap, store.heap, tree, s);
    s := InsertChildrenRecursive(store, root, tree, f, s);
    Kinds(store.heap, MapRef(tree), s);
    written := RenderRecursive(store, texts, tree, s);
    forall c
      ensures Rendered(texts, Erase(s), c) <==> Reached(f, texts, root, c)
    {
      RenderedIsReached(f, texts, root, c);
    }
  }

  ghost predicate DescendsFrom(f: Forest, root: Component, c: Component)
    requires f.Valid()
    decreases f.Rank(c)
  {
    c == root || (c in f.parent && DescendsFrom(f, root, f.parent[c]))
  }

  /**
   Of the components of the install tree, rendering writes exactly those that applying applies, however it is scheduled,
   if no apply fails and manifests that are there are not empty.
   */
  lemma RenderedIsApplied(cfg: Config, texts: map<Component, string>, root: Component, steps: seq<Step>, c: Component)
    requires cfg.forest.Valid() && root !in cfg.forest.parent && cfg.failing == {}
    requires forall d :: d in cfg.manifests <==> d in texts && texts[d] != ""
    requires IsRun(cfg, INITIAL, steps) && Stuck(cfg, Final(cfg, INITIAL, steps)) && DescendsFrom(cfg.forest, root, c)
    ensures Rendered(texts, Put(EMPTY_MAP, root, Under(cfg.forest, root)), c)
            <==> c in Final(cfg, INITIAL, steps).applied
  {
    RenderedIsReached(cfg.forest, texts, root, c);
    OutcomeIsScheduleIndependent(cfg, steps);
    ReachedIsUnblocked(cfg, texts, root, c);
  }

  lemma {:induction false} ReachedIsUnblocked(cfg: Config, texts: map<Component, string>, root: Component, c: Component)
    requires cfg.forest.Valid() && root !in cfg.forest.parent && cfg.failing == {}
    requires forall d :: d in cfg.manifests <==> HasText(texts, d)
    requires DescendsFrom(cfg.forest, root, c)
    ensures Reached(cfg.forest, texts, root, c) <==> c in cfg.manifests && Unblocked(cfg, c)
    decreases cfg.forest.Rank(c)
  {
    if c != root {
      ReachedIsUnblocked(cfg, texts, root, cfg.forest.parent[c]);
    }
  }
}
