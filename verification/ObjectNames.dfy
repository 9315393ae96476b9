/** Patching a manifest in terms of kinds, namespaces and names. */
module ObjectNames {
  import opened Options
  import T = GoHeap
  import opened Documents
  import opened ManifestLaws
  import opened ManifestPatch
  import opened Objects
  import opened Paths
  import opened PatchObjects
  import opened PatchSpec

  /** A colon separates what has none. */
  lemma ColonSeparates(a: string, x: string, b: string, y: string)
    requires ':' !in a && ':' !in b && a + ":" + x == b + ":" + y
    ensures a == b && x == y
  {
    var s := a + ":" + x;
    assert s[|a|] == ':' && s[|b|] == ':';
    assert s[..|a|] == a && s[..|b|] == b;
    assert |a| == |b|;
    assert x == s[|a| + 1..] && y == s[|b| + 1..];
  }

  lemma HashIs(kind: string, namespace: string, name: string)
    ensures Hash(kind, namespace, name) == kind + ":" + (namespace + ":" + name)
  {
    assert [kind, namespace, name][1..] == [namespace, name] && [namespace, name][1..] == [name];
    assert Join([namespace, name], ':') == namespace + [':'] + name;
  }

  /** Objects are told apart by kind, namespace and name, if no kind or namespace has a colon. */
  lemma HashExactly(kind: string, namespace: string, name: string, kind': string, namespace': string, name': string)
    requires ':' !in kind && ':' !in namespace && ':' !in kind' && ':' !in namespace'
    ensures Hash(kind, namespace, name) == Hash(kind', namespace', name')
            <==> kind == kind' && namespace == namespace' && name == name'
  {
    HashIs(kind, namespace, name);
    HashIs(kind', namespace', name');
    if Hash(kind, namespace, name) == Hash(kind', namespace', name') {
      ColonSeparates(kind, namespace + ":" + name, kind', namespace' + ":" + name');
      ColonSeparates(namespace, name, namespace', name');
    }
  }

  ghost predicate DistinctNames(base: seq<Object>) {
    forall i, j | 0 <= i < j < |base| ::
      base[i].kind != base[j].kind || base[i].namespace != base[j].namespace || base[i].name != base[j].name
  }

  ghost predicate NoColons<P>(base: seq<Object>, namespace: string, overlays: seq<Overlay<P>>) {
    && ':' !in namespace && (forall o | o in base :: ':' !in o.kind && ':' !in o.namespace)
    && (forall overlay | overlay in overlays :: ':' !in overlay.kind)
  }

  /** Overlay `i` is the last one for this kind and name. */
  ghost predicate IsLast<P>(overlays: seq<Overlay<P>>, i: nat, o: Object) {
    && i < |overlays| && overlays[i].kind == o.kind && overlays[i].name == o.name
    && forall j | i < j < |overlays| :: overlays[j].kind != o.kind || overlays[j].name != o.name
  }

  ghost predicate HasNone<P>(overlays: seq<Overlay<P>>, o: Object) {
    forall j | 0 <= j < |overlays| :: overlays[j].kind != o.kind || overlays[j].name != o.name
  }

  /** The overlay that counts for an object is the last with its kind and name, if the object is in the namespace. */
  lemma {:induction false} LastForByName<P>(overlays: seq<Overlay<P>>, namespace: string, o: Object)
    requires NoColons([o], namespace, overlays)
    ensures LastFor(overlays, namespace, HashOf(o)) == None <==> o.namespace != namespace || HasNone(overlays, o)
    ensures forall i: nat | o.namespace == namespace && IsLast(overlays, i, o) ::
              LastFor(overlays, namespace, HashOf(o)) == Some(overlays[i])
    decreases |overlays|
  {
    hide Hash;
    if overlays != [] {
      var before, last := overlays[..|overlays| - 1], overlays[|overlays| - 1];
      assert o in [o] && last in overlays && forall x | x in before :: x in overlays;
      HashExactly(last.kind, namespace, last.name, o.kind, o.namespace, o.name);
      LastForByName(before, namespace, o);
      forall i: nat | IsLast(overlays, i, o)
        ensures if i == |overlays| - 1 then last.kind == o.kind && last.name == o.name
                else IsLast(before, i, o) && (last.kind != o.kind || last.name != o.name)
      {
      }
      assert HasNone(overlays, o) <==> HasNone(before, o) && (last.kind != o.kind || last.name != o.name);
    }
  }

  lemma DistinctByName(base: seq<Object>)
    requires DistinctNames(base) && forall o | o in base :: ':' !in o.kind && ':' !in o.namespace
    ensures DistinctHashes(base)
  {
    hide Hash;
    forall i, j | 0 <= i < j < |base|
      ensures HashOf(base[i]) != HashOf(base[j])
    {
      HashExactly(base[i].kind, base[i].namespace, base[i].name, base[j].kind, base[j].namespace, base[j].name);
    }
  }

  /** What comes out for an object that is patched. */
  ghost function Outcome(o: Object, patches: seq<Patch>, sel: Selector, decode: Decode, encode: Encode)
    : multiset<Piece>
  {
    match decode(o.yaml)
    case None => multiset{}
    case Some(entries) =>
      var run := RunPatches(sel, T.Map(entries), patches);
      if run.errors != [] || encode(run.tree).None? then multiset{} else multiset{Piece(o, encode(run.tree).value)}
  }

  /**
   The text of a patched manifest, if the objects of the base are told apart by kind, namespace and name: it consists of
   pieces, which are, for every object, the patched object, or nothing if it cannot be read, patched or written, if the
   last overlay with its kind and name has patches and the object is in the namespace; the object as it is, if there is
   no such overlay; and both, if that overlay has a nil list.
   */
  lemma ManifestByName(text: string, base: seq<Object>, namespace: string, overlays: seq<Overlay<Patch>>, sel: Selector,
                       decode: Decode, encode: Encode) returns (pieces: seq<Piece>)
    requires DistinctNames(base) && NoColons(base, namespace, overlays)
    requires IsPatched(Manifest(text), base, namespace, overlays, ApplyWith(sel, decode, encode))
    ensures text == Text(Texts(pieces))
    ensures forall o | o in base && (o.namespace != namespace || HasNone(overlays, o)) ::
              PiecesOf(pieces, o) == multiset{Piece(o, o.yaml)}
    ensures forall o, i: nat | o in base && o.namespace == namespace && IsLast(overlays, i, o) ::
              PiecesOf(pieces, o)
              == match overlays[i].patches
                 case Some(patches) => Outcome(o, patches, sel, decode, encode)
                 case None => Outcome(o, [], sel, decode, encode) + multiset{Piece(o, o.yaml)}
  {
    hide IsPatched, PiecesOf, Comprise, Hash, Text, Texts, Outcome, LastFor, DistinctNames;
    var apply := ApplyWith(sel, decode, encode);
    DistinctByName(base);
    pieces := OutputHasPieces(text, base, namespace, overlays, apply);
    NoPanic(text, base, namespace, overlays, apply);
    forall o | o in base
      ensures PiecesOf(pieces, o) == Expected(o, LastFor(overlays, namespace, HashOf(o)), sel, decode, encode)
      ensures LastFor(overlays, namespace, HashOf(o)) == None <==> o.namespace != namespace || HasNone(overlays, o)
      ensures forall i: nat | o.namespace == namespace && IsLast(overlays, i, o) ::
                LastFor(overlays, namespace, HashOf(o)) == Some(overlays[i])
    {
      PiecesOfObject(pieces, base, namespace, overlays, apply, o);
      RenderedAsExpected(o, LastFor(overlays, namespace, HashOf(o)), sel, decode, encode);
      LastForByName(overlays, namespace, o);
    }
  }

  ghost function Expected(o: Object, overlay: Option<Overlay<Patch>>, sel: Selector, decode: Decode, encode: Encode)
    : multiset<Piece>
  {
    match overlay
    case None => multiset{Piece(o, o.yaml)}
    case Some(Overlay(_, _, Some(patches))) => Outcome(o, patches, sel, decode, encode)
    case Some(Overlay(_, _, None)) => Outcome(o, [], sel, decode, encode) + multiset{Piece(o, o.yaml)}
  }

  lemma RenderedAsExpected(o: Object, overlay: Option<Overlay<Patch>>, sel: Selector, decode: Decode, encode: Encode)
    requires overlay.Some? ==> !ApplyWith(sel, decode, encode)(o, overlay.value.patches.GetOr([])).Panic?
    ensures Rendered(o, overlay, ApplyWith(sel, decode, encode)) == Expected(o, overlay, sel, decode, encode)
  {
    hide RunPatches;
  }

  lemma NoPanic<P>(text: string, base: seq<Object>, namespace: string, overlays: seq<Overlay<P>>, apply: Apply<P>)
    requires DistinctHashes(base) && IsPatched(Manifest(text), base, namespace, overlays, apply)
    ensures forall o | o in base && LastFor(overlays, namespace, HashOf(o)).Some? ::
              !apply(o, LastFor(overlays, namespace, HashOf(o)).value.patches.GetOr([])).Panic?
  {
    forall o | o in base
      ensures LastWith(base, HashOf(o)) == Some(o) && !PanicsAt(base, namespace, overlays, apply, HashOf(o))
    {
      LastWithIsIt(base, o);
    }
  }

  /**
   The run panics exactly if patching an object of the namespace does, with the last overlay for its kind and name.
   */
  lemma PanicsByName(out: Output, base: seq<Object>, namespace: string, overlays: seq<Overlay<Patch>>, sel: Selector,
                     decode: Decode, encode: Encode)
    requires DistinctNames(base) && NoColons(base, namespace, overlays)
    requires IsPatched(out, base, namespace, overlays, ApplyWith(sel, decode, encode))
    ensures out == Panicked
            <==> exists o, i: nat | o in base && o.namespace == namespace && IsLast(overlays, i, o) ::
                   && decode(o.yaml).Some?
                   && RunPatches(sel, T.Map(decode(o.yaml).value), overlays[i].patches.GetOr([])).panicked
  {
    hide Hash, RunPatches, PanicsAt, LastFor, DistinctNames;
    var apply := ApplyWith(sel, decode, encode);
    DistinctByName(base);
    if o, i: nat :|
      && o in base && o.namespace == namespace && IsLast(overlays, i, o)
      && apply(o, overlays[i].patches.GetOr([])).Panic? {
      PanicsThere(base, namespace, overlays, apply, o, i);
    }
    if k :| PanicsAt(base, namespace, overlays, apply, k) {
      var o, i := PanicsFor(base, namespace, overlays, apply, k);
      assert apply(o, overlays[i].patches.GetOr([])).Panic?;
    }
  }

  lemma PanicsThere<P>(base: seq<Object>, namespace: string, overlays: seq<Overlay<P>>, apply: Apply<P>, o: Object,
                       i: nat)
    requires NoColons(base, namespace, overlays) && DistinctHashes(base)
    requires o in base && o.namespace == namespace && IsLast(overlays, i, o)
    requires apply(o, overlays[i].patches.GetOr([])).Panic?
    ensures PanicsAt(base, namespace, overlays, apply, HashOf(o))
  {
    LastWithIsIt(base, o);
    LastForByName(overlays, namespace, o);
  }

  lemma PanicsFor<P>(base: seq<Object>, namespace: string, overlays: seq<Overlay<P>>, apply: Apply<P>, k: string)
    returns (o: Object, i: nat)
    requires NoColons(base, namespace, overlays) && PanicsAt(base, namespace, overlays, apply, k)
    ensures o in base && o.namespace == namespace && IsLast(overlays, i, o)
    ensures apply(o, overlays[i].patches.GetOr([])).Panic?
  {
    hide Hash;
    o := LastWith(base, k).value;
    LastWithIsOne(base, k);
    LastForByName(overlays, namespace, o);
    i := LastIndex(overlays, o);
  }

  lemma {:induction false} LastWithIsOne(base: seq<Object>, k: string)
    requires LastWith(base, k).Some?
    ensures LastWith(base, k).value in base && HashOf(LastWith(base, k).value) == k
    decreases |base|
  {
    hide HashOf;
    if HashOf(base[|base| - 1]) != k {
      LastWithIsOne(base[..|base| - 1], k);
    }
  }

  lemma {:induction false} LastIndex<P>(overlays: seq<Overlay<P>>, o: Object) returns (i: nat)
    requires !HasNone(overlays, o)
    ensures IsLast(overlays, i, o)
    decreases |overlays|
  {
    i := |overlays| - 1;
    if overlays[i].kind != o.kind || overlays[i].name != o.name {
      i := LastIndex(overlays[..i], o);
    }
  }
}
