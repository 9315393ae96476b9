/** `applyPatches` of an object: reading its YAML, patching the document on the heap, and writing it again. */
module PatchObjects {
  import opened Options
  import opened GoHeap
  import opened ManifestLaws
  import opened ManifestPatch
  import opened PatchCode
  import opened PatchSpec
  import O = Objects

  /** What YAML decodes to: no map is one of JSON, and every list is held directly. */
  predicate IsYaml(t: Tree) {
    match t
    case JsonMap(_) => false
    case Boxed(_, _) => false
    case Map(entries) => forall k | k in entries :: IsYaml(entries[k])
    case List(es) => forall i | 0 <= i < |es| :: IsYaml(es[i])
    case _ => true
  }

  type YamlMap = m: map<Scalar, Tree> | forall k | k in m :: IsYaml(m[k]) witness map[]

  /** `yaml.Unmarshal` into a map; text that is no such document does not unmarshal. */
  type Decode = string -> Option<YamlMap>

  /** `yaml.Marshal`. */
  type Encode = Tree -> Option<string>

  function ApplyWith(sel: Selector, decode: Decode, encode: Encode): Apply<Patch> {
    (o: O.Object, patches: seq<Patch>) =>
      match decode(o.yaml)
      case None => Errors
      case Some(entries) =>
        var run := RunPatches(sel, Map(entries), patches);
        if run.panicked then Panic
        else if encode(run.tree).None? || run.errors != [] then Errors
        else Yaml(encode(run.tree).value)
  }

  /** Marshalling a value is writing the document that it holds. */
  ghost predicate Writes(marshal: (Heap, Value) -> Option<string>, encode: Encode) {
    forall h, v, s :: Holds(h, v, s) ==> marshal(h, v) == encode(Erase(s))
  }

  /**
   `applyPatches`. `root` is what `yaml.Unmarshal` of the object made of its text, if it did not fail; patching happens
   on the shared heap; a list that patch `i` shortens is held through `cells[i]` from then on.
   */
  method ApplyPatches(patcher: Patcher, o: O.Object, root: Option<Ref>, patches: seq<Item>,
                      marshal: (Heap, Value) -> Option<string>, ghost decode: Decode, ghost encode: Encode,
                      ghost s: Shape, ghost ts: seq<Shape>)
    returns (r: Rendering, ghost cells: seq<Ref>)
    requires patcher.Valid() && Writes(marshal, encode) && |ts| == |patches|
    requires match decode(o.yaml)
             case None => root.None?
             case Some(entries) =>
               && root.Some? && patcher.IsDocument(patcher.store.heap, root.value, s) && Erase(s) == Map(entries)
    requires forall i | 0 <= i < |ts| :: patcher.Storable(patcher.store.heap, patches[i].value, ts[i], Foot(s))
    requires AllJson(ts) && forall i, j | 0 <= i < j < |ts| :: Foot(ts[i]) !! Foot(ts[j])
    modifies patcher.store
    ensures |cells| == |patches|
    ensures r == ApplyWith(patcher.sel, decode, encode)(o, PatchList(patches, ts, cells))
  {
    hide RunPatches, Holds, Separate, Foot, Erase;
    if root.None? {
      return Errors, seq(|patches|, _ => 0);
    }
    var errs, panicked;
    ghost var s';
    errs, panicked, s', cells := patcher.ApplyPatches(root.value, patches, s, ts);
    if panicked {
      return Panic, cells;
    }
    var oy := marshal(patcher.store.heap, MapRef(root.value));
    if oy.None? || errs != [] {
      return Errors, cells;
    }
    return Yaml(oy.value), cells;
  }

  /**
   Patching an object panics exactly if a patch leads through a null node of the document that those before it made.
   */
  lemma ApplyPanicsExactly(sel: Selector, decode: Decode, encode: Encode, o: O.Object, patches: seq<Patch>)
    ensures ApplyWith(sel, decode, encode)(o, patches).Panic?
            <==> decode(o.yaml).Some?
                 && exists k: nat | k < |patches| ::
                      var before := RunPatches(sel, Map(decode(o.yaml).value), patches[..k]);
                      !before.panicked && Panics(sel, before.tree, patches[k])
  {
    if decode(o.yaml).Some? {
      RunPanicsExactly(sel, Map(decode(o.yaml).value), patches);
    }
  }

  /**
   Patching an object without a panic gives errors exactly if the object does not unmarshal or marshal, or a patch meets
   an obstacle in the document that those before it made: a key that is nowhere, a scalar or a map of JSON in the path.
   */
  lemma ApplyFailsExactly(sel: Selector, decode: Decode, encode: Encode, o: O.Object, patches: seq<Patch>)
    requires !ApplyWith(sel, decode, encode)(o, patches).Panic?
    ensures ApplyWith(sel, decode, encode)(o, patches).Errors?
            <==> match decode(o.yaml)
                 case None => true
                 case Some(entries) =>
                   || encode(RunPatches(sel, Map(entries), patches).tree).None?
                   || exists k: nat, e | k < |patches| :: FailsAt(sel, Map(entries), patches, k, e)
  {
    if decode(o.yaml).Some? {
      hide FailsAt, RunPatches;
      RunSucceedsExactly(sel, Map(decode(o.yaml).value), patches);
    }
  }

  /** What the document of an object becomes, with the errors that its patches report. */
  function RunOn(sel: Selector, decode: Decode, o: O.Object, patches: seq<Patch>): Option<Run> {
    match decode(o.yaml)
    case None => None
    case Some(entries) => Some(RunPatches(sel, Map(entries), patches))
  }

  /**
   In the output of a run that does not panic: an object without an overlay comes out as it is; one with an overlay
   comes out once, patched, and is dropped exactly if it does not unmarshal or marshal, or one of its patches reported
   an error.
   */
  lemma PatchedOrDropped(pieces: seq<Piece>, base: seq<O.Object>, namespace: string, overlays: seq<Overlay<Patch>>,
                         sel: Selector, decode: Decode, encode: Encode, o: O.Object)
    requires DistinctHashes(base) && o in base
    requires Comprise(pieces, base, namespace, overlays, ApplyWith(sel, decode, encode))
    requires forall k :: !PanicsAt(base, namespace, overlays, ApplyWith(sel, decode, encode), k)
    ensures match LastFor(overlays, namespace, O.HashOf(o))
            case None => PiecesOf(pieces, o) == multiset{Piece(o, o.yaml)}
            case Some(Overlay(_, _, Some(patches))) =>
              (match RunOn(sel, decode, o, patches)
               case None => PiecesOf(pieces, o) == multiset{}
               case Some(run) =>
                 PiecesOf(pieces, o) == if run.errors != [] || encode(run.tree).None? then multiset{}
                                        else multiset{Piece(o, encode(run.tree).value)})
            case Some(Overlay(_, _, None)) => Piece(o, o.yaml) in PiecesOf(pieces, o)
  {
    hide Comprise, PiecesOf;
    var apply := ApplyWith(sel, decode, encode);
    PiecesOfObject(pieces, base, namespace, overlays, apply, o);
    LastWithIsIt(base, o);
    assert !PanicsAt(base, namespace, overlays, apply, O.HashOf(o));
  }

  /** One object with a readable and writable document, and an overlay with a nil list: it comes out twice. */
  lemma TwiceManifestExample(o: O.Object, sel: Selector, decode: Decode, encode: Encode, pieces: seq<Piece>)
    requires decode(o.yaml) == Some(map[]) && encode(Map(map[])) == Some("{}\n")
    requires Comprise(pieces, [o], o.namespace, [Overlay(o.kind, o.name, None)], ApplyWith(sel, decode, encode))
    ensures PiecesOf(pieces, o) == multiset{Piece(o, "{}\n"), Piece(o, o.yaml)}
  {
    assert RunPatches(sel, Map(map[]), []) == Run(Map(map[]), [], false);
    TwiceExample<Patch>(o, "{}\n", ApplyWith(sel, decode, encode), pieces);
  }

  /** One object with an empty document and a patch of a.b: the run panics, and there is no manifest. */
  lemma PanicManifestExample(o: O.Object, sel: Selector, decode: Decode, encode: Encode, cell: Ref, out: Output)
    requires decode(o.yaml) == Some(map[])
    requires IsPatched(out, [o], o.namespace,
                       [Overlay(o.kind, o.name, Some([Patch(["a", "b"], Leaf(Str("x")), cell)]))],
                       ApplyWith(sel, decode, encode))
    ensures out == Panicked
  {
    var overlay := Overlay(o.kind, o.name, Some([Patch(["a", "b"], Leaf(Str("x")), cell)]));
    PanicExample(sel, cell);
    assert LastWith([o], O.HashOf(o)) == Some(o);
    assert LastFor([overlay], o.namespace, O.HashOf(o)) == Some(overlay);
    assert PanicsAt([o], o.namespace, [overlay], ApplyWith(sel, decode, encode), O.HashOf(o));
  }

  /** One object with an empty document, and patches of a with a map and of a.b in it: no panic, and it is dropped. */
  lemma DroppedManifestExample(o: O.Object, sel: Selector, decode: Decode, encode: Encode, cell: Ref,
                               pieces: seq<Piece>)
    requires decode(o.yaml) == Some(map[])
    requires Comprise(pieces, [o], o.namespace, [BelowMapOverlay(o, cell)], ApplyWith(sel, decode, encode))
    ensures !PanicsAt([o], o.namespace, [BelowMapOverlay(o, cell)], ApplyWith(sel, decode, encode), O.HashOf(o))
    ensures PiecesOf(pieces, o) == multiset{}
  {
    var overlay, apply := BelowMapOverlay(o, cell), ApplyWith(sel, decode, encode);
    BelowMapExample(sel, cell);
    assert apply(o, overlay.patches.value).Errors?;
    assert LastWith([o], O.HashOf(o)) == Some(o);
    assert LastFor([overlay], o.namespace, O.HashOf(o)) == Some(overlay);
    PiecesOfObject(pieces, [o], o.namespace, [overlay], apply, o);
  }

  function BelowMapOverlay(o: O.Object, cell: Ref): Overlay<Patch> {
    var a := JsonMap(map["b" := Leaf(Str("1"))]);
    Overlay(o.kind, o.name, Some([Patch(["a"], a, cell), Patch(["a", "b"], Leaf(Str("2")), cell)]))
  }
}
