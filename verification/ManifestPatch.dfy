/** Patching a manifest: which objects come out, whatever order the maps are visited in. */
module ManifestPatch {
  import opened Options
  import opened Permutations
  import opened Documents
  import opened Objects

  /** No patches stands for a nil list, which is not the same as an empty one. */
  datatype Overlay<P> = Overlay(kind: string, name: string, patches: Option<seq<P>>)

  type Overrides<P> = map<string, Option<seq<P>>>

  /** What patching an object comes to: its new YAML, reported errors, or a panic that ends the whole run. */
  datatype Rendering = Yaml(text: string) | Errors | Panic

  type Apply<!P> = (Object, seq<P>) -> Rendering

  /** A piece of output, with the object it stands for. */
  datatype Piece = Piece(of: Object, text: string)

  // ---- The two maps

  /** The last overlay for a hash. */
  function LastFor<P>(overlays: seq<Overlay<P>>, namespace: string, hash: string): Option<Overlay<P>> {
    if overlays == [] then None
    else
      var last := overlays[|overlays| - 1];
      if Hash(last.kind, namespace, last.name) == hash then Some(last)
      else LastFor(overlays[..|overlays| - 1], namespace, hash)
  }

  /** Every hash that an overlay has maps to the patches of the last such overlay. */
  ghost predicate AreOverrides<P>(oom: Overrides<P>, overlays: seq<Overlay<P>>, namespace: string) {
    forall k ::
      match LastFor(overlays, namespace, k)
      case None => k !in oom
      case Some(overlay) => k in oom && oom[k] == overlay.patches
  }

  method ObjectOverrideMap<P>(overlays: seq<Overlay<P>>, namespace: string) returns (ret: Overrides<P>)
    ensures AreOverrides(ret, overlays, namespace)
  {
    ret := map[];
    for i := 0 to |overlays|
      invariant AreOverrides(ret, overlays[..i], namespace)
    {
      assert overlays[..i + 1][..i] == overlays[..i];
      ret := ret[Hash(overlays[i].kind, namespace, overlays[i].name) := overlays[i].patches];
    }
    assert overlays[..|overlays|] == overlays;
  }

  function LastWith(objects: seq<Object>, hash: string): Option<Object> {
    if objects == [] then None
    else if HashOf(objects[|objects| - 1]) == hash then Some(objects[|objects| - 1])
    else LastWith(objects[..|objects| - 1], hash)
  }

  ghost predicate AreBaseObjects(bom: map<string, Object>, objects: seq<Object>) {
    forall k ::
      match LastWith(objects, k)
      case None => k !in bom
      case Some(o) => k in bom && bom[k] == o
  }

  method ToMap(objects: seq<Object>) returns (ret: map<string, Object>)
    ensures AreBaseObjects(ret, objects)
  {
    ret := map[];
    for i := 0 to |objects|
      invariant AreBaseObjects(ret, objects[..i])
    {
      assert objects[..i + 1][..i] == objects[..i];
      ret := ret[HashOf(objects[i]) := objects[i]];
    }
    assert objects[..|objects|] == objects;
  }

  // ---- What comes out

  function OnePiece(o: Object, r: Rendering): multiset<Piece> {
    match r
    case Yaml(text) => multiset{Piece(o, text)}
    case _ => multiset{}
  }

  /** The pieces of output that a base object gives rise to. */
  function Rendered<P>(o: Object, overlay: Option<Overlay<P>>, apply: Apply): multiset<Piece> {
    match overlay
    case None => multiset{Piece(o, o.yaml)}
    case Some(Overlay(_, _, Some(patches))) => OnePiece(o, apply(o, patches))
    case Some(Overlay(_, _, None)) => OnePiece(o, apply(o, [])) + multiset{Piece(o, o.yaml)}
  }

  /** Patching the object with hash `k` of the base panics. */
  predicate PanicsAt<P>(base: seq<Object>, namespace: string, overlays: seq<Overlay<P>>, apply: Apply, k: string) {
    var o, overlay := LastWith(base, k), LastFor(overlays, namespace, k);
    o.Some? && overlay.Some? && apply(o.value, overlay.value.patches.GetOr([])).Panic?
  }

  function Texts(pieces: seq<Piece>): seq<string> {
    if pieces == [] then [] else [pieces[0].text] + Texts(pieces[1..])
  }

  /** What the objects with the given hashes give rise to. */
  function RenderKey<P>(base: seq<Object>, namespace: string, overlays: seq<Overlay<P>>, apply: Apply)
    : string -> multiset<Piece>
  {
    (k: string) =>
      match LastWith(base, k)
      case None => multiset{}
      case Some(o) => Rendered(o, LastFor(overlays, namespace, k), apply)
  }

  /** The part of it that comes from overlays, and the part that comes from the base. */
  function FromOverlay<P>(bom: map<string, Object>, oom: Overrides<P>, apply: Apply): string -> multiset<Piece> {
    (k: string) => if k in oom && k in bom then OnePiece(bom[k], apply(bom[k], oom[k].GetOr([]))) else multiset{}
  }

  function FromBase<P>(bom: map<string, Object>, oom: Overrides<P>): string -> multiset<Piece> {
    (k: string) => if k in bom && (k in oom ==> oom[k].None?) then multiset{Piece(bom[k], bom[k].yaml)} else multiset{}
  }

  // ---- The code

  ghost predicate VisitedSoFar<T>(visited: seq<T>, rest: set<T>, all: set<T>) {
    multiset(visited) + multiset(rest) == multiset(all)
  }

  lemma NothingVisited<T, U>(g: T -> multiset<U>, all: set<T>)
    ensures VisitedSoFar([], all, all) && Sum(g, []) == multiset{}
  {
  }

  lemma AllVisited<T, U>(g: T -> multiset<U>, visited: seq<T>, all: set<T>)
    requires VisitedSoFar(visited, {}, all)
    ensures Sum(g, visited) == SumSet(g, all)
  {
    SumVisited(g, all, visited);
  }

  lemma Visit<T, U>(g: T -> multiset<U>, visited: seq<T>, rest: set<T>, all: set<T>, x: T)
    requires x in rest && VisitedSoFar(visited, rest, all)
    ensures VisitedSoFar(visited + [x], rest - {x}, all)
    ensures Sum(g, visited + [x]) == Sum(g, visited) + g(x)
  {
    SumAppends(g, visited, [x]);
    assert [x][1..] == [];
    assert multiset(rest) == multiset{x} + multiset(rest - {x});
  }

  /** The text consists of exactly these pieces, in some order, each followed by a separator. */
  ghost predicate IsTextOf(text: string, ms: multiset<Piece>) {
    exists pieces :: text == Text(Texts(pieces)) && multiset(pieces) == ms
  }

  lemma NoText()
    ensures IsTextOf("", multiset{})
  {
    assert Text(Texts([])) == "";
  }

  lemma OneMorePiece(text: string, ms: multiset<Piece>, piece: Piece)
    requires IsTextOf(text, ms)
    ensures IsTextOf(text + piece.text + "\n---\n", ms + multiset{piece})
  {
    hide Text, Texts;
    var pieces :| text == Text(Texts(pieces)) && multiset(pieces) == ms;
    TextOfBoth(pieces, [piece]);
    TextOfOne(piece);
    AppendsToText(Text(Texts(pieces)), piece.text);
    assert multiset(pieces + [piece]) == ms + multiset{piece};
  }

  lemma TextOfOne(piece: Piece)
    ensures Text(Texts([piece])) == piece.text + "\n---\n"
  {
    assert Texts([piece]) == [piece.text] && [piece.text][1..] == [];
    assert piece.text + "\n---\n" + "" == piece.text + "\n---\n";
  }

  lemma AppendsToText(text: string, piece: string)
    ensures text + (piece + "\n---\n") == text + piece + "\n---\n"
  {
  }

  lemma BothTexts(text: string, ms: multiset<Piece>, text': string, ms': multiset<Piece>)
    requires IsTextOf(text, ms) && IsTextOf(text', ms')
    ensures IsTextOf(text + text', ms + ms')
  {
    hide Text, Texts;
    var pieces :| text == Text(Texts(pieces)) && multiset(pieces) == ms;
    var pieces' :| text' == Text(Texts(pieces')) && multiset(pieces') == ms';
    TextOfBoth(pieces, pieces');
    assert multiset(pieces + pieces') == ms + ms';
  }

  lemma {:induction false} TextOfBoth(xs: seq<Piece>, ys: seq<Piece>)
    ensures Text(Texts(xs + ys)) == Text(Texts(xs)) + Text(Texts(ys))
    decreases |xs|
  {
    if xs == [] {
      assert xs + ys == ys;
    } else {
      assert (xs + ys)[1..] == xs[1..] + ys;
      TextOfBoth(xs[1..], ys);
    }
  }

  /**
   Rendering the objects that have overlays, in the order in which `range` visits the overlays. Nothing comes back if a
   patch panics.
   */
  method RenderOverlays<P>(bom: map<string, Object>, oom: Overrides<P>, apply: Apply) returns (out: Option<string>)
    ensures out.None? <==> exists k :: k in oom && k in bom && apply(bom[k], oom[k].GetOr([])).Panic?
    ensures out.Some? ==> IsTextOf(out.value, SumSet(FromOverlay(bom, oom, apply), oom.Keys))
  {
    hide VisitedSoFar, IsTextOf, Sum;
    NoText();
    NothingVisited(FromOverlay(bom, oom, apply), oom.Keys);
    var ret := "";
    var ks := oom.Keys;
    ghost var visited := [];
    while ks != {}
      invariant ks <= oom.Keys && VisitedSoFar(visited, ks, oom.Keys)
      invariant IsTextOf(ret, Sum(FromOverlay(bom, oom, apply), visited))
      invariant forall k | k in oom && k in bom && k !in ks :: !apply(bom[k], oom[k].GetOr([])).Panic?
      decreases |ks|
    {
      var k :| k in ks;
      Visit(FromOverlay(bom, oom, apply), visited, ks, oom.Keys, k);
      ghost var before := Sum(FromOverlay(bom, oom, apply), visited);
      assert before + multiset{} == before;
      ks, visited := ks - {k}, visited + [k];
      if k !in bom {
        continue;
      }
      var patched := apply(bom[k], oom[k].GetOr([]));
      if patched.Panic? {
        return None;
      }
      if patched.Errors? {
        continue;
      }
      OneMorePiece(ret, before, Piece(bom[k], patched.text));
      ret := ret + patched.text + "\n---\n";
    }
    AllVisited(FromOverlay(bom, oom, apply), visited, oom.Keys);
    return Some(ret);
  }

  /** Rendering the remaining objects, in the order in which `range` visits the base. */
  method RenderRest<P>(bom: map<string, Object>, oom: Overrides<P>) returns (out: string)
    ensures IsTextOf(out, SumSet(FromBase(bom, oom), bom.Keys))
  {
    hide VisitedSoFar, IsTextOf, Sum;
    NoText();
    NothingVisited(FromBase(bom, oom), bom.Keys);
    out := "";
    var ks := bom.Keys;
    ghost var visited := [];
    while ks != {}
      invariant ks <= bom.Keys && VisitedSoFar(visited, ks, bom.Keys)
      invariant IsTextOf(out, Sum(FromBase(bom, oom), visited))
      decreases |ks|
    {
      var k :| k in ks;
      Visit(FromBase(bom, oom), visited, ks, bom.Keys, k);
      ghost var before := Sum(FromBase(bom, oom), visited);
      assert before + multiset{} == before;
      ks, visited := ks - {k}, visited + [k];
      if k in oom && oom[k].Some? {
        // Objects that have overlays are rendered there.
        continue;
      }
      OneMorePiece(out, before, Piece(bom[k], bom[k].yaml));
      out := out + bom[k].yaml + "\n---\n";
    }
    AllVisited(FromBase(bom, oom), visited, bom.Keys);
  }

  datatype Output = Manifest(text: string) | NotParsed(doc: string) | Panicked

  /**
   The run panics exactly if patching the object of some hash does; otherwise, for every hash in the base, what comes
   out is what that object gives rise to.
   */
  ghost predicate IsPatched<P>(out: Output, base: seq<Object>, namespace: string, overlays: seq<Overlay<P>>,
                               apply: Apply)
  {
    match out
    case NotParsed(_) => false
    case Panicked => exists k :: PanicsAt(base, namespace, overlays, apply, k)
    case Manifest(text) =>
      && (forall k :: !PanicsAt(base, namespace, overlays, apply, k))
      && IsTextOf(text, SumSet(RenderKey(base, namespace, overlays, apply), Hashes(base)))
  }

  /** `YAMLManifestPatch` after parsing, for every map order. */
  method PatchManifest<P>(base: seq<Object>, namespace: string, overlays: seq<Overlay<P>>, apply: Apply)
    returns (out: Output)
    ensures IsPatched(out, base, namespace, overlays, apply)
  {
    hide IsTextOf;
    var bom := ToMap(base);
    var oom := ObjectOverrideMap(overlays, namespace);
    var patched := RenderOverlays(bom, oom, apply);
    forall k
      ensures PanicsAt(base, namespace, overlays, apply, k)
              <==> k in oom && k in bom && apply(bom[k], oom[k].GetOr([])).Panic?
    {
      PanicsInMaps(base, namespace, overlays, apply, bom, oom, k);
    }
    if patched.None? {
      return Panicked;
    }
    var rest := RenderRest(bom, oom);
    BothTexts(patched.value, SumSet(FromOverlay(bom, oom, apply), oom.Keys), rest,
              SumSet(FromBase(bom, oom), bom.Keys));
    PartsTogether(base, namespace, overlays, apply, bom, oom);
    return Manifest(patched.value + rest);
  }

  lemma PanicsInMaps<P>(base: seq<Object>, namespace: string, overlays: seq<Overlay<P>>, apply: Apply,
                        bom: map<string, Object>, oom: Overrides<P>, k: string)
    requires AreBaseObjects(bom, base) && AreOverrides(oom, overlays, namespace)
    ensures PanicsAt(base, namespace, overlays, apply, k)
            <==> k in oom && k in bom && apply(bom[k], oom[k].GetOr([])).Panic?
  {
    var o, overlay := LastWith(base, k), LastFor(overlays, namespace, k);
    assert o.Some? <==> k in bom;
    assert overlay.Some? <==> k in oom;
  }

  /** What a parsed document says of itself. */
  datatype Header = Header(group: string, kind: string, namespace: string, name: string)

  function ObjectsOf(docs: seq<Parsed<Header>>): (os: seq<Object>)
    ensures |os| == |docs|
    ensures forall i | 0 <= i < |os| ::
              && os[i].group == docs[i].value.group && os[i].kind == docs[i].value.kind
              && os[i].namespace == docs[i].value.namespace && os[i].name == docs[i].value.name
              && os[i].yaml == docs[i].yaml
  {
    if docs == [] then []
    else
      var h := docs[0].value;
      [Object(h.group, h.kind, h.namespace, h.name, docs[0].yaml)] + ObjectsOf(docs[1..])
  }

  /** `YAMLManifestPatch`, with a way to decode a document. */
  method YAMLManifestPatch<P>(baseYAML: string, namespace: string, overlays: seq<Overlay<P>>,
                              decode: string -> Option<Header>, apply: Apply)
    returns (out: Output)
    ensures match ParseAll(Split(baseYAML), decode)
            case Malformed(doc) => out == NotParsed(doc)
            case Objects(docs) => IsPatched(out, ObjectsOf(docs), namespace, overlays, apply)
  {
    hide IsPatched, Split;
    var parsed := ParseManifest(baseYAML, decode);
    if parsed.Malformed? {
      return NotParsed(parsed.doc);
    }
    out := PatchManifest(ObjectsOf(parsed.objects), namespace, overlays, apply);
  }

  ghost function Hashes(base: seq<Object>): set<string> {
    set o | o in base :: HashOf(o)
  }

  lemma PartsOfKey<P>(base: seq<Object>, namespace: string, overlays: seq<Overlay<P>>, apply: Apply,
                      bom: map<string, Object>, oom: Overrides<P>, k: string)
    requires AreBaseObjects(bom, base) && AreOverrides(oom, overlays, namespace) && k in bom
    ensures RenderKey(base, namespace, overlays, apply)(k) == FromOverlay(bom, oom, apply)(k) + FromBase(bom, oom)(k)
  {
    var o, overlay := bom[k], LastFor(overlays, namespace, k);
    assert LastWith(base, k) == Some(o);
    match overlay
    case None =>
      assert RenderKey(base, namespace, overlays, apply)(k) == multiset{Piece(o, o.yaml)};
      assert FromOverlay(bom, oom, apply)(k) == multiset{};
    case Some(found) =>
      assert oom[k] == found.patches;
      assert RenderKey(base, namespace, overlays, apply)(k) == Rendered(o, overlay, apply);
      assert FromOverlay(bom, oom, apply)(k) == OnePiece(o, apply(o, oom[k].GetOr([])));
  }

  lemma PartsTogether<P>(base: seq<Object>, namespace: string, overlays: seq<Overlay<P>>, apply: Apply,
                         bom: map<string, Object>, oom: Overrides<P>)
    requires AreBaseObjects(bom, base) && AreOverrides(oom, overlays, namespace)
    ensures SumSet(FromOverlay(bom, oom, apply), oom.Keys) + SumSet(FromBase(bom, oom), bom.Keys)
            == SumSet(RenderKey(base, namespace, overlays, apply), Hashes(base))
  {
    hide AreBaseObjects, AreOverrides, RenderKey, SumSet, Hashes;
    var fo, fb := FromOverlay(bom, oom, apply), FromBase(bom, oom);
    OverlaysOfBase(fo, oom.Keys, bom.Keys);
    forall k | k in bom.Keys
      ensures RenderKey(base, namespace, overlays, apply)(k) == fo(k) + fb(k)
    {
      PartsOfKey(base, namespace, overlays, apply, bom, oom, k);
    }
    SumSetPlus(fo, fb, RenderKey(base, namespace, overlays, apply), bom.Keys);
    KeysAreHashes(base, bom);
  }

  /** Only what both sets share contributes. */
  lemma OverlaysOfBase<T(!new), U>(g: T -> multiset<U>, s: set<T>, t: set<T>)
    requires forall x | x !in s * t :: g(x) == multiset{}
    ensures SumSet(g, s) == SumSet(g, t)
  {
    SumSetRestricted(g, s, t);
    SumSetRestricted(g, t, s);
    assert s * t == t * s;
  }

  lemma KeysAreHashes(base: seq<Object>, bom: map<string, Object>)
    requires AreBaseObjects(bom, base)
    ensures bom.Keys == Hashes(base)
  {
    forall k
      ensures k in bom <==> k in Hashes(base)
    {
      LastWithFinds(base, k);
    }
  }

  lemma {:induction false} LastWithFinds(base: seq<Object>, k: string)
    ensures LastWith(base, k).Some? <==> exists o :: o in base && HashOf(o) == k
    decreases |base|
  {
    if base != [] {
      var before, last := base[..|base| - 1], base[|base| - 1];
      LastWithFinds(before, k);
      assert base == before + [last];
      assert last in base;
    }
  }
}
