/** Conservation of the objects of a patched manifest. */
module ManifestLaws {
  import opened Options
  import opened Documents
  import opened ManifestPatch
  import opened Objects
  import opened Permutations

  ghost predicate DistinctHashes(base: seq<Object>) {
    forall i, j | 0 <= i < j < |base| :: HashOf(base[i]) != HashOf(base[j])
  }

  /** What a base object gives rise to under the overlays. */
  function RenderObject<P>(namespace: string, overlays: seq<Overlay<P>>, apply: Apply): Object -> multiset<Piece> {
    (o: Object) => Rendered(o, LastFor(overlays, namespace, HashOf(o)), apply)
  }

  /** If no two base objects share a hash, then each is accounted for exactly once. */
  lemma EachObjectOnce<P>(base: seq<Object>, namespace: string, overlays: seq<Overlay<P>>, apply: Apply)
    requires DistinctHashes(base)
    ensures SumSet(RenderKey(base, namespace, overlays, apply), Hashes(base))
            == Sum(RenderObject(namespace, overlays, apply), base)
  {
    var hs := HashList(base);
    HashesListed(base);
    SumVisited(RenderKey(base, namespace, overlays, apply), Hashes(base), hs);
    SumOfHashes(base, base, namespace, overlays, apply);
  }

  function HashList(base: seq<Object>): (hs: seq<string>)
    ensures |hs| == |base| && forall i | 0 <= i < |hs| :: hs[i] == HashOf(base[i])
  {
    if base == [] then [] else [HashOf(base[0])] + HashList(base[1..])
  }

  lemma {:induction false} HashesListed(base: seq<Object>)
    requires DistinctHashes(base)
    ensures multiset(HashList(base)) == multiset(Hashes(base))
    decreases |base|
  {
    if base != [] {
      var h, rest := HashOf(base[0]), base[1..];
      HashesListed(rest);
      assert base == [base[0]] + rest;
      assert Hashes(base) == {h} + Hashes(rest);
      assert h !in Hashes(rest);
    }
  }

  lemma {:induction false} SumOfHashes<P>(base: seq<Object>, some: seq<Object>, namespace: string,
                                          overlays: seq<Overlay<P>>, apply: Apply)
    requires DistinctHashes(base) && forall o | o in some :: o in base
    ensures Sum(RenderKey(base, namespace, overlays, apply), HashList(some))
            == Sum(RenderObject(namespace, overlays, apply), some)
    decreases |some|
  {
    if some != [] {
      assert some[0] in some && forall o | o in some[1..] :: o in some;
      LastWithIsIt(base, some[0]);
      SumOfHashes(base, some[1..], namespace, overlays, apply);
    }
  }

  lemma {:induction false} LastWithIsIt(base: seq<Object>, o: Object)
    requires DistinctHashes(base) && o in base
    ensures LastWith(base, HashOf(o)) == Some(o)
    decreases |base|
  {
    var before, last := base[..|base| - 1], base[|base| - 1];
    var i :| 0 <= i < |base| && base[i] == o;
    if i < |base| - 1 {
      assert before[i] == o;
      LastWithIsIt(before, o);
    }
  }

  // ---- The pieces of one object

  function OnlyOf(o: Object): Piece -> multiset<Piece> {
    (p: Piece) => if p.of == o then multiset{p} else multiset{}
  }

  /** Those pieces of an output that stand for `o`. */
  ghost function PiecesOf(pieces: seq<Piece>, o: Object): multiset<Piece> {
    Sum(OnlyOf(o), pieces)
  }

  /** The pieces make up the output for the base. */
  ghost predicate Comprise<P>(pieces: seq<Piece>, base: seq<Object>, namespace: string, overlays: seq<Overlay<P>>,
                              apply: Apply)
  {
    multiset(pieces) == SumSet(RenderKey(base, namespace, overlays, apply), Hashes(base))
  }

  /** The text of a run that does not panic is that of pieces which make up the output. */
  lemma OutputHasPieces<P>(text: string, base: seq<Object>, namespace: string, overlays: seq<Overlay<P>>, apply: Apply)
    returns (pieces: seq<Piece>)
    requires IsPatched(Manifest(text), base, namespace, overlays, apply)
    ensures text == Text(Texts(pieces)) && Comprise(pieces, base, namespace, overlays, apply)
  {
    var ms := SumSet(RenderKey(base, namespace, overlays, apply), Hashes(base));
    pieces :| text == Text(Texts(pieces)) && multiset(pieces) == ms;
  }

  /** The pieces of an output that stand for a base object are exactly what that object gives rise to. */
  lemma PiecesOfObject<P>(pieces: seq<Piece>, base: seq<Object>, namespace: string, overlays: seq<Overlay<P>>,
                          apply: Apply, o: Object)
    requires DistinctHashes(base) && Comprise(pieces, base, namespace, overlays, apply) && o in base
    ensures PiecesOf(pieces, o) == Rendered(o, LastFor(overlays, namespace, HashOf(o)), apply)
  {
    var g := RenderObject(namespace, overlays, apply);
    EachObjectOnce(base, namespace, overlays, apply);
    ListedIs(g, base);
    SumReordered(OnlyOf(o), pieces, AllPieces(g, base));
    forall b | b in base
      ensures StandsFor(g(b), b)
    {
      RenderedStandsFor(b, LastFor(overlays, namespace, HashOf(b)), apply);
    }
    PiecesListed(g, base, o);
  }

  ghost function AllPieces(g: Object -> multiset<Piece>, base: seq<Object>): seq<Piece> {
    if base == [] then [] else Listed(g(base[0])) + AllPieces(g, base[1..])
  }

  lemma {:induction false} ListedIs(g: Object -> multiset<Piece>, base: seq<Object>)
    ensures multiset(AllPieces(g, base)) == Sum(g, base)
    decreases |base|
  {
    if base != [] {
      ListedIs(g, base[1..]);
    }
  }

  ghost predicate StandsFor(ms: multiset<Piece>, b: Object) {
    forall p | p in ms :: p.of == b
  }

  lemma {:induction false} PiecesListed(g: Object -> multiset<Piece>, base: seq<Object>, o: Object)
    requires DistinctHashes(base) && forall b | b in base :: StandsFor(g(b), b)
    ensures PiecesOf(AllPieces(g, base), o) == if o in base then g(o) else multiset{}
    decreases |base|
  {
    if base != [] {
      hide PiecesOf, DistinctHashes, StandsFor, Listed;
      var b, rest := base[0], base[1..];
      TailDistinct(base);
      assert base == [b] + rest;
      PiecesListed(g, rest, o);
      PiecesAppend(Listed(g(b)), AllPieces(g, rest), o);
      ListedStandsFor(g(b), b);
      OneObject(Listed(g(b)), b, o);
    }
  }

  lemma TailDistinct(base: seq<Object>)
    requires base != [] && DistinctHashes(base)
    ensures DistinctHashes(base[1..]) && base[0] !in base[1..]
  {
  }

  lemma PiecesAppend(xs: seq<Piece>, ys: seq<Piece>, o: Object)
    ensures PiecesOf(xs + ys, o) == PiecesOf(xs, o) + PiecesOf(ys, o)
  {
    SumAppends(OnlyOf(o), xs, ys);
  }

  lemma ListedStandsFor(ms: multiset<Piece>, b: Object)
    requires StandsFor(ms, b)
    ensures forall p | p in Listed(ms) :: p.of == b
  {
    ListedMembers(ms);
  }

  lemma RenderedStandsFor<P>(b: Object, overlay: Option<Overlay<P>>, apply: Apply)
    ensures StandsFor(Rendered(b, overlay, apply), b)
  {
  }

  lemma {:induction false} OneObject(pieces: seq<Piece>, b: Object, o: Object)
    requires forall p | p in pieces :: p.of == b
    ensures PiecesOf(pieces, o) == if b == o then multiset(pieces) else multiset{}
    decreases |pieces|
  {
    if pieces != [] {
      assert pieces[0] in pieces && forall p | p in pieces[1..] :: p in pieces;
      OneObject(pieces[1..], b, o);
      assert pieces == [pieces[0]] + pieces[1..];
    }
  }

  /**
   The object is neither dropped for an error, nor does it come out twice because its last overlay has a nil list of
   patches. (Of an object that has both, the unpatched text comes out.)
   */
  predicate ComesOutOnce<P>(o: Object, overlay: Option<Overlay<P>>, apply: Apply) {
    overlay.Some? ==> (apply(o, overlay.value.patches.GetOr([])).Errors? <==> overlay.value.patches.None?)
  }

  lemma OnceExactly<P>(o: Object, overlay: Option<Overlay<P>>, apply: Apply)
    requires overlay.Some? ==> !apply(o, overlay.value.patches.GetOr([])).Panic?
    ensures |Rendered(o, overlay, apply)| == 1 <==> ComesOutOnce(o, overlay, apply)
  {
    match overlay
    case None =>
    case Some(Overlay(_, _, Some(patches))) =>
      assert apply(o, patches).Errors? ==> |OnePiece(o, apply(o, patches))| == 0;
    case Some(Overlay(_, _, None)) =>
      assert apply(o, []).Errors? ==>
               OnePiece(o, apply(o, [])) + multiset{Piece(o, o.yaml)} == multiset{Piece(o, o.yaml)};
  }

  /**
   In the output of a run that does not panic, every base object has exactly one piece if and only if no object is
   dropped for an error, and none comes out twice for a nil list.
   */
  lemma ConservedExactly<P>(pieces: seq<Piece>, base: seq<Object>, namespace: string, overlays: seq<Overlay<P>>,
                            apply: Apply)
    requires DistinctHashes(base) && Comprise(pieces, base, namespace, overlays, apply)
    requires forall k :: !PanicsAt(base, namespace, overlays, apply, k)
    ensures (forall o | o in base :: |PiecesOf(pieces, o)| == 1)
            <==> forall o | o in base :: ComesOutOnce(o, LastFor(overlays, namespace, HashOf(o)), apply)
  {
    hide DistinctHashes, Comprise, PiecesOf, Rendered, ComesOutOnce;
    forall o | o in base
      ensures |PiecesOf(pieces, o)| == 1 <==> ComesOutOnce(o, LastFor(overlays, namespace, HashOf(o)), apply)
    {
      PiecesOfObject(pieces, base, namespace, overlays, apply, o);
      LastWithIsIt(base, o);
      assert !PanicsAt(base, namespace, overlays, apply, HashOf(o));
      OnceExactly(o, LastFor(overlays, namespace, HashOf(o)), apply);
    }
  }

  /** An overlay with a nil list of patches: the object comes out as it was read and written again, and as it was. */
  lemma TwiceExample<P>(o: Object, x: string, apply: Apply, pieces: seq<Piece>)
    requires apply(o, []) == Yaml(x)
    requires Comprise<P>(pieces, [o], o.namespace, [Overlay(o.kind, o.name, None)], apply)
    ensures PiecesOf(pieces, o) == multiset{Piece(o, x), Piece(o, o.yaml)}
  {
    var overlays: seq<Overlay<P>> := [Overlay(o.kind, o.name, None)];
    PiecesOfObject(pieces, [o], o.namespace, overlays, apply, o);
    assert LastFor(overlays, o.namespace, HashOf(o)) == Some(overlays[0]);
  }

  /** A patched manifest can be split again: its documents are the pieces, each with one more newline. */
  lemma PatchedManifestSplits(text: string, pieces: seq<Piece>)
    requires text == Text(Texts(pieces)) && forall p | p in pieces :: Survives(p.text)
    ensures Split(text) == Terminated(Texts(pieces))
  {
    SurvivingTexts(pieces);
    SplitUndoesText(Texts(pieces));
  }

  lemma {:induction false} SurvivingTexts(pieces: seq<Piece>)
    requires forall p | p in pieces :: Survives(p.text)
    ensures forall text | text in Texts(pieces) :: Survives(text)
    decreases |pieces|
  {
    hide Survives;
    if pieces != [] {
      assert pieces[0] in pieces && forall p | p in pieces[1..] :: p in pieces;
      SurvivingTexts(pieces[1..]);
    }
  }
}
