/** Translating an installation spec to a values tree: which path each leaf goes to, and in which order. */
module Translate {
  import opened Options
  import opened Paths
  import opened GoHeap
  import opened Permutations
  import opened SetTreeSpec
  import opened SetTreeOrder

  // ---- Longest mapped prefix

  /** Output path by input path. Empty: the input is known but not translated to values. */
  type Mappings = map<string, string>

  function Dotted(path: Path): string {
    Join(path, PATH_SEPARATOR)
  }

  /** The length of the longest mapped prefix, 0 if there is none: the empty prefix is never looked up. */
  function LongestMapped(mappings: Mappings, path: Path): (n: nat)
    ensures n <= |path|
    ensures n > 0 ==> Dotted(path[..n]) in mappings
    ensures forall m | n < m <= |path| :: Dotted(path[..m]) !in mappings
    decreases |path|
  {
    if path == [] then 0
    else if Dotted(path) in mappings then assert path[..|path|] == path; |path|
    else
      var shorter := path[..|path| - 1];
      assert path[..|path|] == path;
      assert forall m | 0 <= m <= |shorter| :: shorter[..m] == path[..m];
      LongestMapped(mappings, shorter)
  }

  /** The output path of the longest mapped prefix, followed by what the prefix left; empty if that output path is. */
  method GetValuesPathMapping(mappings: Mappings, path: Path) returns (out: string, m: Option<string>)
    ensures m.None? <==> forall n | 0 < n <= |path| :: Dotted(path[..n]) !in mappings
    ensures m.None? ==> out == ""
    ensures m.Some? ==>
              var n := LongestMapped(mappings, path);
              && n > 0 && m.value == mappings[Dotted(path[..n])]
              && out == if m.value == "" then "" else Appended(m.value, path[n..])
  {
    var p := path;
    m := None;
    assert path[..|path|] == path;
    while |p| > 0 && m.None?
      invariant p == path[..|p|] && |p| <= |path|
      invariant forall n | |p| < n <= |path| :: Dotted(path[..n]) !in mappings
      invariant m.Some? ==> |p| > 0 && Dotted(p) in mappings && m.value == mappings[Dotted(p)]
      decreases |p|, m.None?
    {
      if Dotted(p) in mappings {
        m := Some(mappings[Dotted(p)]);
      } else {
        p := p[..|p| - 1];
      }
    }
    if m.None? || m.value == "" {
      return "", m;
    }
    var d := |path| - |p|;
    out := m.value + [PATH_SEPARATOR] + Dotted(path[|path| - d..]);
  }

  function Appended(outPath: string, suffix: Path): string {
    outPath + [PATH_SEPARATOR] + Dotted(suffix)
  }

  /**
   The translated path, parsed, is the output path followed by exactly the unmatched suffix; also when that is empty,
   where the text ends in a separator.
   */
  lemma TranslationKeepsSuffix(outPath: string, suffix: Path)
    requires PlainElements(suffix)
    ensures Parse(Appended(outPath, suffix)) == Parse(outPath) + suffix
  {
    ParseOfJoined(outPath, Dotted(suffix));
    ParseUndoesJoin(suffix);
  }

  // ---- Leaves of a spec

  datatype Field = Field(name: string, hidden: bool, value: FieldValue) // hidden: not part of the JSON form

  datatype FieldValue =
    | Nested(message: Message)           // a struct or a pointer to one
    | Entries(entries: map<string, Tree>)
    | Repeated(elements: seq<Message>)
    | Single(value: Tree)                // a scalar, a pointer to one, or an interface
    | Absent                             // a nil pointer, or a field that cannot be read

  datatype Message = NilMessage | Message(fields: seq<Field>)

  /** A leaf of the spec with the path that leads to it. */
  datatype Insertion = Insertion(path: Path, value: Tree)

  ghost function OfMessage(m: Message, path: Path): multiset<Insertion>
    decreases m
  {
    match m
    case NilMessage => multiset{}
    case Message(fields) => OfFields(fields, path)
  }

  ghost function OfFields(fields: seq<Field>, path: Path): multiset<Insertion>
    decreases fields
  {
    if fields == [] then multiset{}
    else
      (if fields[0].hidden then multiset{} else OfValue(fields[0].value, path + [fields[0].name]))
      + OfFields(fields[1..], path)
  }

  ghost function OfValue(v: FieldValue, path: Path): multiset<Insertion>
    decreases v
  {
    match v
    case Nested(m) => OfMessage(m, path)
    case Entries(entries) => OfEntries(entries, entries.Keys, path)
    case Repeated(elements) => OfElements(elements, path)
    case Single(value) => multiset{Insertion(path, value)}
    case Absent => multiset{}
  }

  ghost function OfEntries(entries: map<string, Tree>, keys: set<string>, path: Path): multiset<Insertion>
    requires keys <= entries.Keys
  {
    multiset(set k | k in keys :: Insertion(path + [k], entries[k]))
  }

  /** Elements of a slice all have the path of the slice. */
  ghost function OfElements(elements: seq<Message>, path: Path): multiset<Insertion>
    decreases elements
  {
    if elements == [] then multiset{} else OfMessage(elements[0], path) + OfElements(elements[1..], path)
  }

  // ---- What one leaf does

  predicate IsEmptyString(value: Tree) {
    value.Null? || value == Leaf(Str(""))
  }

  function ToLower(c: char): char {
    if 'A' <= c <= 'Z' then c + ('a' - 'A') else c
  }

  function FirstCharToLower(s: string): string
    requires s != ""
  {
    [ToLower(s[0])] + s[1..]
  }

  function LowerAll(path: Path): (r: Path)
    requires forall i | 0 <= i < |path| :: path[i] != ""
    ensures |r| == |path| && forall i | 0 <= i < |r| :: r[i] == FirstCharToLower(path[i])
  {
    if path == [] then [] else [FirstCharToLower(path[0])] + LowerAll(path[1..])
  }

  lemma {:induction false} NonEmptyPieces(pieces: seq<string>)
    ensures forall i | 0 <= i < |NonEmpty(pieces)| :: NonEmpty(pieces)[i] != ""
    decreases |pieces|
  {
    if pieces != [] {
      NonEmptyPieces(pieces[1..]);
    }
  }

  /** The set that a leaf is translated to; an unmapped leaf, or an empty string, is not set. */
  function OpOf(mappings: Mappings, ins: Insertion): Option<Op> {
    var n := LongestMapped(mappings, ins.path);
    if n == 0 || mappings[Dotted(ins.path[..n])] == "" || IsEmptyString(ins.value) then None
    else
      var out := Appended(mappings[Dotted(ins.path[..n])], ins.path[n..]);
      NonEmptyPieces(SplitOn(out, PATH_SEPARATOR));
      Some(Op(LowerAll(Parse(out)), ins.value))
  }

  /** An element with its first letter, if it is a capital, as a small one. */
  predicate Lowered(pe: string, pe': string) {
    && pe != "" && |pe'| == |pe| && pe'[1..] == pe[1..]
    && pe'[0] as int == pe[0] as int + if 'A' <= pe[0] <= 'Z' then 32 else 0
  }

  /**
   A leaf goes to the output path of its longest mapped prefix, followed by the rest of its own path, each element
   with a small first letter.
   */
  lemma LeafGoesTo(mappings: Mappings, path: Path, n: nat, out: Path, value: Tree)
    requires 0 < n <= |path| && Join(path[..n], '.') in mappings && mappings[Join(path[..n], '.')] == Join(out, '.')
    requires forall k | n < k <= |path| :: Join(path[..k], '.') !in mappings
    requires out != [] && forall pe | pe in out + path[n..] :: pe != "" && '.' !in pe && '/' !in pe
    requires value != Null && value != Leaf(Scalar(0, ""))
    ensures var op := OpOf(mappings, Insertion(path, value));
            && op.Some? && op.value.value == value && |op.value.path| == |out + path[n..]|
            && forall i | 0 <= i < |out + path[n..]| :: Lowered((out + path[n..])[i], op.value.path[i])
  {
    var all := out + path[n..];
    assert LongestMapped(mappings, path) == n;
    OutputParses(out, path[n..]);
    assert Parse(Appended(Dotted(out), path[n..])) == all;
    assert Dotted(out) != "" by {
      assert out[0] in all;
    }
    forall i | 0 <= i < |all|
      ensures all[i] != "" && Lowered(all[i], FirstCharToLower(all[i]))
    {
      assert all[i] in all;
    }
  }

  lemma OutputParses(out: Path, suffix: Path)
    requires forall pe | pe in out + suffix :: pe != "" && '.' !in pe && '/' !in pe
    ensures Parse(Appended(Dotted(out), suffix)) == out + suffix
  {
    assert PlainElements(out) && PlainElements(suffix) by {
      forall i | 0 <= i < |out|
        ensures PlainElement(out[i])
      {
        assert out[i] in out + suffix;
      }
      forall i | 0 <= i < |suffix|
        ensures PlainElement(suffix[i])
      {
        assert suffix[i] in out + suffix;
      }
    }
    TranslationKeepsSuffix(Dotted(out), suffix);
    ParseUndoesJoin(out);
  }

  /**
   A leaf is not set if it is nil or the empty string, or no prefix of its path is mapped, or the longest to nothing.
   */
  lemma LeafIsSkipped(mappings: Mappings, path: Path, value: Tree)
    ensures value == Null || value == Leaf(Scalar(0, "")) ==> OpOf(mappings, Insertion(path, value)) == None
    ensures (forall k | 0 < k <= |path| :: Join(path[..k], '.') !in mappings) ==>
              OpOf(mappings, Insertion(path, value)) == None
    ensures forall n | 0 < n <= |path| && Join(path[..n], '.') in mappings && mappings[Join(path[..n], '.')] == ""
                       && (forall k | n < k <= |path| :: Join(path[..k], '.') !in mappings) ::
              OpOf(mappings, Insertion(path, value)) == None
  {
    hide Appended, Parse, LowerAll;
  }

  /** Nested fields, hidden fields, maps and slices: a slice adds nothing to the path. */
  lemma LeavesExample(v: Tree, w: Tree, u: Tree)
    ensures var nested := Message([Field("B", false, Single(v)), Field("C", true, Single(v))]);
            var m := Message([Field("A", false, Nested(nested)), Field("M", false, Entries(map["k" := w])),
                              Field("S", false, Repeated([NilMessage, Message([Field("X", false, Single(u))])])),
                              Field("N", false, Absent)]);
            OfMessage(m, ["P"])
            == multiset{Insertion(["P", "A", "B"], v), Insertion(["P", "M", "k"], w), Insertion(["P", "S", "X"], u)}
  {
    hide OfFields, OfElements, OfEntries;
    var b, c, x := Field("B", false, Single(v)), Field("C", true, Single(v)), Field("X", false, Single(u));
    var a, n := Field("A", false, Nested(Message([b, c]))), Field("N", false, Absent);
    var entries := Field("M", false, Entries(map["k" := w]));
    var s := Field("S", false, Repeated([NilMessage, Message([x])]));
    NestedLeaf(b, c, v);
    SliceLeaf(x, u);
    OneEntry(w);
    hide OfMessage;
    assert ["P"] + ["A"] == ["P", "A"] && ["P"] + ["M"] == ["P", "M"] && ["P"] + ["S"] == ["P", "S"];
    FourFields(a, entries, s, n, ["P"]);
  }

  lemma FourFields(a: Field, b: Field, c: Field, d: Field, path: Path)
    requires !a.hidden && !b.hidden && !c.hidden && !d.hidden
    ensures OfMessage(Message([a, b, c, d]), path)
            == OfValue(a.value, path + [a.name]) + OfValue(b.value, path + [b.name]) + OfValue(c.value, path + [c.name])
               + OfValue(d.value, path + [d.name])
  {
    hide OfFields, OfValue;
    FieldsBegin(d, [], path);
    FieldsBegin(c, [d], path);
    FieldsBegin(b, [c, d], path);
    FieldsBegin(a, [b, c, d], path);
    assert [d] + [] == [d] && [c] + [d] == [c, d] && [b] + [c, d] == [b, c, d] && [a] + [b, c, d] == [a, b, c, d];
  }

  lemma NestedLeaf(b: Field, c: Field, v: Tree)
    requires b == Field("B", false, Single(v)) && c.hidden
    ensures OfMessage(Message([b, c]), ["P", "A"]) == multiset{Insertion(["P", "A", "B"], v)}
  {
    hide OfFields;
    assert ["P", "A"] + ["B"] == ["P", "A", "B"] && [b] + [c] == [b, c] && [c] + [] == [c];
    FieldsBegin(b, [c], ["P", "A"]);
    FieldsBegin(c, [], ["P", "A"]);
  }

  lemma SliceLeaf(x: Field, u: Tree)
    requires x == Field("X", false, Single(u))
    ensures OfElements([NilMessage, Message([x])], ["P", "S"]) == multiset{Insertion(["P", "S", "X"], u)}
  {
    hide OfFields, OfElements;
    assert ["P", "S"] + ["X"] == ["P", "S", "X"] && [x] + [] == [x];
    FieldsBegin(x, [], ["P", "S"]);
    ElementsBegin(NilMessage, [Message([x])], ["P", "S"]);
    ElementsBegin(Message([x]), [], ["P", "S"]);
    assert [NilMessage] + [Message([x])] == [NilMessage, Message([x])] && [Message([x])] + [] == [Message([x])];
  }

  lemma FieldsBegin(f: Field, rest: seq<Field>, path: Path)
    ensures OfFields([f] + rest, path)
            == (if f.hidden then multiset{} else OfValue(f.value, path + [f.name])) + OfFields(rest, path)
    ensures OfFields([], path) == multiset{}
  {
    assert ([f] + rest)[1..] == rest;
  }

  lemma ElementsBegin(m: Message, rest: seq<Message>, path: Path)
    ensures OfElements([m] + rest, path) == OfMessage(m, path) + OfElements(rest, path)
    ensures OfElements([], path) == multiset{}
  {
    assert ([m] + rest)[1..] == rest;
  }

  lemma OneEntry(w: Tree)
    ensures OfEntries(map["k" := w], map["k" := w].Keys, ["P", "M"]) == multiset{Insertion(["P", "M", "k"], w)}
  {
    assert ["P", "M"] + ["k"] == ["P", "M", "k"];
    assert (set k | k in map["k" := w].Keys :: Insertion(["P", "M"] + [k], map["k" := w][k]))
           == {Insertion(["P", "M", "k"], w)};
  }

  function OpsOf(mappings: Mappings, log: seq<Insertion>): seq<Op> {
    if log == [] then [] else AtMostOne(OpOf(mappings, log[0])) + OpsOf(mappings, log[1..])
  }

  function AtMostOne<T>(o: Option<T>): seq<T> {
    match o
    case None => []
    case Some(x) => [x]
  }

  lemma {:induction false} OpsOfAppends(mappings: Mappings, xs: seq<Insertion>, ys: seq<Insertion>)
    ensures OpsOf(mappings, xs + ys) == OpsOf(mappings, xs) + OpsOf(mappings, ys)
    decreases |xs|
  {
    hide OpOf, AtMostOne;
    if xs == [] {
      assert xs + ys == ys;
    } else {
      OpsOfAppends(mappings, xs[1..], ys);
      assert (xs + ys)[1..] == xs[1..] + ys;
    }
  }

  // ---- Sets in a given order

  /** `first` is the key that `range` visits first in a map. */
  ghost predicate Chooses(first: Tree -> Scalar) {
    forall v :: PicksRoot(v, first(v))
  }

  datatype Ran = Ran(tree: Tree, errors: seq<SetError>)

  /** A set, and the state after it. */
  ghost function DoOp(first: Tree -> Scalar, t: Tree, op: Op): (r: Outcome)
    requires t.Map? && Chooses(first)
    ensures r.tree.Map?
  {
    SetTree(t, op.path, op.value, first(op.value))
  }

  ghost function RunOps(first: Tree -> Scalar, t: Tree, ops: seq<Op>): (r: Ran)
    requires t.Map? && Chooses(first)
    ensures r.tree.Map?
    decreases |ops|
  {
    if ops == [] then Ran(t, [])
    else
      var step := DoOp(first, t, ops[0]);
      var rest := RunOps(first, step.tree, ops[1..]);
      Ran(rest.tree, AtMostOne(step.error) + rest.errors)
  }

  lemma {:induction false} RunOpsAppends(first: Tree -> Scalar, t: Tree, xs: seq<Op>, ys: seq<Op>)
    requires t.Map? && Chooses(first)
    ensures var r := RunOps(first, t, xs);
            var r' := RunOps(first, r.tree, ys);
            RunOps(first, t, xs + ys) == Ran(r'.tree, r.errors + r'.errors)
    decreases |xs|
  {
    hide DoOp, AtMostOne;
    if xs == [] {
      assert xs + ys == ys;
    } else {
      var step := DoOp(first, t, xs[0]);
      RunOpsAppends(first, step.tree, xs[1..], ys);
      assert (xs + ys)[1..] == xs[1..] + ys;
    }
  }

  ghost predicate AllMapsAlong(t: Tree, ops: seq<Op>)
    requires t.Map?
  {
    forall op | op in ops :: MapsAlong(t, op.path)
  }

  lemma {:induction false} MapsAlongAgain(t: Tree, path: Path, value: Tree)
    requires t.Map? && MapsAlong(t, path)
    ensures MapsAlong(Insert(t, path, value), path)
    decreases |path|
  {
    if |path| > 1 {
      MapsAlongAgain(Below(t, path[0]), path[1..], value);
    }
  }

  /** Sets along maps at equal or incomparable paths all succeed. */
  lemma {:induction false} OpsApartInsert(first: Tree -> Scalar, t: Tree, ops: seq<Op>)
    requires t.Map? && Chooses(first) && AllApart(ops) && AllMapsAlong(t, ops)
    ensures RunOps(first, t, ops) == Ran(InsertAll(t, ops), [])
    decreases |ops|
  {
    if ops != [] {
      var op := ops[0];
      SetAlongMaps(t, op.path, op.value, first(op.value));
      var t' := Insert(t, op.path, op.value);
      forall other | other in ops[1..]
        ensures MapsAlong(t', other.path)
      {
        assert other in ops && op in ops && MapsAlong(t, other.path);
        if other.path == op.path {
          MapsAlongAgain(t, op.path, op.value);
        } else {
          StillMapsAlong(t, op.path, op.value, other.path);
        }
      }
      OpsApartInsert(first, t', ops[1..]);
    }
  }

  /** Leaves visited in another order are sets in another order. */
  lemma OpsOfReordered(mappings: Mappings, xs: seq<Insertion>, ys: seq<Insertion>)
    requires multiset(xs) == multiset(ys)
    ensures multiset(OpsOf(mappings, xs)) == multiset(OpsOf(mappings, ys))
  {
    OpsOfSum(mappings, xs);
    OpsOfSum(mappings, ys);
    SumReordered(OpsOfOne(mappings), xs, ys);
  }

  function OpsOfOne(mappings: Mappings): Insertion -> multiset<Op> {
    (ins: Insertion) => multiset(AtMostOne(OpOf(mappings, ins)))
  }

  lemma {:induction false} OpsOfSum(mappings: Mappings, xs: seq<Insertion>)
    ensures multiset(OpsOf(mappings, xs)) == Sum(OpsOfOne(mappings), xs)
    decreases |xs|
  {
    hide OpOf, AtMostOne;
    if xs != [] {
      OpsOfSum(mappings, xs[1..]);
    }
  }
}
