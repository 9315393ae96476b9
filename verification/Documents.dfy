/** The text of a list of objects, and splitting it again. */
module Documents {
  import opened Options
  import opened Paths

  const SEPARATOR := "---"

  /** `Objects.YAML`: every document is followed by a separator. */
  function Text(docs: seq<string>): string {
    if docs == [] then "" else docs[0] + "\n---\n" + Text(docs[1..])
  }

  // ---- Splitting

  function DropCR(line: string): string {
    if line != "" && line[|line| - 1] == '\r' then line[..|line| - 1] else line
  }

  /** The lines that a scanner yields. What follows the last newline is a line if it is not empty. */
  function Lines(text: string): seq<string>
    decreases |text|
  {
    var lines := SplitOn(text, '\n');
    Scanned(if lines[|lines| - 1] == "" then lines[..|lines| - 1] else lines)
  }

  function Scanned(lines: seq<string>): (r: seq<string>)
    ensures |r| == |lines| && forall i | 0 <= i < |r| :: r[i] == DropCR(lines[i])
  {
    if lines == [] then [] else [DropCR(lines[0])] + Scanned(lines[1..])
  }

  /** What a buffer and the lines after it are cut into. */
  function Chunks(buffer: string, lines: seq<string>): seq<string>
    decreases |lines|
  {
    if lines == [] then [buffer]
    else if lines[0] == SEPARATOR then [buffer] + Chunks("", lines[1..])
    else Chunks(buffer + lines[0] + "\n", lines[1..])
  }

  /** White space as Unicode has it. */
  predicate IsSpace(c: char) {
    || '\t' <= c <= '\r' || c == ' ' || c == '\U{0085}' || c == '\U{00A0}' || c == '\U{1680}'
    || '\U{2000}' <= c <= '\U{200a}' || c == '\U{2028}' || c == '\U{2029}' || c == '\U{202f}' || c == '\U{205f}'
    || c == '\U{3000}'
  }

  function TrimLeft(s: string): string {
    if s != "" && IsSpace(s[0]) then TrimLeft(s[1..]) else s
  }

  function TrimRight(s: string): string {
    if s != "" && IsSpace(s[|s| - 1]) then TrimRight(s[..|s| - 1]) else s
  }

  predicate IsContent(line: string) {
    var l := TrimRight(TrimLeft(line));
    l != "" && l[0] != '#'
  }

  /** Some line is neither blank nor a comment. */
  predicate HasContent(doc: string) {
    exists i | 0 <= i < |SplitOn(doc, '\n')| :: IsContent(SplitOn(doc, '\n')[i])
  }

  function WithContent(docs: seq<string>): seq<string> {
    if docs == [] then [] else (if HasContent(docs[0]) then [docs[0]] else []) + WithContent(docs[1..])
  }

  /** The documents of a manifest that are parsed. */
  function Split(manifest: string): seq<string> {
    WithContent(Chunks("", Lines(manifest)))
  }

  datatype Parsed<T> = Parsed(value: T, yaml: string)

  /** Every document parsed, or the first that does not. */
  datatype ParseResult<T> = Objects(objects: seq<Parsed<T>>) | Malformed(doc: string)

  function ParseAll<T>(docs: seq<string>, decode: string -> Option<T>): ParseResult<T> {
    if docs == [] then Objects([])
    else if decode(docs[0]).None? then Malformed(docs[0])
    else
      match ParseAll(docs[1..], decode)
      case Malformed(doc) => Malformed(doc)
      case Objects(os) => Objects([Parsed(decode(docs[0]).value, docs[0])] + os)
  }

  /** The part of `ParseObjectsFromYAMLManifest` that splits. */
  method SplitManifest(manifest: string) returns (yamls: seq<string>)
    ensures yamls == Chunks("", Lines(manifest))
  {
    var b := "";
    var lines := Lines(manifest);
    yamls := [];
    for i := 0 to |lines|
      invariant yamls + Chunks(b, lines[i..]) == Chunks("", lines)
    {
      assert lines[i..][0] == lines[i] && lines[i..][1..] == lines[i + 1..];
      if lines[i] == SEPARATOR {
        assert yamls + ([b] + Chunks("", lines[i + 1..])) == yamls + [b] + Chunks("", lines[i + 1..]);
        yamls, b := yamls + [b], "";
      } else {
        b := b + lines[i] + "\n";
      }
    }
    assert lines[|lines|..] == [];
    yamls := yamls + [b];
  }

  /** `ParseObjectsFromYAMLManifest`: the documents with content, up to the first that does not parse. */
  method ParseManifest<T>(manifest: string, decode: string -> Option<T>) returns (r: ParseResult<T>)
    ensures r == ParseAll(Split(manifest), decode)
  {
    hide HasContent, Lines, Chunks, WithContent, ParseAll, After;
    var yamls := SplitManifest(manifest);
    assert yamls[0..] == yamls;
    var objects: seq<Parsed<T>> := [];
    AfterNone(ParseAll(WithContent(yamls), decode));
    for i := 0 to |yamls|
      invariant ParseAll(WithContent(yamls), decode) == After(objects, ParseAll(WithContent(yamls[i..]), decode))
    {
      ParseNext(yamls, i, decode);
      var hasContent := AnyContent(yamls[i]);
      if !hasContent {
        continue;
      }
      var out := decode(yamls[i]);
      if out.None? {
        AfterMalformed(objects, yamls[i]);
        return Malformed(yamls[i]);
      }
      AfterAfter(objects, Parsed(out.value, yamls[i]), ParseAll(WithContent(yamls[i + 1..]), decode));
      objects := objects + [Parsed(out.value, yamls[i])];
    }
    NothingLeft(objects, yamls, decode);
    return Objects(objects);
  }

  lemma NothingLeft<T>(objects: seq<Parsed<T>>, yamls: seq<string>, decode: string -> Option<T>)
    ensures After(objects, ParseAll(WithContent(yamls[|yamls|..]), decode)) == Objects(objects)
  {
    assert objects + [] == objects;
  }

  lemma AfterNone<T>(rest: ParseResult<T>)
    ensures After([], rest) == rest
  {
    assert rest.Objects? ==> [] + rest.objects == rest.objects;
  }

  lemma AfterMalformed<T>(objects: seq<Parsed<T>>, doc: string)
    ensures After(objects, Malformed(doc)) == Malformed(doc)
  {
  }

  lemma AfterAfter<T>(objects: seq<Parsed<T>>, o: Parsed<T>, rest: ParseResult<T>)
    ensures After(objects, After([o], rest)) == After(objects + [o], rest)
  {
    assert rest.Objects? ==> objects + ([o] + rest.objects) == objects + [o] + rest.objects;
  }

  lemma ParseNext<T>(yamls: seq<string>, i: nat, decode: string -> Option<T>)
    requires i < |yamls|
    ensures ParseAll(WithContent(yamls[i..]), decode)
            == if !HasContent(yamls[i]) then ParseAll(WithContent(yamls[i + 1..]), decode)
               else if decode(yamls[i]).None? then Malformed(yamls[i])
               else After([Parsed(decode(yamls[i]).value, yamls[i])], ParseAll(WithContent(yamls[i + 1..]), decode))
  {
    hide HasContent;
    assert yamls[i..][0] == yamls[i] && yamls[i..][1..] == yamls[i + 1..];
    var rest := WithContent(yamls[i + 1..]);
    if HasContent(yamls[i]) {
      assert WithContent(yamls[i..]) == [yamls[i]] + rest;
      assert ([yamls[i]] + rest)[1..] == rest;
    } else {
      assert WithContent(yamls[i..]) == [] + rest == rest;
    }
  }

  function After<T>(objects: seq<Parsed<T>>, rest: ParseResult<T>): ParseResult<T> {
    match rest
    case Malformed(doc) => rest
    case Objects(os) => Objects(objects + os)
  }

  method AnyContent(yaml: string) returns (hasContent: bool)
    ensures hasContent == HasContent(yaml)
  {
    var lines := SplitOn(yaml, '\n');
    for i := 0 to |lines|
      invariant forall j | 0 <= j < i :: !IsContent(lines[j])
    {
      var l := TrimRight(TrimLeft(lines[i]));
      if l != "" && l[0] != '#' {
        return true;
      }
    }
    return false;
  }

  // ---- Splitting undoes joining

  function RawLines(docs: seq<string>): seq<string> {
    if docs == [] then [] else SplitOn(docs[0], '\n') + [SEPARATOR] + RawLines(docs[1..])
  }

  lemma {:induction false} LinesOfText(docs: seq<string>)
    ensures SplitOn(Text(docs), '\n') == RawLines(docs) + [""]
    ensures Lines(Text(docs)) == Scanned(RawLines(docs))
    decreases |docs|
  {
    hide SplitOn, Scanned;
    EmptySplits();
    if docs != [] {
      LinesOfText(docs[1..]);
      var rest := Text(docs[1..]);
      SplitOfPlain(SEPARATOR, '\n');
      SplitOfJoined(SEPARATOR, rest, '\n');
      SplitOfJoined(docs[0], SEPARATOR + ['\n'] + rest, '\n');
      TextRegrouped(docs[0], rest);
      Regrouped(SplitOn(docs[0], '\n'), [SEPARATOR], RawLines(docs[1..]), [""]);
    }
    assert (RawLines(docs) + [""])[..|RawLines(docs)|] == RawLines(docs);
  }

  lemma EmptySplits()
    ensures SplitOn("", '\n') == [""]
  {
  }

  lemma TextRegrouped(doc: string, rest: string)
    ensures doc + "\n---\n" + rest == doc + ['\n'] + (SEPARATOR + ['\n'] + rest)
  {
  }

  lemma Regrouped<T>(a: seq<T>, b: seq<T>, c: seq<T>, d: seq<T>)
    ensures a + b + c + d == a + (b + (c + d))
  {
  }

  /** A line that the scanner does not alter, and that does not separate. */
  predicate KeptLine(line: string) {
    DropCR(line) == line != SEPARATOR
  }

  predicate AllKept(lines: seq<string>) {
    forall i | 0 <= i < |lines| :: KeptLine(lines[i])
  }

  predicate KeptLines(doc: string) {
    AllKept(SplitOn(doc, '\n'))
  }

  function Body(lines: seq<string>): string {
    if lines == [] then "" else lines[0] + "\n" + Body(lines[1..])
  }

  lemma {:induction false} BodyOfLines(doc: string)
    ensures Body(SplitOn(doc, '\n')) == doc + "\n"
    decreases |doc|
  {
    if doc == "" {
      assert [""][1..] == [];
    } else {
      BodyOfLines(doc[1..]);
      var lines := SplitOn(doc[1..], '\n');
      assert doc == [doc[0]] + doc[1..];
      if doc[0] == '\n' {
        assert ([""] + lines)[1..] == lines;
      } else {
        BodyOfPrepend(doc[0], lines);
        assert [doc[0]] + (doc[1..] + "\n") == [doc[0]] + doc[1..] + "\n";
      }
    }
  }

  lemma BodyOfPrepend(c: char, lines: seq<string>)
    requires lines != []
    ensures Body(Prepend(c, lines)) == [c] + Body(lines)
  {
    assert Prepend(c, lines)[1..] == lines[1..];
    assert [c] + lines[0] + "\n" + Body(lines[1..]) == [c] + (lines[0] + "\n" + Body(lines[1..]));
  }

  lemma {:induction false} ChunksOfKept(b: string, lines: seq<string>, rest: seq<string>)
    requires AllKept(lines)
    ensures Chunks(b, lines + [SEPARATOR] + rest) == [b + Body(lines)] + Chunks("", rest)
    decreases |lines|
  {
    var all := lines + [SEPARATOR] + rest;
    if lines == [] {
      assert all[1..] == rest && b + "" == b;
    } else {
      assert all[1..] == lines[1..] + [SEPARATOR] + rest;
      ChunksOfKept(b + lines[0] + "\n", lines[1..], rest);
      assert b + lines[0] + "\n" + Body(lines[1..]) == b + (lines[0] + "\n" + Body(lines[1..]));
    }
  }

  lemma ScannedAppends(xs: seq<string>, ys: seq<string>)
    ensures Scanned(xs + ys) == Scanned(xs) + Scanned(ys)
  {
  }

  lemma ContentWithNewline(doc: string)
    ensures HasContent(doc + "\n") == HasContent(doc) && !HasContent("")
  {
    SplitOfJoined(doc, "", '\n');
    assert doc + ['\n'] + "" == doc + "\n";
    var lines, more := SplitOn(doc, '\n'), SplitOn(doc + "\n", '\n');
    assert more == lines + [""] && !IsContent("");
    if HasContent(doc) {
      var i :| 0 <= i < |lines| && IsContent(lines[i]);
      assert more[i] == lines[i];
    }
  }

  function Terminated(docs: seq<string>): seq<string> {
    if docs == [] then [] else [docs[0] + "\n"] + Terminated(docs[1..])
  }

  /** A document that is found again: it has content, and splitting neither cuts it nor alters one of its lines. */
  predicate Survives(doc: string) {
    HasContent(doc) && KeptLines(doc)
  }

  lemma {:induction false} SurvivorsComeBack(docs: seq<string>)
    requires forall i | 0 <= i < |docs| :: Survives(docs[i])
    ensures WithContent(Chunks("", Scanned(RawLines(docs)))) == Terminated(docs)
    decreases |docs|
  {
    if docs == [] {
      ContentWithNewline("");
      assert [""][1..] == [];
    } else {
      var lines, rest := SplitOn(docs[0], '\n'), Scanned(RawLines(docs[1..]));
      SurvivorsComeBack(docs[1..]);
      ScannedAppends(lines + [SEPARATOR], RawLines(docs[1..]));
      assert Scanned(lines + [SEPARATOR]) == lines + [SEPARATOR];
      ChunksOfKept("", lines, rest);
      BodyOfLines(docs[0]);
      ContentWithNewline(docs[0]);
      assert "" + Body(lines) == docs[0] + "\n";
      assert Chunks("", lines + [SEPARATOR] + rest)[1..] == Chunks("", rest);
    }
  }

  // ---- Nothing else comes back

  function Size(docs: seq<string>): nat {
    if docs == [] then 0 else |docs[0]| + Size(docs[1..])
  }

  /** What the lines contribute to the chunks. */
  function Weight(lines: seq<string>): nat {
    if lines == [] then 0 else (if lines[0] == SEPARATOR then 0 else |lines[0]| + 1) + Weight(lines[1..])
  }

  lemma {:induction false} SizeOfChunks(b: string, lines: seq<string>)
    ensures Size(Chunks(b, lines)) == |b| + Weight(lines)
    decreases |lines|
  {
    if lines == [] {
      assert [b][1..] == [];
    } else if lines[0] == SEPARATOR {
      SizeOfChunks("", lines[1..]);
      assert ([b] + Chunks("", lines[1..]))[1..] == Chunks("", lines[1..]);
    } else {
      SizeOfChunks(b + lines[0] + "\n", lines[1..]);
    }
  }

  lemma {:induction false} SizeWithContent(docs: seq<string>)
    ensures Size(WithContent(docs)) <= Size(docs)
    ensures forall doc | doc in WithContent(docs) :: HasContent(doc)
    decreases |docs|
  {
    hide HasContent;
    if docs != [] {
      SizeWithContent(docs[1..]);
      var rest := WithContent(docs[1..]);
      assert [] + rest == rest && ([docs[0]] + rest)[1..] == rest;
    }
  }

  /** Only lines that are kept weigh what they are long. */
  lemma {:induction false} WeightOfScanned(lines: seq<string>)
    ensures Weight(Scanned(lines)) <= |Body(lines)|
    ensures Weight(Scanned(lines)) == |Body(lines)| <==> AllKept(lines)
    decreases |lines|
  {
    hide AllKept, KeptLine;
    AllKeptStep(lines);
    if lines != [] {
      WeightOfScanned(lines[1..]);
      assert Scanned(lines)[1..] == Scanned(lines[1..]);
      LineWeight(lines[0]);
    }
  }

  lemma AllKeptStep(lines: seq<string>)
    ensures AllKept(lines) <==> lines == [] || (KeptLine(lines[0]) && AllKept(lines[1..]))
  {
    if lines != [] {
      assert forall i | 1 <= i < |lines| :: lines[i] == lines[1..][i - 1];
    }
  }

  lemma LineWeight(line: string)
    ensures var w := if DropCR(line) == SEPARATOR then 0 else |DropCR(line)| + 1;
            w <= |line| + 1 && (w == |line| + 1 <==> KeptLine(line))
  {
  }

  lemma {:induction false} WeightAppends(xs: seq<string>, ys: seq<string>)
    ensures Weight(xs + ys) == Weight(xs) + Weight(ys)
    decreases |xs|
  {
    if xs == [] {
      assert xs + ys == ys;
    } else {
      assert (xs + ys)[1..] == xs[1..] + ys;
      WeightAppends(xs[1..], ys);
    }
  }

  lemma {:induction false} WeightOfDocs(docs: seq<string>)
    ensures Weight(Scanned(RawLines(docs))) <= Size(Terminated(docs))
    ensures Weight(Scanned(RawLines(docs))) == Size(Terminated(docs)) ==> forall doc | doc in docs :: KeptLines(doc)
    decreases |docs|
  {
    hide Weight, Scanned, SplitOn, Body;
    if docs == [] {
      WeightAppends([], []);
      ScannedAppends([], []);
    } else {
      var lines, rest := SplitOn(docs[0], '\n'), RawLines(docs[1..]);
      WeightOfDocs(docs[1..]);
      WeightOfScanned(lines);
      BodyOfLines(docs[0]);
      ScannedAppends(lines + [SEPARATOR], rest);
      ScannedAppends(lines, [SEPARATOR]);
      WeightAppends(Scanned(lines) + Scanned([SEPARATOR]), Scanned(rest));
      WeightAppends(Scanned(lines), Scanned([SEPARATOR]));
      SeparatorWeighsNothing();
      assert docs == [docs[0]] + docs[1..];
    }
  }

  lemma SeparatorWeighsNothing()
    ensures Weight(Scanned([SEPARATOR])) == 0 && Weight(Scanned([])) == 0
  {
    assert Scanned([SEPARATOR]) == [SEPARATOR] && [SEPARATOR][1..] == [];
  }

  /**
   Splitting the text of some documents gives each of them back, in order and with one more newline, exactly if each
   has content and no line of it is a separator or ends in a carriage return.
   */
  lemma SplitUndoesText(docs: seq<string>)
    ensures Split(Text(docs)) == Terminated(docs) <==> forall doc | doc in docs :: Survives(doc)
  {
    hide HasContent, KeptLines, Chunks, Scanned, RawLines, WithContent;
    var chunks := Chunks("", Scanned(RawLines(docs)));
    LinesOfText(docs);
    if forall doc | doc in docs :: Survives(doc) {
      SurvivorsComeBack(docs);
    }
    if WithContent(chunks) == Terminated(docs) {
      SizeOfChunks("", Scanned(RawLines(docs)));
      SizeWithContent(chunks);
      WeightOfDocs(docs);
      forall doc | doc in docs
        ensures HasContent(doc)
      {
        ContentWithNewline(doc);
        TerminatedHas(docs, doc);
      }
    }
  }

  lemma {:induction false} TerminatedHas(docs: seq<string>, doc: string)
    requires doc in docs
    ensures doc + "\n" in Terminated(docs)
    decreases |docs|
  {
    if docs[0] != doc {
      TerminatedHas(docs[1..], doc);
    }
  }

  // ---- What counts as content

  /** White space among the ASCII characters. */
  lemma AsciiSpaces(c: char)
    requires c < '\U{0080}'
    ensures IsSpace(c) <==> c == ' ' || c == '\t' || c == '\n' || c == '\r' || c == '\U{000B}' || c == '\U{000C}'
  {
  }

  /** A line is content exactly if its first character that is no white space is there and is no '#'. */
  lemma {:induction false} ContentExactly(line: string)
    ensures IsContent(line)
            <==> exists i | 0 <= i < |line| ::
                   !IsSpace(line[i]) && line[i] != '#' && forall j | 0 <= j < i :: IsSpace(line[j])
  {
    var n := SpacesBefore(line);
    TrimRightKeeps(TrimLeft(line));
    if i :| 0 <= i < |line| && !IsSpace(line[i]) && line[i] != '#' && forall j | 0 <= j < i :: IsSpace(line[j]) {
      assert i == n;
    }
  }

  lemma {:induction false} SpacesBefore(line: string) returns (n: nat)
    ensures n <= |line| && TrimLeft(line) == line[n..] && (n < |line| ==> !IsSpace(line[n]))
    ensures forall j | 0 <= j < n :: IsSpace(line[j])
    decreases |line|
  {
    n := 0;
    if line != "" && IsSpace(line[0]) {
      n := SpacesBefore(line[1..]);
      n := n + 1;
      forall j | 0 <= j < n
        ensures IsSpace(line[j])
      {
        assert j > 0 ==> line[j] == line[1..][j - 1];
      }
    }
  }

  lemma {:induction false} TrimRightKeeps(s: string)
    requires s == "" || !IsSpace(s[0])
    ensures TrimRight(s) == "" <==> s == ""
    ensures s != "" ==> TrimRight(s)[0] == s[0]
    decreases |s|
  {
    if s != "" && IsSpace(s[|s| - 1]) {
      assert |s| > 1;
      TrimRightKeeps(s[..|s| - 1]);
    }
  }

  /** A document survives exactly if it has content, and none of its lines is "---" or ends in a carriage return. */
  lemma SurvivesExactly(doc: string)
    ensures Survives(doc)
            <==> HasContent(doc)
                 && forall line | line in SplitOn(doc, '\n') ::
                      line != "---" && (line == "" || line[|line| - 1] != '\r')
  {
  }

  /** Two documents, the second with a comment. */
  lemma SplitExample()
    ensures Split("a\n---\n# b\nc\n---\n") == ["a\n", "# b\nc\n"]
  {
    hide Split, Text, Survives, Terminated;
    ExampleText();
    ExampleSurvives("a", ["a"]);
    ExampleSurvives("# b\nc", ["# b", "c"]);
    SplitUndoesText(["a", "# b\nc"]);
    TerminatedExample();
  }

  lemma TerminatedExample()
    ensures Terminated(["a", "# b\nc"]) == ["a\n", "# b\nc\n"]
  {
    assert ["a", "# b\nc"][1..] == ["# b\nc"] && ["# b\nc"][1..] == [];
    assert Terminated(["# b\nc"]) == ["# b\nc" + "\n"];
    assert "# b\nc" + "\n" == "# b\nc\n" && "a" + "\n" == "a\n";
  }

  lemma ExampleText()
    ensures Text(["a", "# b\nc"]) == "a\n---\n# b\nc\n---\n"
  {
    assert ["a", "# b\nc"][1..] == ["# b\nc"] && ["# b\nc"][1..] == [];
    assert Text(["# b\nc"]) == "# b\nc\n---\n";
  }

  lemma ExampleSurvives(doc: string, lines: seq<string>)
    requires (doc == "a" && lines == ["a"]) || (doc == "# b\nc" && lines == ["# b", "c"])
    ensures Survives(doc)
  {
    var last := lines[|lines| - 1];
    LinesOfExample(doc, lines);
    ContentExactly(last);
    SurvivesExactly(doc);
    assert SplitOn(doc, '\n')[|lines| - 1] == last;
  }

  lemma LinesOfExample(doc: string, lines: seq<string>)
    requires (doc == "a" && lines == ["a"]) || (doc == "# b\nc" && lines == ["# b", "c"])
    ensures SplitOn(doc, '\n') == lines
  {
    if doc == "a" {
      SplitOfPlain("a", '\n');
    } else {
      SplitOfPlain("# b", '\n');
      SplitOfPlain("c", '\n');
      SplitOfJoined("# b", "c", '\n');
      assert "# b" + ['\n'] + "c" == doc;
    }
  }

  /** The scanner drops one carriage return from the end of a line. */
  lemma CarriageReturns(line: string)
    ensures DropCR(line + "\r") == line && (line == "" || line[|line| - 1] != '\r' ==> DropCR(line) == line)
  {
  }
}
