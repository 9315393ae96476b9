/** Path strings: `a.b.[key:value].c`. */
module Paths {
  import opened Options

  type Path = seq<string>

  const PATH_SEPARATOR := '.'
  const KV_SEPARATOR := ':'
  const ESCAPE := '\\'

  /** `strings.Join` with a one-character separator. */
  function Join(pieces: seq<string>, sep: char): string {
    if pieces == [] then ""
    else if |pieces| == 1 then pieces[0]
    else pieces[0] + [sep] + Join(pieces[1..], sep)
  }

  // ---- Splitting at unescaped separators

  predicate SplitsAt(s: string, sep: char, i: nat)
    requires i < |s|
  {
    s[i] == sep && (i == 0 || s[i - 1] != ESCAPE)
  }

  /** The pieces of `s` from index `i` on, the first of which began at `start`. */
  function PiecesFrom(s: string, sep: char, start: nat, i: nat): seq<string>
    requires start <= i <= |s|
    decreases |s| - i
  {
    if i == |s| then [s[start..]]
    else if SplitsAt(s, sep, i) then [s[start..i]] + PiecesFrom(s, sep, i + 1, i + 1)
    else PiecesFrom(s, sep, start, i + 1)
  }

  function SplitEscaped(s: string, sep: char): seq<string> {
    if s == "" then [] else PiecesFrom(s, sep, 0, 0)
  }

  method SplitEscapedLoop(s: string, sep: char) returns (out: seq<string>)
    ensures out == SplitEscaped(s, sep)
  {
    if |s| == 0 {
      return [];
    }
    var prev: char, start := '\0', 0;
    out := [];
    for i := 0 to |s|
      invariant start <= i && (i > 0 ==> prev == s[i - 1])
      invariant out + PiecesFrom(s, sep, start, i) == SplitEscaped(s, sep)
    {
      if s[i] == sep && (i == 0 || prev != ESCAPE) {
        assert out + PiecesFrom(s, sep, start, i) == out + [s[start..i]] + PiecesFrom(s, sep, i + 1, i + 1);
        out := out + [s[start..i]];
        start := i + 1;
      }
      prev := s[i];
    }
    out := out + [s[start..]];
  }

  /** Every separator inside the piece follows an escape character. */
  predicate AllEscaped(piece: string, sep: char) {
    forall i | 0 <= i < |piece| && piece[i] == sep :: i > 0 && piece[i - 1] == ESCAPE
  }

  predicate EndsEscaped(piece: string) {
    piece != "" && piece[|piece| - 1] == ESCAPE
  }

  /** Pieces that could not have been split further, or elsewhere. */
  predicate WellSplit(pieces: seq<string>, sep: char) {
    && pieces != []
    && (forall i | 0 <= i < |pieces| :: AllEscaped(pieces[i], sep))
    && (forall i | 0 <= i < |pieces| - 1 :: !EndsEscaped(pieces[i]))
  }

  lemma {:induction false} PiecesJoin(s: string, sep: char, start: nat, i: nat)
    requires start <= i <= |s|
    ensures PiecesFrom(s, sep, start, i) != [] && Join(PiecesFrom(s, sep, start, i), sep) == s[start..]
    decreases |s| - i
  {
    if i < |s| {
      if SplitsAt(s, sep, i) {
        PiecesJoin(s, sep, i + 1, i + 1);
        assert s[start..] == s[start..i] + [sep] + s[i + 1..];
      } else {
        PiecesJoin(s, sep, start, i + 1);
      }
    }
  }

  /** Joining the pieces gives the string back. */
  lemma JoinUndoesSplit(s: string, sep: char)
    ensures Join(SplitEscaped(s, sep), sep) == s
  {
    if s != "" {
      PiecesJoin(s, sep, 0, 0);
    }
  }

  lemma SliceStep<T>(s: seq<T>, lo: nat, i: nat)
    requires lo <= i < |s|
    ensures s[lo..i + 1] == s[lo..i] + [s[i]]
    ensures lo == 0 ==> s[lo..i] == s[..i] && s[lo..i + 1] == s[..i + 1]
  {
  }

  lemma EscapedGrows(s: string, sep: char, start: nat, i: nat)
    requires sep != ESCAPE && start <= i < |s| && (start > 0 ==> s[start - 1] == sep)
    requires AllEscaped(s[start..i], sep) && !SplitsAt(s, sep, i)
    ensures AllEscaped(s[start..i + 1], sep)
  {
    SliceStep(s, start, i);
    var piece := s[start..i + 1];
    forall j | 0 <= j < |piece| && piece[j] == sep
      ensures j > 0 && piece[j - 1] == ESCAPE
    {
      if j < i - start {
        assert s[start..i][j] == sep;
      }
    }
  }

  lemma WellSplitCons(piece: string, rest: seq<string>, sep: char)
    requires AllEscaped(piece, sep) && !EndsEscaped(piece) && WellSplit(rest, sep)
    ensures WellSplit([piece] + rest, sep)
  {
    var all := [piece] + rest;
    forall i | 0 <= i < |all|
      ensures AllEscaped(all[i], sep) && (i < |all| - 1 ==> !EndsEscaped(all[i]))
    {
      if i > 0 {
        assert all[i] == rest[i - 1];
      }
    }
  }

  lemma {:induction false} PiecesWellSplit(s: string, sep: char, start: nat, i: nat)
    requires sep != ESCAPE && start <= i <= |s| && (start > 0 ==> s[start - 1] == sep)
    requires AllEscaped(s[start..i], sep)
    ensures WellSplit(PiecesFrom(s, sep, start, i), sep)
    decreases |s| - i
  {
    if i < |s| {
      if SplitsAt(s, sep, i) {
        PiecesWellSplit(s, sep, i + 1, i + 1);
        WellSplitCons(s[start..i], PiecesFrom(s, sep, i + 1, i + 1), sep);
      } else {
        EscapedGrows(s, sep, start, i);
        PiecesWellSplit(s, sep, start, i + 1);
      }
    } else {
      assert s[start..i] == s[start..];
    }
  }

  /** Where a well-split list has its first separator. */
  lemma FirstPiece(pieces: seq<string>, sep: char, s: string)
    requires sep != ESCAPE && WellSplit(pieces, sep) && Join(pieces, sep) == s
    ensures |pieces[0]| <= |s| && pieces[0] == s[..|pieces[0]|]
    ensures forall i | 0 <= i < |pieces[0]| :: !SplitsAt(s, sep, i)
    ensures |pieces| > 1 ==> |pieces[0]| < |s| && SplitsAt(s, sep, |pieces[0]|)
    ensures |pieces| > 1 ==> Join(pieces[1..], sep) == s[|pieces[0]| + 1..] && WellSplit(pieces[1..], sep)
    ensures |pieces| == 1 ==> s == pieces[0]
  {
    var n := |pieces[0]|;
    if |pieces| > 1 {
      assert s == pieces[0] + [sep] + Join(pieces[1..], sep);
    }
    forall i | 0 <= i < n
      ensures !SplitsAt(s, sep, i)
    {
      assert s[i] == pieces[0][i];
    }
  }

  /** The split is the only one: pieces that join to the string and could not be split otherwise are its pieces. */
  lemma {:induction false} SplitIsUnique(ps: seq<string>, qs: seq<string>, sep: char)
    requires sep != ESCAPE && WellSplit(ps, sep) && WellSplit(qs, sep) && Join(ps, sep) == Join(qs, sep)
    ensures ps == qs
    decreases |ps|
  {
    var s := Join(ps, sep);
    FirstPiece(ps, sep, s);
    FirstPiece(qs, sep, s);
    var n, m := |ps[0]|, |qs[0]|;
    assert n == m;
    if |ps| > 1 {
      SplitIsUnique(ps[1..], qs[1..], sep);
      assert ps == [ps[0]] + ps[1..] && qs == [qs[0]] + qs[1..];
    }
  }

  lemma SplitCharacterized(s: string, sep: char, pieces: seq<string>)
    requires sep != ESCAPE && s != ""
    ensures pieces == SplitEscaped(s, sep) <==> WellSplit(pieces, sep) && Join(pieces, sep) == s
  {
    PiecesJoin(s, sep, 0, 0);
    PiecesWellSplit(s, sep, 0, 0);
    if WellSplit(pieces, sep) && Join(pieces, sep) == s {
      SplitIsUnique(pieces, SplitEscaped(s, sep), sep);
    }
  }

  // ---- Key/value elements

  predicate IsKeyChar(c: char) {
    'a' <= c <= 'z' || 'A' <= c <= 'Z' || '0' <= c <= '9' || c == '_' || c == '-'
  }

  predicate IsValidPathElement(pe: string) {
    forall i | 0 <= i < |pe| :: IsKeyChar(pe[i])
  }

  function RemoveBrackets(pe: string): Option<string> {
    if |pe| == 0 || pe[0] != '[' || pe[|pe| - 1] != ']' then None else Some(pe[1..|pe| - 1])
  }

  predicate IsKVPathElement(pe: string) {
    var inner := RemoveBrackets(pe);
    inner.Some? &&
    var kv := SplitEscaped(inner.value, KV_SEPARATOR);
    |kv| == 2 && |kv[0]| != 0 && |kv[1]| != 0 && IsValidPathElement(kv[0])
  }

  /** The key and the value of `[key:value]`; nothing stands for the error. */
  function PathKV(pe: string): Option<(string, string)> {
    if !IsKVPathElement(pe) then None
    else
      var kv := SplitEscaped(RemoveBrackets(pe).value, KV_SEPARATOR);
      Some((kv[0], kv[1]))
  }

  /** The text of `[text]`; nothing stands for the error. */
  function PathV(pe: string): Option<string> {
    var inner := RemoveBrackets(pe);
    if inner.None? || |inner.value| == 0 then None else inner
  }

  /**
   An element `[k:v]` gives `k` and `v` back exactly if neither is empty, `k` consists of letters, digits, underscores
   and hyphens, and every colon in `v` follows a backslash.
   */
  lemma KVRoundTrip(k: string, v: string)
    ensures PathKV("[" + k + ":" + v + "]") == Some((k, v))
            <==> && k != "" && v != ""
                 && (forall i | 0 <= i < |k| ::
                       || 'a' <= k[i] <= 'z' || 'A' <= k[i] <= 'Z' || '0' <= k[i] <= '9'
                       || k[i] == '_' || k[i] == '-')
                 && (forall i | 0 <= i < |v| && v[i] == ':' :: i > 0 && v[i - 1] == '\\')
  {
    KVPieces(k, v);
  }

  /** What a key and a value must be like for `[k:v]` to be a selector. */
  predicate IsSelector(k: string, v: string) {
    && k != "" && v != ""
    && (forall i | 0 <= i < |k| ::
          'a' <= k[i] <= 'z' || 'A' <= k[i] <= 'Z' || '0' <= k[i] <= '9' || k[i] == '_' || k[i] == '-')
    && (forall i | 0 <= i < |v| && v[i] == ':' :: i > 0 && v[i - 1] == '\\')
  }

  lemma SelectorParses(k: string, v: string)
    requires IsSelector(k, v)
    ensures PathKV("[" + k + ":" + v + "]") == Some((k, v))
  {
    KVRoundTrip(k, v);
  }

  /** Only elements of that form are key/value elements. */
  lemma KVForm(pe: string)
    ensures PathKV(pe).Some? ==> var (k, v) := PathKV(pe).value; pe == "[" + k + ":" + v + "]"
  {
    if PathKV(pe).Some? {
      var inner := pe[1..|pe| - 1];
      var kv := SplitEscaped(inner, KV_SEPARATOR);
      JoinUndoesSplit(inner, KV_SEPARATOR);
      assert kv[1..] == [kv[1]] && Join(kv, KV_SEPARATOR) == kv[0] + [KV_SEPARATOR] + kv[1];
      assert pe == "[" + inner + "]";
    }
  }

  /** The text between brackets is a value element exactly if it is not empty, and nothing else is one. */
  lemma VRoundTrip(v: string, pe: string)
    ensures PathV("[" + v + "]") == if v == "" then None else Some(v)
    ensures PathV(pe).Some? ==> pe == "[" + PathV(pe).value + "]" && PathV(pe).value != ""
  {
    var bracketed := "[" + v + "]";
    assert bracketed[1..|bracketed| - 1] == v;
    if PathV(pe).Some? {
      assert pe == "[" + pe[1..|pe| - 1] + "]";
    }
  }

  lemma KVPieces(k: string, v: string)
    ensures PathKV("[" + k + ":" + v + "]") == Some((k, v))
            <==> k != "" && v != "" && IsValidPathElement(k) && AllEscaped(v, KV_SEPARATOR)
  {
    var pe := "[" + k + ":" + v + "]";
    var inner := k + [KV_SEPARATOR] + v;
    assert pe[1..|pe| - 1] == inner;
    SplitCharacterized(inner, KV_SEPARATOR, [k, v]);
    assert [k, v][1..] == [v];
    assert Join([k, v], KV_SEPARATOR) == inner;
    if IsValidPathElement(k) {
      assert forall i | 0 <= i < |k| :: IsKeyChar(k[i]);
      assert AllEscaped(k, KV_SEPARATOR) && !EndsEscaped(k);
    }
    if PathKV(pe) == Some((k, v)) {
      var kv := SplitEscaped(inner, KV_SEPARATOR);
      assert kv == [kv[0], kv[1]];
      assert AllEscaped([k, v][1], KV_SEPARATOR);
    }
    if AllEscaped(v, KV_SEPARATOR) && IsValidPathElement(k) {
      assert forall i | 0 <= i < 2 :: AllEscaped([k, v][i], KV_SEPARATOR);
      assert WellSplit([k, v], KV_SEPARATOR);
    }
  }

  // ---- Dotted paths

  /** A dot separates two plain elements. */
  lemma DotSeparates(a: string, b: string)
    requires a != "" && b != "" && '.' !in a && '/' !in a && '.' !in b && '/' !in b
    ensures Parse(a + "." + b) == [a, b]
  {
    var path := [a, b];
    assert path[1..] == [b] && Join(path, PATH_SEPARATOR) == a + "." + b;
    ParseUndoesJoin(path);
  }

  /** `strings.Split` at a one-character separator. */
  function SplitOn(s: string, sep: char): (pieces: seq<string>)
    ensures pieces != []
    decreases |s|
  {
    if s == "" then [""]
    else if s[0] == sep then [""] + SplitOn(s[1..], sep)
    else Prepend(s[0], SplitOn(s[1..], sep))
  }

  function Prepend(c: char, pieces: seq<string>): seq<string>
    requires pieces != []
  {
    [[c] + pieces[0]] + pieces[1..]
  }

  function NonEmpty(pieces: seq<string>): seq<string> {
    if pieces == [] then [] else (if pieces[0] == "" then [] else [pieces[0]]) + NonEmpty(pieces[1..])
  }

  /** What `PathFromString` yields for a string without '/': the non-empty pieces between its dots. */
  function Parse(path: string): Path {
    NonEmpty(SplitOn(path, PATH_SEPARATOR))
  }

  /** `filepath.Clean` of a path without '/'. */
  function Clean(path: string): string {
    if path == "" then "." else path
  }

  /** `PathFromString`: clean, trim one separator at either end, split, and keep what is not empty. */
  method PathFromString(path: string) returns (r: Path)
    requires '/' !in path
    ensures r == Parse(path)
  {
    EmptyParses();
    var p := Clean(path);
    if p != "" && p[0] == PATH_SEPARATOR {
      OuterSeparator(p[1..]);
      assert p == [PATH_SEPARATOR] + p[1..];
      p := p[1..];
    }
    if p != "" && p[|p| - 1] == PATH_SEPARATOR {
      OuterSeparator(p[..|p| - 1]);
      assert p == p[..|p| - 1] + [PATH_SEPARATOR];
      p := p[..|p| - 1];
    }
    r := KeepNonEmpty(SplitOn(p, PATH_SEPARATOR));
  }

  method KeepNonEmpty(pieces: seq<string>) returns (r: seq<string>)
    ensures r == NonEmpty(pieces)
  {
    r := [];
    for i := 0 to |pieces|
      invariant r == NonEmpty(pieces[..i])
    {
      SliceStep(pieces, 0, i);
      NonEmptyAppends(pieces[..i], [pieces[i]]);
      NonEmptyOne(pieces[i]);
      if pieces[i] != "" {
        r := r + [pieces[i]];
      }
    }
    assert pieces[..|pieces|] == pieces;
  }

  lemma NonEmptyOne(piece: string)
    ensures NonEmpty([piece]) == if piece == "" then [] else [piece]
  {
    assert [piece][1..] == [];
  }

  lemma EmptyParses()
    ensures Parse("") == [] && Parse(".") == []
  {
    NonEmptyOne("");
    ParseOfJoined("", "");
  }

  lemma OuterSeparator(s: string)
    ensures Parse([PATH_SEPARATOR] + s) == Parse(s) == Parse(s + [PATH_SEPARATOR])
  {
    EmptyParses();
    ParseOfJoined("", s);
    assert "" + [PATH_SEPARATOR] + s == [PATH_SEPARATOR] + s;
    ParseOfJoined(s, "");
    assert s + [PATH_SEPARATOR] + "" == s + [PATH_SEPARATOR];
  }

  lemma {:induction false} SplitOfJoined(s: string, t: string, sep: char)
    ensures SplitOn(s + [sep] + t, sep) == SplitOn(s, sep) + SplitOn(t, sep)
    decreases |s|
  {
    var u := s + [sep] + t;
    if s == "" {
      assert u[1..] == t;
    } else {
      SplitOfJoined(s[1..], t, sep);
      assert u[1..] == s[1..] + [sep] + t;
      assert u[0] == s[0];
      if s[0] == sep {
        assert [""] + SplitOn(s[1..], sep) + SplitOn(t, sep) == [""] + (SplitOn(s[1..], sep) + SplitOn(t, sep));
      } else {
        PrependAppends(s[0], SplitOn(s[1..], sep), SplitOn(t, sep));
      }
    }
  }

  lemma PrependAppends(c: char, xs: seq<string>, ys: seq<string>)
    requires xs != []
    ensures Prepend(c, xs + ys) == Prepend(c, xs) + ys
  {
    assert (xs + ys)[1..] == xs[1..] + ys;
  }

  lemma {:induction false} NonEmptyAppends(xs: seq<string>, ys: seq<string>)
    ensures NonEmpty(xs + ys) == NonEmpty(xs) + NonEmpty(ys)
    decreases |xs|
  {
    if xs == [] {
      assert xs + ys == ys;
    } else {
      assert (xs + ys)[1..] == xs[1..] + ys;
      NonEmptyAppends(xs[1..], ys);
    }
  }

  /** Parsing across a separator is parsing either side. */
  lemma ParseOfJoined(s: string, t: string)
    ensures Parse(s + [PATH_SEPARATOR] + t) == Parse(s) + Parse(t)
  {
    SplitOfJoined(s, t, PATH_SEPARATOR);
    NonEmptyAppends(SplitOn(s, PATH_SEPARATOR), SplitOn(t, PATH_SEPARATOR));
  }

  predicate PlainElement(pe: string) {
    pe != "" && PATH_SEPARATOR !in pe && '/' !in pe
  }

  predicate PlainElements(p: Path) {
    forall i | 0 <= i < |p| :: PlainElement(p[i])
  }

  lemma {:induction false} SplitOfPlain(s: string, sep: char)
    requires sep !in s
    ensures SplitOn(s, sep) == [s]
    decreases |s|
  {
    if s != "" {
      SplitOfPlain(s[1..], sep);
      assert [s[0]] + s[1..] == s;
    }
  }

  /** `Path.String` and `PathFromString` are inverse on paths of non-empty elements free of '.' and '/'. */
  lemma {:induction false} ParseUndoesJoin(p: Path)
    requires PlainElements(p)
    ensures Parse(Join(p, PATH_SEPARATOR)) == p
    decreases |p|
  {
    if p == [] {
      EmptyParses();
    } else {
      SplitOfPlain(p[0], PATH_SEPARATOR);
      NonEmptyOne(p[0]);
      if |p| > 1 {
        ParseOfJoined(p[0], Join(p[1..], PATH_SEPARATOR));
        ParseUndoesJoin(p[1..]);
      }
    }
  }
}
