/** What `K8SObjectOverlay` and its `PathValue` submessages mean on the wire, and the laws of their codec. */
module OverlayMessages {
  import opened Options
  import opened Bits
  import opened Varints
  import opened Wire
  import opened WireErrors
  import opened WireLaws
  import opened WirePartial
  import opened WireSizes

  /** The wire-carried part of a path/value pair: its value is never written and never read. */
  datatype PathValue = PathValue(path: seq<Byte>)

  type PathMessage = Message<PathValue>

  datatype Overlay = Overlay(apiVersion: seq<Byte>, kind: seq<Byte>, name: seq<Byte>, patches: seq<PathMessage>)

  type OverlayMessage = Message<Overlay>

  const NO_PATH: PathMessage := Message(PathValue([]), [])
  const NO_OVERLAY: OverlayMessage := Message(Overlay([], [], [], []), [])

  const PATH_FIELDS: Schema := map[1 := Delimited]
  const OVERLAY_FIELDS: Schema := map[1 := Delimited, 2 := Delimited, 3 := Delimited, 4 := Delimited]

  // ---- Reading

  function ApplyPath(k: PathValue, token: Token): Result<PathValue> {
    match token
    case Bytes(1, bytes) => Ok(PathValue(bytes))
    case _ => Ok(k)
  }

  function UnmarshalPath(s: seq<Byte>, m: PathMessage): Result<PathMessage>
    requires |s| <= MAX_INT64
  {
    Decode(PATH_FIELDS, ApplyPath, s, 0, m)
  }

  /** A patch read from `s`. (No Go slice is longer than the largest `int`.) */
  function NewPatch(s: seq<Byte>): Result<PathMessage> {
    if |s| > MAX_INT64 then Err(InvalidLength) else UnmarshalPath(s, NO_PATH)
  }

  function ApplyOverlay(k: Overlay, token: Token): Result<Overlay> {
    match token
    case Bytes(1, bytes) => Ok(k.(apiVersion := bytes))
    case Bytes(2, bytes) => Ok(k.(kind := bytes))
    case Bytes(3, bytes) => Ok(k.(name := bytes))
    case Bytes(4, bytes) =>
      (match NewPatch(bytes)
       case Ok(patch) => Ok(k.(patches := k.patches + [patch]))
       case Err(e) => Err(e))
    case _ => Ok(k)
  }

  function PathCut(): Cut<PathValue> {
    Cut((k: PathValue, _: seq<Byte>) => k, (k: PathValue, _: Token) => k)
  }

  /** What unmarshalling `s` leaves of `m`. */
  function LeftPath(s: seq<Byte>, m: PathMessage): PathMessage
    requires |s| <= MAX_INT64
  {
    Left(PATH_FIELDS, ApplyPath, PathCut(), s, 0, m)
  }

  /** A patch that cannot be read is appended with what there was of it. */
  function PatchCut(k: Overlay, token: Token): Overlay {
    if token.Bytes? && token.field == 4 && |token.bytes| <= MAX_INT64 then
      k.(patches := k.patches + [LeftPath(token.bytes, NO_PATH)])
    else k
  }

  function OverlayCut(): Cut<Overlay> {
    Cut((k: Overlay, _: seq<Byte>) => k, PatchCut)
  }

  function LeftOverlay(s: seq<Byte>, m: OverlayMessage): OverlayMessage
    requires |s| <= MAX_INT64
  {
    Left(OVERLAY_FIELDS, ApplyOverlay, OverlayCut(), s, 0, m)
  }

  function UnmarshalOverlay(s: seq<Byte>, m: OverlayMessage): Result<OverlayMessage>
    requires |s| <= MAX_INT64
  {
    Decode(OVERLAY_FIELDS, ApplyOverlay, s, 0, m)
  }

  // ---- Writing

  function MarshalPath(m: PathMessage): seq<Byte> {
    Repeated(1, Text(m.known.path)) + m.unknown
  }

  function Payloads(ms: seq<PathMessage>): (ps: seq<seq<Byte>>)
    ensures |ps| == |ms|
    ensures forall i | 0 <= i < |ms| :: ps[i] == MarshalPath(ms[i])
  {
    if ms == [] then [] else [MarshalPath(ms[0])] + Payloads(ms[1..])
  }

  function KnownBytes(k: Overlay): seq<Byte> {
    Repeated(1, Text(k.apiVersion)) + Repeated(2, Text(k.kind)) + Repeated(3, Text(k.name))
    + Repeated(4, Payloads(k.patches))
  }

  function MarshalOverlay(m: OverlayMessage): seq<Byte> {
    KnownBytes(m.known) + m.unknown
  }

  // ---- Laws of PathValue

  ghost predicate ValidPath(m: PathMessage) {
    Unrecognized(PATH_FIELDS, m.unknown)
  }

  lemma PathRoundTrip(m: PathMessage)
    requires ValidPath(m) && |MarshalPath(m)| <= MAX_INT64
    ensures UnmarshalPath(MarshalPath(m), NO_PATH) == Ok(m)
  {
    var tokens := RepeatedTokens(1, Text(m.known.path));
    EncodeRepeated(PATH_FIELDS, 1, Text(m.known.path));
    assert tokens == if m.known.path == [] then [] else [Bytes(1, m.known.path)];
    assert ApplyAll(ApplyPath, NO_PATH.known, tokens) == Ok(m.known);
    FieldsRoundTrip(PATH_FIELDS, ApplyPath, NO_PATH.known, tokens, m.known, m.unknown);
  }

  lemma PathIsValid(s: seq<Byte>, m: PathMessage)
    requires |s| <= MAX_INT64 && ValidPath(m) && UnmarshalPath(s, m).Ok?
    ensures ValidPath(UnmarshalPath(s, m).value)
    ensures UnmarshalPath(s, m).value.unknown == m.unknown + UnknownPart(PATH_FIELDS, s)
  {
    UnknownFieldsSurvive(PATH_FIELDS, ApplyPath, s, 0, m);
    UnrecognizedAppends(PATH_FIELDS, m.unknown, UnknownPart(PATH_FIELDS, s));
  }

  // ---- Laws of K8SObjectOverlay

  ghost predicate ValidOverlay(m: OverlayMessage) {
    ValidPatches(m.known.patches) && Unrecognized(OVERLAY_FIELDS, m.unknown)
  }

  ghost predicate ValidPatches(ms: seq<PathMessage>) {
    forall i | 0 <= i < |ms| :: ValidPath(ms[i])
  }

  function OverlayTokens(k: Overlay): seq<Token> {
    RepeatedTokens(1, Text(k.apiVersion)) + RepeatedTokens(2, Text(k.kind)) + RepeatedTokens(3, Text(k.name))
    + RepeatedTokens(4, Payloads(k.patches))
  }

  lemma OverlayTokensEncode(k: Overlay)
    ensures AllWritable(OVERLAY_FIELDS, OverlayTokens(k))
    ensures EncodeTokens(OVERLAY_FIELDS, OverlayTokens(k)) == KnownBytes(k)
  {
    hide EncodeTokens, Repeated, RepeatedTokens, AllWritable;
    var t := RepeatedTokens(1, Text(k.apiVersion));
    EncodeRepeated(OVERLAY_FIELDS, 1, Text(k.apiVersion));
    EncodeRepeated(OVERLAY_FIELDS, 2, Text(k.kind));
    EncodeRepeated(OVERLAY_FIELDS, 3, Text(k.name));
    EncodeRepeated(OVERLAY_FIELDS, 4, Payloads(k.patches));
    EncodeTokensAppends(OVERLAY_FIELDS, t, RepeatedTokens(2, Text(k.kind)));
    t := t + RepeatedTokens(2, Text(k.kind));
    EncodeTokensAppends(OVERLAY_FIELDS, t, RepeatedTokens(3, Text(k.name)));
    t := t + RepeatedTokens(3, Text(k.name));
    EncodeTokensAppends(OVERLAY_FIELDS, t, RepeatedTokens(4, Payloads(k.patches)));
  }

  function WithText(k: Overlay, field: Int32, s: seq<Byte>): Overlay {
    match field
    case 1 => k.(apiVersion := s)
    case 2 => k.(kind := s)
    case 3 => k.(name := s)
    case _ => k
  }

  lemma TextApplies(k: Overlay, field: Int32, s: seq<Byte>)
    requires 1 <= field <= 3 && k == WithText(k, field, [])
    ensures ApplyAll(ApplyOverlay, k, RepeatedTokens(field, Text(s))) == Ok(WithText(k, field, s))
  {
    assert RepeatedTokens(field, Text(s)) == if s == [] then [] else [Bytes(field, s)];
  }

  lemma PatchApplies(k: Overlay, m: PathMessage)
    requires ValidPath(m) && |MarshalPath(m)| <= MAX_INT64
    ensures ApplyOverlay(k, Bytes(4, MarshalPath(m))) == Ok(k.(patches := k.patches + [m]))
  {
    hide MarshalPath, ValidPath, UnmarshalPath;
    PathRoundTrip(m);
  }

  lemma {:induction false} PatchesApply(k: Overlay, ms: seq<PathMessage>)
    requires forall i | 0 <= i < |ms| :: ValidPath(ms[i]) && |MarshalPath(ms[i])| <= MAX_INT64
    ensures ApplyAll(ApplyOverlay, k, RepeatedTokens(4, Payloads(ms))) == Ok(k.(patches := k.patches + ms))
    decreases |ms|
  {
    hide MarshalPath, ValidPath, ApplyOverlay;
    if ms == [] {
      assert k.patches + ms == k.patches;
    } else {
      PatchApplies(k, ms[0]);
      PatchesApply(k.(patches := k.patches + [ms[0]]), ms[1..]);
      AppendedInTwo(k.patches, ms);
      assert Payloads(ms)[1..] == Payloads(ms[1..]);
      RepeatedTokensTail(4, Payloads(ms));
    }
  }

  lemma PatchesFit(ms: seq<PathMessage>)
    requires |Repeated(4, Payloads(ms))| <= MAX_INT64
    ensures forall i | 0 <= i < |ms| :: |MarshalPath(ms[i])| <= MAX_INT64
  {
    forall i | 0 <= i < |ms|
      ensures |MarshalPath(ms[i])| <= MAX_INT64
    {
      PayloadFits(4, Payloads(ms), i);
    }
  }

  lemma OverlayTokensApply(k: Overlay)
    requires ValidPatches(k.patches) && |KnownBytes(k)| <= MAX_INT64
    ensures ApplyAll(ApplyOverlay, NO_OVERLAY.known, OverlayTokens(k)) == Ok(k)
  {
    hide ApplyAll, ApplyOverlay, Repeated, RepeatedTokens, Payloads, MarshalPath;
    var t1, k1 := RepeatedTokens(1, Text(k.apiVersion)), NO_OVERLAY.known.(apiVersion := k.apiVersion);
    TextApplies(NO_OVERLAY.known, 1, k.apiVersion);
    var t2, k2 := t1 + RepeatedTokens(2, Text(k.kind)), k1.(kind := k.kind);
    ApplyAllAppends(ApplyOverlay, NO_OVERLAY.known, t1, RepeatedTokens(2, Text(k.kind)));
    TextApplies(k1, 2, k.kind);
    var t3, k3 := t2 + RepeatedTokens(3, Text(k.name)), k2.(name := k.name);
    ApplyAllAppends(ApplyOverlay, NO_OVERLAY.known, t2, RepeatedTokens(3, Text(k.name)));
    TextApplies(k2, 3, k.name);
    ApplyAllAppends(ApplyOverlay, NO_OVERLAY.known, t3, RepeatedTokens(4, Payloads(k.patches)));
    PatchesFit(k.patches);
    PatchesApply(k3, k.patches);
    assert [] + k.patches == k.patches;
  }

  /** What was marshalled unmarshals to itself. */
  lemma OverlayRoundTrip(m: OverlayMessage)
    requires ValidOverlay(m) && |MarshalOverlay(m)| <= MAX_INT64
    ensures UnmarshalOverlay(MarshalOverlay(m), NO_OVERLAY) == Ok(m)
  {
    hide ApplyAll, ApplyOverlay, OverlayTokens, KnownBytes, Decode, Unrecognized;
    OverlayTokensEncode(m.known);
    OverlayTokensApply(m.known);
    FieldsRoundTrip(OVERLAY_FIELDS, ApplyOverlay, NO_OVERLAY.known, OverlayTokens(m.known), m.known, m.unknown);
  }

  // ---- Normal form and concatenation

  lemma {:induction false} OverlayDecodeIsValid(s: seq<Byte>, base: nat, m: OverlayMessage)
    requires base + |s| <= MAX_INT64 && ValidPatches(m.known.patches)
    requires Decode(OVERLAY_FIELDS, ApplyOverlay, s, base, m).Ok?
    ensures ValidPatches(Decode(OVERLAY_FIELDS, ApplyOverlay, s, base, m).value.known.patches)
    decreases |s|
  {
    hide Frame, ValidPath, UnmarshalPath;
    if s != [] {
      var f := Frame(OVERLAY_FIELDS, s, base);
      if f.token.Bytes? && f.token.field == 4 {
        EmptyIsValid();
        PathIsValid(f.token.bytes, NO_PATH);
      }
      OverlayDecodeIsValid(s[f.n..], base + f.n, Update(ApplyOverlay, m, f.token).value);
    }
  }

  lemma EmptyIsValid()
    ensures ValidPath(NO_PATH) && ValidOverlay(NO_OVERLAY)
  {
  }

  /** Whatever bytes were accepted, the unknown fields kept are theirs, in order and unchanged. */
  lemma OverlayIsValid(s: seq<Byte>, m: OverlayMessage)
    requires |s| <= MAX_INT64 && ValidOverlay(m) && UnmarshalOverlay(s, m).Ok?
    ensures ValidOverlay(UnmarshalOverlay(s, m).value)
    ensures UnmarshalOverlay(s, m).value.unknown == m.unknown + UnknownPart(OVERLAY_FIELDS, s)
  {
    hide ValidPatches, ApplyOverlay, Unrecognized;
    OverlayDecodeIsValid(s, 0, m);
    UnknownFieldsSurvive(OVERLAY_FIELDS, ApplyOverlay, s, 0, m);
    UnrecognizedAppends(OVERLAY_FIELDS, m.unknown, UnknownPart(OVERLAY_FIELDS, s));
  }

  function PathLength(): PathMessage -> nat {
    (m: PathMessage) => |MarshalPath(m)|
  }

  lemma PathUpdateBounded(m: PathMessage, token: Token, n: nat)
    requires Canonical(token, n) && Update(ApplyPath, m, token).Ok?
    ensures |MarshalPath(Update(ApplyPath, m, token).value)| <= |MarshalPath(m)| + n
  {
    TextLength(1, m.known.path);
    TextLength(1, Update(ApplyPath, m, token).value.known.path);
    hide Repeated, Encode;
  }

  lemma PathNotLonger(s: seq<Byte>, m: PathMessage)
    requires |s| <= MAX_INT64 && UnmarshalPath(s, m).Ok?
    ensures |MarshalPath(UnmarshalPath(s, m).value)| <= |MarshalPath(m)| + |s|
  {
    hide Canonical, MarshalPath, Update, Decode;
    forall k, token, n: nat | Canonical(token, n) && Update(ApplyPath, k, token).Ok?
      ensures PathLength()(Update(ApplyPath, k, token).value) <= PathLength()(k) + 1 * n
    {
      PathUpdateBounded(k, token, n);
    }
    DecodeIsBounded(PATH_FIELDS, ApplyPath, PathLength(), 1, s, 0, m);
  }

  function OverlayLength(): OverlayMessage -> nat {
    (m: OverlayMessage) => |MarshalOverlay(m)|
  }

  lemma PatchesGrow(ms: seq<PathMessage>, m: PathMessage)
    ensures PatchesLength(ms + [m]) == PatchesLength(ms) + FieldLength(|MarshalPath(m)|)
  {
    hide Repeated, MarshalPath;
    assert Payloads(ms + [m]) == Payloads(ms) + [MarshalPath(m)];
    RepeatedAppends(4, Payloads(ms), [MarshalPath(m)]);
    OneLength(4, MarshalPath(m));
  }

  lemma NewPatchLength(bytes: seq<Byte>)
    requires NewPatch(bytes).Ok?
    ensures FieldLength(|MarshalPath(NewPatch(bytes).value)|) <= FieldLength(|bytes|)
  {
    EmptyLengths();
    hide Decode, MarshalPath, Encode;
    PathNotLonger(bytes, NO_PATH);
    FieldLengthMonotone(|MarshalPath(NewPatch(bytes).value)|, |bytes|);
  }

  lemma EmptyLengths()
    ensures MarshalPath(NO_PATH) == [] && MarshalOverlay(NO_OVERLAY) == []
  {
  }

  function TextFieldLength(s: seq<Byte>): nat {
    if s == [] then 0 else FieldLength(|s|)
  }

  function PatchesLength(ms: seq<PathMessage>): nat {
    |Repeated(4, Payloads(ms))|
  }

  lemma KnownLengthIs(k: Overlay)
    ensures |KnownBytes(k)|
            == TextFieldLength(k.apiVersion) + TextFieldLength(k.kind) + TextFieldLength(k.name)
               + PatchesLength(k.patches)
  {
    TextLength(1, k.apiVersion);
    TextLength(2, k.kind);
    TextLength(3, k.name);
    hide Repeated, FieldLength, Payloads;
  }

  lemma ApplyBounded(k: Overlay, token: Token, n: nat)
    requires Canonical(token, n) && ApplyOverlay(k, token).Ok?
    ensures |KnownBytes(ApplyOverlay(k, token).value)| <= |KnownBytes(k)| + n
  {
    hide KnownBytes, TextFieldLength, PatchesLength, FieldLength, NewPatch, MarshalPath;
    var k' := ApplyOverlay(k, token).value;
    KnownLengthIs(k);
    KnownLengthIs(k');
    if token.Bytes? {
      TextAtMost(token.bytes, n);
      if token.field == 4 {
        NewPatchLength(token.bytes);
        PatchesGrow(k.patches, NewPatch(token.bytes).value);
      }
    }
  }

  lemma TextAtMost(s: seq<Byte>, n: nat)
    requires FieldLength(|s|) <= n
    ensures TextFieldLength(s) <= n
  {
    hide FieldLength;
  }

  lemma OverlayUpdateBounded(m: OverlayMessage, token: Token, n: nat)
    requires Canonical(token, n) && Update(ApplyOverlay, m, token).Ok?
    ensures |MarshalOverlay(Update(ApplyOverlay, m, token).value)| <= |MarshalOverlay(m)| + n
  {
    hide ApplyOverlay, KnownBytes;
    if !token.Unknown? {
      ApplyBounded(m.known, token, n);
    }
  }

  /** The normal form has no more bytes than were read. */
  lemma OverlayNotLonger(s: seq<Byte>, m: OverlayMessage)
    requires |s| <= MAX_INT64 && UnmarshalOverlay(s, m).Ok?
    ensures |MarshalOverlay(UnmarshalOverlay(s, m).value)| <= |MarshalOverlay(m)| + |s|
  {
    hide Canonical, MarshalOverlay, Update, Decode, ApplyOverlay;
    forall k, token, n: nat | Canonical(token, n) && Update(ApplyOverlay, k, token).Ok?
      ensures OverlayLength()(Update(ApplyOverlay, k, token).value) <= OverlayLength()(k) + 1 * n
    {
      OverlayUpdateBounded(k, token, n);
    }
    DecodeIsBounded(OVERLAY_FIELDS, ApplyOverlay, OverlayLength(), 1, s, 0, m);
  }

  /** Accepted bytes, however they were written, decode to the same message as their normal form. */
  lemma OverlayNormalForm(s: seq<Byte>)
    requires |s| <= MAX_INT64 && UnmarshalOverlay(s, NO_OVERLAY).Ok?
    ensures |MarshalOverlay(UnmarshalOverlay(s, NO_OVERLAY).value)| <= |s|
    ensures var normal := MarshalOverlay(UnmarshalOverlay(s, NO_OVERLAY).value);
            && UnmarshalOverlay(normal, NO_OVERLAY) == UnmarshalOverlay(s, NO_OVERLAY)
            && UnknownPart(OVERLAY_FIELDS, normal) == UnknownPart(OVERLAY_FIELDS, s)
  {
    EmptyIsValid();
    EmptyLengths();
    hide Decode, MarshalOverlay, ValidOverlay, UnknownPart;
    var m := UnmarshalOverlay(s, NO_OVERLAY).value;
    OverlayNotLonger(s, NO_OVERLAY);
    OverlayIsValid(s, NO_OVERLAY);
    OverlayRoundTrip(m);
    OverlayIsValid(MarshalOverlay(m), NO_OVERLAY);
    assert [] + UnknownPart(OVERLAY_FIELDS, s) == UnknownPart(OVERLAY_FIELDS, s);
    assert [] + UnknownPart(OVERLAY_FIELDS, MarshalOverlay(m)) == UnknownPart(OVERLAY_FIELDS, MarshalOverlay(m));
  }

  /** A failure leaves what was read before it, but for one more patch that may have been cut off. */
  lemma OverlayLeft(s: seq<Byte>, m: OverlayMessage) returns (n: nat, patch: PathMessage)
    requires |s| <= MAX_INT64 && UnmarshalOverlay(s, m).Err?
    ensures n < |s| && UnmarshalOverlay(s[..n], m).Ok?
    ensures var before, left := UnmarshalOverlay(s[..n], m).value, LeftOverlay(s, m);
            || left == before
            || left == Message(before.known.(patches := before.known.patches + [patch]), before.unknown)
  {
    hide Decode, Left, Frame;
    n := LeftIsPrefix(OVERLAY_FIELDS, ApplyOverlay, OverlayCut(), s, 0, m);
    patch := NO_PATH;
    var f := Frame(OVERLAY_FIELDS, s[n..], n);
    if f.Field? && f.token.Bytes? && |f.token.bytes| <= MAX_INT64 {
      patch := LeftPath(f.token.bytes, NO_PATH);
    }
  }

  /** A failure leaves exactly what was read before it. */
  lemma PathLeft(s: seq<Byte>, m: PathMessage) returns (n: nat)
    requires |s| <= MAX_INT64 && UnmarshalPath(s, m).Err?
    ensures n < |s| && UnmarshalPath(s[..n], m) == Ok(LeftPath(s, m))
  {
    hide Decode, Left, Frame;
    n := LeftIsPrefix(PATH_FIELDS, ApplyPath, PathCut(), s, 0, m);
  }

  /** Unmarshalling `a ++ b` is unmarshalling `a`, then `b` into the same message. */
  lemma OverlayConcatenation(a: seq<Byte>, b: seq<Byte>, m: OverlayMessage)
    requires |a + b| <= MAX_INT64 && UnmarshalOverlay(a, m).Ok?
    ensures var m' := UnmarshalOverlay(a, m).value;
            && SameOutcome(UnmarshalOverlay(b, m'), UnmarshalOverlay(a + b, m))
            && var o := Overreach(OVERLAY_FIELDS, ApplyOverlay, b, m');
               UnmarshalOverlay(b, m') == UnmarshalOverlay(a + b, m)
               <==> !(o.Some? && o.value <= MAX_INT64 < |a| + o.value)
  {
    ConcatenationIsMerge(OVERLAY_FIELDS, ApplyOverlay, a, b, m);
    ConcatenationExactly(OVERLAY_FIELDS, ApplyOverlay, a, b, m);
  }

  /** A path of eight bytes. */
  const SHORT: seq<Byte> := [10, 8, 0, 0, 0, 0, 0, 0, 0, 0]

  /** A path that announces 2^63 - 11 bytes and has none. */
  const FAR: seq<Byte> := [10] + Encode(MAX_INT64 - 10)

  /**
   The exception happens: after the short path the far one is an invalid length; by itself it is an unexpected end.
   */
  lemma ConcatenationExample()
    ensures |SHORT + FAR| <= MAX_INT64 && UnmarshalPath(SHORT, NO_PATH).Ok?
    ensures UnmarshalPath(FAR, UnmarshalPath(SHORT, NO_PATH).value) == Err(UnexpectedEOF)
    ensures UnmarshalPath(SHORT + FAR, NO_PATH) == Err(InvalidLength)
  {
    EightBytesDecode(SHORT);
    FarAfter(SHORT, FAR);
  }

  lemma FarAfter(a: seq<Byte>, b: seq<Byte>)
    requires |a| == 10 && UnmarshalPath(a, NO_PATH).Ok? && b == [10] + Encode(MAX_INT64 - 10)
    ensures |a + b| <= MAX_INT64
    ensures UnmarshalPath(b, UnmarshalPath(a, NO_PATH).value) == Err(UnexpectedEOF)
    ensures UnmarshalPath(a + b, NO_PATH) == Err(InvalidLength)
  {
    hide Encode, Decode;
    var m' := UnmarshalPath(a, NO_PATH).value;
    FarPathFails(b, 0, m');
    FarPathFails(b, 10, m');
    DecodeThrough(PATH_FIELDS, ApplyPath, a, b, 0, NO_PATH);
  }

  lemma FarPathFails(b: seq<Byte>, base: nat, m: PathMessage)
    requires b == [10] + Encode(MAX_INT64 - 10) && (base == 0 || base == 10)
    ensures |b| <= 11 && Decode(PATH_FIELDS, ApplyPath, b, base, m)
            == Err(if base == 0 then UnexpectedEOF else InvalidLength)
  {
    hide Encode, Frame, Reach;
    FarPath(b);
    FrameByReach(PATH_FIELDS, b, base, 0);
  }

  lemma EightBytesDecode(a: seq<Byte>)
    requires a == [10, 8, 0, 0, 0, 0, 0, 0, 0, 0]
    ensures UnmarshalPath(a, NO_PATH) == Ok(Message(PathValue([0, 0, 0, 0, 0, 0, 0, 0]), []))
  {
    var path := a[2..];
    assert path == [0, 0, 0, 0, 0, 0, 0, 0];
    var m := Message(PathValue(path), []);
    assert Text(path) == [path] && Text(path)[1..] == [];
    assert Encode(10) == [10] && Encode(8) == [8];
    assert Repeated(1, Text(path)) == DelimitedField(1, path) + [];
    assert DelimitedField(1, path) == [10] + [8] + path;
    assert MarshalPath(m) == a;
    PathRoundTrip(m);
  }

  lemma FarPath(b: seq<Byte>)
    requires b == [10] + Encode(MAX_INT64 - 10)
    ensures |b| <= 11 && MAX_INT64 - 9 < Reach(PATH_FIELDS, b).GetOr(0) <= MAX_INT64
  {
    hide ScanVarint, Decoded, Encode, ToInt32;
    var v := MAX_INT64 - 10;
    FarLength(v);
    TagRoundTrip(10, Encode(v));
    VarintRoundTrip(v, []);
    SmallField(1);
    assert Encode(v) + [] == Encode(v) && b[1..] == Encode(v);
  }

  lemma FarLength(v: nat)
    requires v == MAX_INT64 - 10
    ensures |Encode(v)| <= 9
  {
    PowersOfTwo();
    EncodeLength(v, 9);
  }

  // ---- No panic
}
