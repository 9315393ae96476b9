/** What `InstallStatus` and its `VersionStatus` submessages mean on the wire, and the laws of their codec. */
module InstallStatusMessages {
  import opened Options
  import opened Bits
  import opened Groups
  import opened Skipping
  import opened Varints
  import opened Wire
  import opened WireErrors
  import opened WireLaws
  import opened WirePartial
  import opened WireSizes

  datatype VersionStatus = VersionStatus(version: seq<Byte>, status: Int32)

  type VersionMessage = Message<VersionStatus>

  datatype InstallStatus = InstallStatus(
    trafficManagement: Option<VersionMessage>,
    policyTelemetry: Option<VersionMessage>,
    security: Option<VersionMessage>,
    configManagement: Option<VersionMessage>,
    ingressGateway: seq<VersionMessage>,
    egressGateway: seq<VersionMessage>)

  type InstallMessage = Message<InstallStatus>

  const NO_VERSION: VersionMessage := Message(VersionStatus([], 0), [])
  const NO_INSTALL: InstallMessage := Message(InstallStatus(None, None, None, None, [], []), [])

  const VERSION_FIELDS: Schema := map[1 := Delimited, 2 := Enum]
  const INSTALL_FIELDS: Schema :=
    map[1 := Delimited, 2 := Delimited, 3 := Delimited, 4 := Delimited, 5 := Delimited, 6 := Delimited]

  // ---- Reading

  function ApplyVersion(k: VersionStatus, token: Token): Result<VersionStatus> {
    match token
    case Bytes(1, bytes) => Ok(k.(version := bytes))
    case Number(2, value) => Ok(k.(status := value))
    case _ => Ok(k)
  }

  function UnmarshalVersion(s: seq<Byte>, m: VersionMessage): Result<VersionMessage>
    requires |s| <= MAX_INT64
  {
    Decode(VERSION_FIELDS, ApplyVersion, s, 0, m)
  }

  /** The submessage `s` merged into `o`. (No Go slice is longer than the largest `int`.) */
  function MergeVersion(o: Option<VersionMessage>, s: seq<Byte>): Result<VersionMessage> {
    if |s| > MAX_INT64 then Err(InvalidLength)
    else UnmarshalVersion(s, if o.None? then NO_VERSION else o.value)
  }

  /** An enum is read into the struct itself, which keeps what there was of it. */
  function StatusCut(k: VersionStatus, s: seq<Byte>): VersionStatus {
    match Decoded(s, 64)
    case Bad(_) => k
    case Value(tag, i) =>
      if ToInt32(tag / 8) == 2 && tag % 8 == 0 then k.(status := ToInt32(Septets(s[i..]))) else k
  }

  function VersionCut(): Cut<VersionStatus> {
    Cut(StatusCut, (k: VersionStatus, _: Token) => k)
  }

  /** What unmarshalling `s` leaves of `m`. */
  function LeftVersion(s: seq<Byte>, m: VersionMessage): VersionMessage
    requires |s| <= MAX_INT64
  {
    Left(VERSION_FIELDS, ApplyVersion, VersionCut(), s, 0, m)
  }

  function LeftMerged(o: Option<VersionMessage>, s: seq<Byte>): VersionMessage {
    var m := if o.None? then NO_VERSION else o.value;
    if |s| > MAX_INT64 then m else LeftVersion(s, m)
  }

  function Singular(k: InstallStatus, field: Int32): Option<VersionMessage> {
    match field
    case 1 => k.trafficManagement
    case 2 => k.policyTelemetry
    case 3 => k.security
    case 4 => k.configManagement
    case _ => None
  }

  /** `k` with its submessage of number `field` replaced. */
  function WithSingular(k: InstallStatus, field: Int32, o: Option<VersionMessage>): InstallStatus {
    match field
    case 1 => k.(trafficManagement := o)
    case 2 => k.(policyTelemetry := o)
    case 3 => k.(security := o)
    case 4 => k.(configManagement := o)
    case _ => k
  }

  function Appended(k: InstallStatus, field: Int32, ms: seq<VersionMessage>): InstallStatus {
    match field
    case 5 => k.(ingressGateway := k.ingressGateway + ms)
    case 6 => k.(egressGateway := k.egressGateway + ms)
    case _ => k
  }

  function ApplyInstall(k: InstallStatus, token: Token): Result<InstallStatus> {
    if !token.Bytes? then Ok(k)
    else
      match MergeVersion(Singular(k, token.field), token.bytes)
      case Err(e) => Err(e)
      case Ok(v) =>
        Ok(if token.field <= 4 then WithSingular(k, token.field, Some(v)) else Appended(k, token.field, [v]))
  }

  /** A submessage that cannot be read keeps what there was of it. */
  function SubmessageCut(k: InstallStatus, token: Token): InstallStatus {
    if !token.Bytes? then k
    else
      var v := LeftMerged(Singular(k, token.field), token.bytes);
      if token.field <= 4 then WithSingular(k, token.field, Some(v)) else Appended(k, token.field, [v])
  }

  function InstallCut(): Cut<InstallStatus> {
    Cut((k: InstallStatus, _: seq<Byte>) => k, SubmessageCut)
  }

  function LeftInstall(s: seq<Byte>, m: InstallMessage): InstallMessage
    requires |s| <= MAX_INT64
  {
    Left(INSTALL_FIELDS, ApplyInstall, InstallCut(), s, 0, m)
  }

  function UnmarshalInstall(s: seq<Byte>, m: InstallMessage): Result<InstallMessage>
    requires |s| <= MAX_INT64
  {
    Decode(INSTALL_FIELDS, ApplyInstall, s, 0, m)
  }

  // ---- Writing

  function MarshalVersion(m: VersionMessage): seq<Byte> {
    Repeated(1, Text(m.known.version)) + NonZero(2, m.known.status) + m.unknown
  }

  function Payload(o: Option<VersionMessage>): seq<seq<Byte>> {
    if o.None? then [] else [MarshalVersion(o.value)]
  }

  function Payloads(ms: seq<VersionMessage>): (ps: seq<seq<Byte>>)
    ensures |ps| == |ms|
    ensures forall i | 0 <= i < |ms| :: ps[i] == MarshalVersion(ms[i])
  {
    if ms == [] then [] else [MarshalVersion(ms[0])] + Payloads(ms[1..])
  }

  function SingularBytes(k: InstallStatus): seq<Byte> {
    Repeated(1, Payload(k.trafficManagement))
    + Repeated(2, Payload(k.policyTelemetry))
    + Repeated(3, Payload(k.security))
    + Repeated(4, Payload(k.configManagement))
  }

  function KnownBytes(k: InstallStatus): seq<Byte> {
    SingularBytes(k)
    + Repeated(5, Payloads(k.ingressGateway))
    + Repeated(6, Payloads(k.egressGateway))
  }

  function MarshalInstall(m: InstallMessage): seq<Byte> {
    KnownBytes(m.known) + m.unknown
  }

  // ---- Laws of VersionStatus

  ghost predicate ValidVersion(m: VersionMessage) {
    Unrecognized(VERSION_FIELDS, m.unknown)
  }

  /** What was marshalled unmarshals to itself. */
  lemma VersionRoundTrip(m: VersionMessage)
    requires ValidVersion(m) && |MarshalVersion(m)| <= MAX_INT64
    ensures UnmarshalVersion(MarshalVersion(m), NO_VERSION) == Ok(m)
  {
    var tokens := VersionTokens(m.known);
    VersionTokensEncode(m.known);
    VersionTokensApply(m.known);
    FieldsRoundTrip(VERSION_FIELDS, ApplyVersion, NO_VERSION.known, tokens, m.known, m.unknown);
  }

  function VersionTokens(k: VersionStatus): seq<Token> {
    RepeatedTokens(1, Text(k.version)) + StatusTokens(k.status)
  }

  function StatusTokens(status: Int32): seq<Token> {
    if status == 0 then [] else [Number(2, status)]
  }

  lemma VersionTokensEncode(k: VersionStatus)
    ensures AllWritable(VERSION_FIELDS, VersionTokens(k))
    ensures EncodeTokens(VERSION_FIELDS, VersionTokens(k)) == Repeated(1, Text(k.version)) + NonZero(2, k.status)
  {
    EncodeRepeated(VERSION_FIELDS, 1, Text(k.version));
    EncodeTokensAppends(VERSION_FIELDS, RepeatedTokens(1, Text(k.version)), StatusTokens(k.status));
    assert EncodeTokens(VERSION_FIELDS, StatusTokens(k.status)) == NonZero(2, k.status);
  }

  lemma VersionTokensApply(k: VersionStatus)
    ensures ApplyAll(ApplyVersion, NO_VERSION.known, VersionTokens(k)) == Ok(k)
  {
    var text, status := RepeatedTokens(1, Text(k.version)), StatusTokens(k.status);
    ApplyAllAppends(ApplyVersion, NO_VERSION.known, text, status);
    assert text == if k.version == [] then [] else [Bytes(1, k.version)];
    assert ApplyAll(ApplyVersion, NO_VERSION.known, text) == Ok(VersionStatus(k.version, 0));
    assert ApplyAll(ApplyVersion, VersionStatus(k.version, 0), status) == Ok(k);
  }

  /** Whatever bytes were accepted, the unknown fields kept are theirs, in order and unchanged. */
  lemma VersionIsValid(s: seq<Byte>, m: VersionMessage)
    requires |s| <= MAX_INT64 && ValidVersion(m) && UnmarshalVersion(s, m).Ok?
    ensures ValidVersion(UnmarshalVersion(s, m).value)
    ensures UnmarshalVersion(s, m).value.unknown == m.unknown + UnknownPart(VERSION_FIELDS, s)
  {
    UnknownFieldsSurvive(VERSION_FIELDS, ApplyVersion, s, 0, m);
    UnrecognizedAppends(VERSION_FIELDS, m.unknown, UnknownPart(VERSION_FIELDS, s));
  }

  function VersionLength(): VersionMessage -> nat {
    (m: VersionMessage) => |MarshalVersion(m)|
  }

  lemma VersionUpdateBounded(m: VersionMessage, token: Token, n: nat)
    requires Canonical(token, n) && Update(ApplyVersion, m, token).Ok?
    ensures |MarshalVersion(Update(ApplyVersion, m, token).value)| <= |MarshalVersion(m)| + 2 * n
  {
    var m' := Update(ApplyVersion, m, token).value;
    TextLength(1, m.known.version);
    TextLength(1, m'.known.version);
    NonZeroLength(2, m.known.status);
    NonZeroLength(2, m'.known.status);
    hide Repeated, NonZero, Encode;
  }

  /**
   The normal form has at most twice as many bytes: a negative enum may have been written with five, and takes ten.
   */
  lemma VersionNotMuchLonger(s: seq<Byte>, m: VersionMessage)
    requires |s| <= MAX_INT64 && UnmarshalVersion(s, m).Ok?
    ensures |MarshalVersion(UnmarshalVersion(s, m).value)| <= |MarshalVersion(m)| + 2 * |s|
  {
    hide Canonical, MarshalVersion, Update, Decode;
    forall k, token, n: nat | Canonical(token, n) && Update(ApplyVersion, k, token).Ok?
      ensures VersionLength()(Update(ApplyVersion, k, token).value) <= VersionLength()(k) + 2 * n
    {
      VersionUpdateBounded(k, token, n);
    }
    DecodeIsBounded(VERSION_FIELDS, ApplyVersion, VersionLength(), 2, s, 0, m);
  }

  /** Accepted bytes, however they were written, decode to the same message as their normal form. */
  lemma VersionNormalForm(s: seq<Byte>)
    requires 2 * |s| <= MAX_INT64 && UnmarshalVersion(s, NO_VERSION).Ok?
    ensures |MarshalVersion(UnmarshalVersion(s, NO_VERSION).value)| <= 2 * |s|
    ensures var normal := MarshalVersion(UnmarshalVersion(s, NO_VERSION).value);
            && UnmarshalVersion(normal, NO_VERSION) == UnmarshalVersion(s, NO_VERSION)
            && UnknownPart(VERSION_FIELDS, normal) == UnknownPart(VERSION_FIELDS, s)
  {
    EmptyLengths();
    hide Decode, MarshalVersion, Unrecognized, UnknownPart;
    var m := UnmarshalVersion(s, NO_VERSION).value;
    VersionNotMuchLonger(s, NO_VERSION);
    VersionIsValid(s, NO_VERSION);
    VersionRoundTrip(m);
    VersionIsValid(MarshalVersion(m), NO_VERSION);
    assert [] + UnknownPart(VERSION_FIELDS, s) == UnknownPart(VERSION_FIELDS, s);
    assert [] + UnknownPart(VERSION_FIELDS, MarshalVersion(m)) == UnknownPart(VERSION_FIELDS, MarshalVersion(m));
  }

  /** Unmarshalling `a ++ b` is unmarshalling `a`, then `b` into the same message. */
  lemma VersionConcatenation(a: seq<Byte>, b: seq<Byte>, m: VersionMessage)
    requires |a + b| <= MAX_INT64 && UnmarshalVersion(a, m).Ok?
    ensures var m' := UnmarshalVersion(a, m).value;
            && SameOutcome(UnmarshalVersion(b, m'), UnmarshalVersion(a + b, m))
            && var o := Overreach(VERSION_FIELDS, ApplyVersion, b, m');
               UnmarshalVersion(b, m') == UnmarshalVersion(a + b, m)
               <==> !(o.Some? && o.value <= MAX_INT64 < |a| + o.value)
  {
    ConcatenationIsMerge(VERSION_FIELDS, ApplyVersion, a, b, m);
    ConcatenationExactly(VERSION_FIELDS, ApplyVersion, a, b, m);
  }

  /** A failure leaves what was read before it, but for a status that may have been cut off. */
  lemma VersionLeft(s: seq<Byte>, m: VersionMessage) returns (n: nat)
    requires |s| <= MAX_INT64 && UnmarshalVersion(s, m).Err?
    ensures n < |s| && UnmarshalVersion(s[..n], m).Ok?
    ensures var before, left := UnmarshalVersion(s[..n], m).value, LeftVersion(s, m);
            left == Message(before.known.(status := left.known.status), before.unknown)
  {
    hide Decode, Left, Frame, Septets;
    n := LeftIsPrefix(VERSION_FIELDS, ApplyVersion, VersionCut(), s, 0, m);
  }

  // ---- Laws of InstallStatus

  ghost predicate ValidVersions(ms: seq<VersionMessage>) {
    forall i | 0 <= i < |ms| :: ValidVersion(ms[i])
  }

  ghost predicate ValidOption(o: Option<VersionMessage>) {
    o.Some? ==> ValidVersion(o.value)
  }

  ghost predicate ValidKnown(k: InstallStatus) {
    && ValidOption(k.trafficManagement)
    && ValidOption(k.policyTelemetry)
    && ValidOption(k.security)
    && ValidOption(k.configManagement)
    && ValidVersions(k.ingressGateway)
    && ValidVersions(k.egressGateway)
  }

  ghost predicate ValidInstall(m: InstallMessage) {
    ValidKnown(m.known) && Unrecognized(INSTALL_FIELDS, m.unknown)
  }

  function InstallTokens(k: InstallStatus): seq<Token> {
    RepeatedTokens(1, Payload(k.trafficManagement))
    + RepeatedTokens(2, Payload(k.policyTelemetry))
    + RepeatedTokens(3, Payload(k.security))
    + RepeatedTokens(4, Payload(k.configManagement))
    + RepeatedTokens(5, Payloads(k.ingressGateway))
    + RepeatedTokens(6, Payloads(k.egressGateway))
  }

  lemma InstallTokensEncode(k: InstallStatus)
    ensures AllWritable(INSTALL_FIELDS, InstallTokens(k))
    ensures EncodeTokens(INSTALL_FIELDS, InstallTokens(k)) == KnownBytes(k)
  {
    hide EncodeTokens, Repeated, RepeatedTokens, AllWritable;
    var t := RepeatedTokens(1, Payload(k.trafficManagement));
    EncodeRepeated(INSTALL_FIELDS, 1, Payload(k.trafficManagement));
    EncodeRepeated(INSTALL_FIELDS, 2, Payload(k.policyTelemetry));
    EncodeRepeated(INSTALL_FIELDS, 3, Payload(k.security));
    EncodeRepeated(INSTALL_FIELDS, 4, Payload(k.configManagement));
    EncodeRepeated(INSTALL_FIELDS, 5, Payloads(k.ingressGateway));
    EncodeRepeated(INSTALL_FIELDS, 6, Payloads(k.egressGateway));
    EncodeTokensAppends(INSTALL_FIELDS, t, RepeatedTokens(2, Payload(k.policyTelemetry)));
    t := t + RepeatedTokens(2, Payload(k.policyTelemetry));
    EncodeTokensAppends(INSTALL_FIELDS, t, RepeatedTokens(3, Payload(k.security)));
    t := t + RepeatedTokens(3, Payload(k.security));
    EncodeTokensAppends(INSTALL_FIELDS, t, RepeatedTokens(4, Payload(k.configManagement)));
    t := t + RepeatedTokens(4, Payload(k.configManagement));
    EncodeTokensAppends(INSTALL_FIELDS, t, RepeatedTokens(5, Payloads(k.ingressGateway)));
    t := t + RepeatedTokens(5, Payloads(k.ingressGateway));
    EncodeTokensAppends(INSTALL_FIELDS, t, RepeatedTokens(6, Payloads(k.egressGateway)));
  }

  lemma PresentApplies(k: InstallStatus, field: Int32, m: VersionMessage)
    requires ValidVersion(m) && |MarshalVersion(m)| <= MAX_INT64
    requires 1 <= field <= 6 && (field <= 4 ==> k == WithSingular(k, field, None))
    ensures ApplyInstall(k, Bytes(field, MarshalVersion(m)))
            == Ok(if field <= 4 then WithSingular(k, field, Some(m)) else Appended(k, field, [m]))
  {
    hide Decode, MarshalVersion;
    VersionRoundTrip(m);
  }

  lemma SingularApplies(k: InstallStatus, field: Int32, o: Option<VersionMessage>)
    requires 1 <= field <= 4 && k == WithSingular(k, field, None)
    requires ValidOption(o) && |Repeated(field, Payload(o))| <= MAX_INT64
    ensures ApplyAll(ApplyInstall, k, RepeatedTokens(field, Payload(o))) == Ok(WithSingular(k, field, o))
  {
    hide MarshalVersion, ApplyInstall;
    if o.Some? {
      PayloadFits(field, Payload(o), 0);
      PresentApplies(k, field, o.value);
      assert RepeatedTokens(field, Payload(o)) == [Bytes(field, MarshalVersion(o.value))];
    }
  }

  lemma {:induction false} ListApplies(k: InstallStatus, field: Int32, ms: seq<VersionMessage>)
    requires 5 <= field <= 6
    requires forall i | 0 <= i < |ms| :: ValidVersion(ms[i]) && |MarshalVersion(ms[i])| <= MAX_INT64
    ensures ApplyAll(ApplyInstall, k, RepeatedTokens(field, Payloads(ms))) == Ok(Appended(k, field, ms))
    decreases |ms|
  {
    hide MarshalVersion, ApplyInstall, ValidVersion;
    if ms == [] {
      assert Appended(k, field, ms) == k;
    } else {
      PresentApplies(k, field, ms[0]);
      var k' := Appended(k, field, [ms[0]]);
      ListApplies(k', field, ms[1..]);
      AppendedInTwo(k.ingressGateway, ms);
      AppendedInTwo(k.egressGateway, ms);
      assert Payloads(ms)[1..] == Payloads(ms[1..]);
      RepeatedTokensTail(field, Payloads(ms));
    }
  }

  lemma ListFits(field: Int32, ms: seq<VersionMessage>)
    requires 5 <= field <= 6 && |Repeated(field, Payloads(ms))| <= MAX_INT64
    ensures forall i | 0 <= i < |ms| :: |MarshalVersion(ms[i])| <= MAX_INT64
  {
    forall i | 0 <= i < |ms|
      ensures |MarshalVersion(ms[i])| <= MAX_INT64
    {
      PayloadFits(field, Payloads(ms), i);
    }
  }

  lemma InstallTokensApply(k: InstallStatus)
    requires ValidKnown(k) && |KnownBytes(k)| <= MAX_INT64
    ensures ApplyAll(ApplyInstall, NO_INSTALL.known, InstallTokens(k)) == Ok(k)
  {
    hide ApplyAll, ApplyInstall, Repeated, RepeatedTokens, Payload, Payloads, ValidOption, MarshalVersion;
    var t1 := RepeatedTokens(1, Payload(k.trafficManagement));
    var k1 := NO_INSTALL.known.(trafficManagement := k.trafficManagement);
    SingularApplies(NO_INSTALL.known, 1, k.trafficManagement);
    var t2, k2 := t1 + RepeatedTokens(2, Payload(k.policyTelemetry)), k1.(policyTelemetry := k.policyTelemetry);
    ApplyAllAppends(ApplyInstall, NO_INSTALL.known, t1, RepeatedTokens(2, Payload(k.policyTelemetry)));
    SingularApplies(k1, 2, k.policyTelemetry);
    var t3, k3 := t2 + RepeatedTokens(3, Payload(k.security)), k2.(security := k.security);
    ApplyAllAppends(ApplyInstall, NO_INSTALL.known, t2, RepeatedTokens(3, Payload(k.security)));
    SingularApplies(k2, 3, k.security);
    var t4, k4 := t3 + RepeatedTokens(4, Payload(k.configManagement)), k3.(configManagement := k.configManagement);
    ApplyAllAppends(ApplyInstall, NO_INSTALL.known, t3, RepeatedTokens(4, Payload(k.configManagement)));
    SingularApplies(k3, 4, k.configManagement);
    var t5, k5 := t4 + RepeatedTokens(5, Payloads(k.ingressGateway)), k4.(ingressGateway := k.ingressGateway);
    ApplyAllAppends(ApplyInstall, NO_INSTALL.known, t4, RepeatedTokens(5, Payloads(k.ingressGateway)));
    ListFits(5, k.ingressGateway);
    ListApplies(k4, 5, k.ingressGateway);
    assert [] + k.ingressGateway == k.ingressGateway;
    ApplyAllAppends(ApplyInstall, NO_INSTALL.known, t5, RepeatedTokens(6, Payloads(k.egressGateway)));
    ListFits(6, k.egressGateway);
    ListApplies(k5, 6, k.egressGateway);
    assert [] + k.egressGateway == k.egressGateway;
  }

  lemma InstallRoundTrip(m: InstallMessage)
    requires ValidInstall(m) && |MarshalInstall(m)| <= MAX_INT64
    ensures UnmarshalInstall(MarshalInstall(m), NO_INSTALL) == Ok(m)
  {
    hide ApplyAll, ApplyInstall, InstallTokens, KnownBytes, Decode, Unrecognized;
    InstallTokensEncode(m.known);
    InstallTokensApply(m.known);
    FieldsRoundTrip(INSTALL_FIELDS, ApplyInstall, NO_INSTALL.known, InstallTokens(m.known), m.known, m.unknown);
  }

  // ---- Normal form

  lemma ApplyKeepsValid(k: InstallStatus, token: Token)
    requires ValidKnown(k) && ApplyInstall(k, token).Ok?
    ensures ValidKnown(ApplyInstall(k, token).value)
  {
    hide MergeVersion, ValidVersion;
    if token.Bytes? {
      MergeKeepsValid(Singular(k, token.field), token.bytes);
    }
  }

  lemma MergeKeepsValid(o: Option<VersionMessage>, bytes: seq<Byte>)
    requires ValidOption(o) && MergeVersion(o, bytes).Ok?
    ensures ValidVersion(MergeVersion(o, bytes).value)
  {
    EmptyIsValid();
    VersionIsValid(bytes, if o.None? then NO_VERSION else o.value);
    hide Decode, Unrecognized;
  }

  lemma EmptyIsValid()
    ensures ValidVersion(NO_VERSION) && ValidInstall(NO_INSTALL)
  {
  }

  lemma {:induction false} InstallDecodeIsValid(s: seq<Byte>, base: nat, m: InstallMessage)
    requires base + |s| <= MAX_INT64 && ValidKnown(m.known)
    requires Decode(INSTALL_FIELDS, ApplyInstall, s, base, m).Ok?
    ensures ValidKnown(Decode(INSTALL_FIELDS, ApplyInstall, s, base, m).value.known)
    decreases |s|
  {
    hide Frame, ApplyInstall, ValidKnown;
    if s != [] {
      var f := Frame(INSTALL_FIELDS, s, base);
      if !f.token.Unknown? {
        ApplyKeepsValid(m.known, f.token);
      }
      InstallDecodeIsValid(s[f.n..], base + f.n, Update(ApplyInstall, m, f.token).value);
    }
  }

  lemma InstallIsValid(s: seq<Byte>, m: InstallMessage)
    requires |s| <= MAX_INT64 && ValidInstall(m) && UnmarshalInstall(s, m).Ok?
    ensures ValidInstall(UnmarshalInstall(s, m).value)
    ensures UnmarshalInstall(s, m).value.unknown == m.unknown + UnknownPart(INSTALL_FIELDS, s)
  {
    hide ValidKnown, ApplyInstall, Unrecognized;
    InstallDecodeIsValid(s, 0, m);
    UnknownFieldsSurvive(INSTALL_FIELDS, ApplyInstall, s, 0, m);
    UnrecognizedAppends(INSTALL_FIELDS, m.unknown, UnknownPart(INSTALL_FIELDS, s));
  }

  lemma EmptyLengths()
    ensures MarshalVersion(NO_VERSION) == [] && MarshalInstall(NO_INSTALL) == []
  {
  }

  function InstallLength(): InstallMessage -> nat {
    (m: InstallMessage) => |MarshalInstall(m)|
  }

  /** The bytes of the field of a singular submessage, present or not. */
  function SingularLength(o: Option<VersionMessage>): nat {
    if o.None? then 0 else FieldLength(|MarshalVersion(o.value)|)
  }

  lemma PayloadLength(field: Int32, o: Option<VersionMessage>)
    requires 1 <= field <= MAX_ONE_BYTE_FIELD
    ensures |Repeated(field, Payload(o))| == SingularLength(o)
  {
    if o.Some? {
      OneLength(field, MarshalVersion(o.value));
    }
  }

  function ListLength(field: Int32, ms: seq<VersionMessage>): nat
    requires 1 <= field <= MAX_ONE_BYTE_FIELD
  {
    |Repeated(field, Payloads(ms))|
  }

  lemma InstallLengthIs(m: InstallMessage)
    ensures |MarshalInstall(m)| == KnownLength(m.known) + |m.unknown|
  {
    hide Repeated, Payload, Payloads, SingularLength;
    PayloadLength(1, m.known.trafficManagement);
    PayloadLength(2, m.known.policyTelemetry);
    PayloadLength(3, m.known.security);
    PayloadLength(4, m.known.configManagement);
  }

  lemma ListGrows(field: Int32, ms: seq<VersionMessage>, v: VersionMessage)
    requires 1 <= field <= MAX_ONE_BYTE_FIELD
    ensures ListLength(field, ms + [v]) == ListLength(field, ms) + FieldLength(|MarshalVersion(v)|)
  {
    hide Repeated, MarshalVersion;
    assert Payloads(ms + [v]) == Payloads(ms) + [MarshalVersion(v)];
    RepeatedAppends(field, Payloads(ms), [MarshalVersion(v)]);
    OneLength(field, MarshalVersion(v));
  }

  /** A submessage merged from a payload makes its field longer by at most twice the field of the payload. */
  lemma MergedLength(o: Option<VersionMessage>, bytes: seq<Byte>)
    requires MergeVersion(o, bytes).Ok?
    ensures FieldLength(|MarshalVersion(MergeVersion(o, bytes).value)|) <= SingularLength(o) + 2 * FieldLength(|bytes|)
  {
    EmptyLengths();
    hide Decode, MarshalVersion, Encode;
    var previous := if o.None? then NO_VERSION else o.value;
    var a := |MarshalVersion(previous)|;
    VersionNotMuchLonger(bytes, previous);
    FieldLengthMonotone(|MarshalVersion(MergeVersion(o, bytes).value)|, a + 2 * |bytes|);
    FieldGrows(a, |bytes|);
  }

  function KnownLength(k: InstallStatus): nat {
    SingularLength(k.trafficManagement) + SingularLength(k.policyTelemetry) + SingularLength(k.security)
    + SingularLength(k.configManagement) + ListLength(5, k.ingressGateway) + ListLength(6, k.egressGateway)
  }

  lemma WithSingularLength(k: InstallStatus, field: Int32, v: VersionMessage)
    ensures KnownLength(WithSingular(k, field, Some(v))) + SingularLength(Singular(k, field))
            <= KnownLength(k) + SingularLength(Some(v))
  {
    hide SingularLength, ListLength;
    assert SingularLength(None) == 0 by {
      NoneLength();
    }
  }

  lemma NoneLength()
    ensures SingularLength(None) == 0
  {
  }

  lemma AppendedLength(k: InstallStatus, field: Int32, v: VersionMessage)
    ensures KnownLength(Appended(k, field, [v])) <= KnownLength(k) + SingularLength(Some(v))
  {
    hide ListLength;
    ListGrows(5, k.ingressGateway, v);
    ListGrows(6, k.egressGateway, v);
  }

  lemma ApplyBounded(k: InstallStatus, token: Token, n: nat)
    requires Canonical(token, n) && ApplyInstall(k, token).Ok?
    ensures KnownLength(ApplyInstall(k, token).value) <= KnownLength(k) + 2 * n
  {
    hide MergeVersion, SingularLength, KnownLength, WithSingular, Appended, Singular;
    if token.Bytes? {
      var o := Singular(k, token.field);
      MergedBounded(o, token.bytes, n);
      var v := MergeVersion(o, token.bytes).value;
      if token.field <= 4 {
        WithSingularLength(k, token.field, v);
      } else {
        NoSingular(k, token.field);
        AppendedLength(k, token.field, v);
      }
    }
  }

  lemma NoSingular(k: InstallStatus, field: Int32)
    requires field > 4
    ensures SingularLength(Singular(k, field)) == 0
  {
  }

  lemma MergedBounded(o: Option<VersionMessage>, bytes: seq<Byte>, n: nat)
    requires FieldLength(|bytes|) <= n && MergeVersion(o, bytes).Ok?
    ensures SingularLength(Some(MergeVersion(o, bytes).value)) <= SingularLength(o) + 2 * n
  {
    hide MergeVersion, FieldLength;
    MergedLength(o, bytes);
  }

  lemma InstallUpdateBounded(m: InstallMessage, token: Token, n: nat)
    requires Canonical(token, n) && Update(ApplyInstall, m, token).Ok?
    ensures |MarshalInstall(Update(ApplyInstall, m, token).value)| <= |MarshalInstall(m)| + 2 * n
  {
    var m' := Update(ApplyInstall, m, token).value;
    InstallLengthIs(m);
    InstallLengthIs(m');
    hide ApplyInstall, KnownLength, MarshalInstall;
    if !token.Unknown? {
      ApplyBounded(m.known, token, n);
    }
  }

  /** The normal form has at most twice as many bytes. */
  lemma InstallNotMuchLonger(s: seq<Byte>, m: InstallMessage)
    requires |s| <= MAX_INT64 && UnmarshalInstall(s, m).Ok?
    ensures |MarshalInstall(UnmarshalInstall(s, m).value)| <= |MarshalInstall(m)| + 2 * |s|
  {
    hide Canonical, MarshalInstall, Update, Decode, ApplyInstall;
    forall k, token, n: nat | Canonical(token, n) && Update(ApplyInstall, k, token).Ok?
      ensures InstallLength()(Update(ApplyInstall, k, token).value) <= InstallLength()(k) + 2 * n
    {
      InstallUpdateBounded(k, token, n);
    }
    DecodeIsBounded(INSTALL_FIELDS, ApplyInstall, InstallLength(), 2, s, 0, m);
  }

  lemma InstallNormalForm(s: seq<Byte>)
    requires 2 * |s| <= MAX_INT64 && UnmarshalInstall(s, NO_INSTALL).Ok?
    ensures |MarshalInstall(UnmarshalInstall(s, NO_INSTALL).value)| <= 2 * |s|
    ensures var normal := MarshalInstall(UnmarshalInstall(s, NO_INSTALL).value);
            && UnmarshalInstall(normal, NO_INSTALL) == UnmarshalInstall(s, NO_INSTALL)
            && UnknownPart(INSTALL_FIELDS, normal) == UnknownPart(INSTALL_FIELDS, s)
  {
    EmptyIsValid();
    EmptyLengths();
    hide Decode, MarshalInstall, ValidInstall, UnknownPart;
    var m := UnmarshalInstall(s, NO_INSTALL).value;
    InstallNotMuchLonger(s, NO_INSTALL);
    InstallIsValid(s, NO_INSTALL);
    InstallRoundTrip(m);
    InstallIsValid(MarshalInstall(m), NO_INSTALL);
    assert [] + UnknownPart(INSTALL_FIELDS, s) == UnknownPart(INSTALL_FIELDS, s);
    assert [] + UnknownPart(INSTALL_FIELDS, MarshalInstall(m)) == UnknownPart(INSTALL_FIELDS, MarshalInstall(m));
  }

  /** A failure leaves what was read before it, but for one submessage that may have been cut off. */
  lemma InstallLeft(s: seq<Byte>, m: InstallMessage) returns (n: nat, field: Int32, v: VersionMessage)
    requires |s| <= MAX_INT64 && UnmarshalInstall(s, m).Err?
    ensures n < |s| && UnmarshalInstall(s[..n], m).Ok?
    ensures var before, left := UnmarshalInstall(s[..n], m).value, LeftInstall(s, m);
            || left == before
            || left == Message(WithSingular(before.known, field, Some(v)), before.unknown)
            || left == Message(Appended(before.known, field, [v]), before.unknown)
  {
    hide Decode, Left, Frame;
    n := LeftIsPrefix(INSTALL_FIELDS, ApplyInstall, InstallCut(), s, 0, m);
    field, v := 1, NO_VERSION;
    var f := Frame(INSTALL_FIELDS, s[n..], n);
    if f.Field? && f.token.Bytes? {
      field := f.token.field;
      v := LeftMerged(Singular(UnmarshalInstall(s[..n], m).value.known, field), f.token.bytes);
    }
  }

  lemma InstallConcatenation(a: seq<Byte>, b: seq<Byte>, m: InstallMessage)
    requires |a + b| <= MAX_INT64 && UnmarshalInstall(a, m).Ok?
    ensures var m' := UnmarshalInstall(a, m).value;
            && SameOutcome(UnmarshalInstall(b, m'), UnmarshalInstall(a + b, m))
            && var o := Overreach(INSTALL_FIELDS, ApplyInstall, b, m');
               UnmarshalInstall(b, m') == UnmarshalInstall(a + b, m)
               <==> !(o.Some? && o.value <= MAX_INT64 < |a| + o.value)
  {
    ConcatenationIsMerge(INSTALL_FIELDS, ApplyInstall, a, b, m);
    ConcatenationExactly(INSTALL_FIELDS, ApplyInstall, a, b, m);
  }

  /** A group that ends with the number of another is accepted, and kept as an unknown field. */
  lemma MismatchedGroupIsKept()
    ensures UnmarshalInstall(MISMATCHED, NO_INSTALL) == Ok(Message(NO_INSTALL.known, MISMATCHED))
  {
    MismatchedFrame(INSTALL_FIELDS);
    hide Frame;
    assert MISMATCHED[4..] == [] && NO_INSTALL.unknown + MISMATCHED == MISMATCHED;
  }

  lemma MismatchedFrame(schema: Schema)
    requires 20 !in schema
    ensures Frame(schema, MISMATCHED, 0) == Field(Unknown(MISMATCHED), 4)
  {
    MismatchedIsSkipped();
    PowersOfTwo();
    TruncateSmall(20, 32);
    hide Skip, Decoded, Truncate;
    assert MISMATCHED[..4] == MISMATCHED;
  }
}
