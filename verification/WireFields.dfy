/** What each single field does to a message, wherever it comes, and what fails as a field. */
module WireFields {
  import opened Options
  import opened Bits
  import opened Varints
  import opened Wire
  import opened WireLaws
  import Install = InstallStatusMessages
  import Overlay = OverlayMessages
  import Resources = ResourcesMessages

  // ---- Any table

  lemma OneField<K>(schema: Schema, apply: Apply<K>, token: Token, base: nat, m: Message<K>)
    requires Writable(schema, token) && base + |EncodeToken(schema, token)| <= MAX_INT64
    ensures Decode(schema, apply, EncodeToken(schema, token), base, m)
            == match apply(m.known, token)
               case Err(e) => Err(e)
               case Ok(k) => Ok(Message(k, m.unknown))
  {
    hide Frame, EncodeToken;
    var s := EncodeToken(schema, token);
    assert [token][1..] == [] && EncodeTokens(schema, [token]) == s + [] == s;
    DecodeEncoded(schema, apply, [token], [], base, m);
    assert s + [] == s;
    assert ApplyAll(apply, m.known, [token]) == apply(m.known, token);
  }

  /** A field behind bytes that were read is applied to what they made. */
  lemma FieldBehind<K>(schema: Schema, apply: Apply<K>, a: seq<Byte>, token: Token, m: Message<K>)
    requires MapFree(schema) && Writable(schema, token) && |a + EncodeToken(schema, token)| <= MAX_INT64
    requires Decode(schema, apply, a, 0, m).Ok?
    ensures Decode(schema, apply, a + EncodeToken(schema, token), 0, m)
            == var m' := Decode(schema, apply, a, 0, m).value;
               match apply(m'.known, token)
               case Err(e) => Err(e)
               case Ok(k) => Ok(Message(k, m'.unknown))
  {
    hide Frame, EncodeToken, Decode;
    DecodeThrough(schema, apply, a, EncodeToken(schema, token), 0, m);
    OneField(schema, apply, token, |a|, Decode(schema, apply, a, 0, m).value);
  }

  /** A known field with another wire type than its own, or an end of a group, is an error. */
  lemma FailsByTag<K>(schema: Schema, apply: Apply<K>, field: Int32, wireType: nat, rest: seq<Byte>, base: nat,
                      m: Message<K>)
    requires field in schema && 1 <= field <= MAX_ONE_BYTE_FIELD && wireType < 8
    requires wireType != if schema[field] == Enum then 0 else 2
    requires base + 1 + |rest| <= MAX_INT64
    ensures Decode(schema, apply, [8 * field + wireType] + rest, base, m)
            == Err(if wireType == 4 then EndGroup else WrongWireType(field))
  {
    hide Decoded, ToInt32;
    TagRoundTrip(8 * field + wireType, rest);
    SmallField(field);
    assert (8 * field + wireType) / 8 == field && (8 * field + wireType) % 8 == wireType;
  }

  /** Field number zero is an error. */
  lemma FailsByNumber<K>(schema: Schema, apply: Apply<K>, wireType: nat, rest: seq<Byte>, base: nat, m: Message<K>)
    requires wireType < 8 && wireType != 4 && base + 1 + |rest| <= MAX_INT64
    ensures Decode(schema, apply, [wireType] + rest, base, m) == Err(IllegalTag)
  {
    hide Decoded, ToInt32;
    TagRoundTrip(wireType, rest);
    SmallField(0);
  }

  /** Field numbers are cut to 32 bits. */
  lemma FieldNumberWraps<K>(schema: Schema, apply: Apply<K>, field: Int32, high: nat, bytes: seq<Byte>, base: nat,
                            m: Message<K>)
    requires field in schema && schema[field] == Wire.Delimited && 1 <= field <= MAX_ONE_BYTE_FIELD
    requires high < 0x1000_0000
    requires var tag := 8 * (field + high * 0x1_0000_0000) + 2;
             base + |Encode(tag)| + |Encode(|bytes|)| + |bytes| <= MAX_INT64
    ensures var tag := 8 * (field + high * 0x1_0000_0000) + 2;
            Frame(schema, Encode(tag) + (Encode(|bytes|) + bytes), base)
            == Field(Bytes(field, bytes), |Encode(tag)| + |Encode(|bytes|)| + |bytes|)
  {
    hide Decoded, Encode, ToInt32, Announced;
    var number := field + high * 0x1_0000_0000;
    var tag := 8 * number + 2;
    var s := Encode(tag) + (Encode(|bytes|) + bytes);
    VarintRoundTrip(tag, Encode(|bytes|) + bytes);
    NumberCut(field, high);
    AnnouncedEncoded(Encode(tag), bytes, [], base);
    assert Encode(|bytes|) + bytes + [] == Encode(|bytes|) + bytes;
    FrameByNumber(schema, field, number, s, base);
  }

  lemma FrameByNumber(schema: Schema, field: Int32, number: nat, s: seq<Byte>, base: nat)
    requires 0 < |s| && base + |s| <= MAX_INT64 && Decoded(s, 64).Value? && Decoded(s, 64).value == 8 * number + 2
    requires field >= 1 && ToInt32(number) == field && field in schema
    ensures Frame(schema, s, base) == FrameKnown(schema[field], field, 2, s, Decoded(s, 64).next, base)
  {
    hide Decoded, ToInt32, FrameKnown;
    assert (8 * number + 2) % 8 == 2 && (8 * number + 2) / 8 == number;
  }

  lemma NumberCut(field: Int32, high: nat)
    requires 1 <= field <= MAX_ONE_BYTE_FIELD
    ensures ToInt32(field + high * 0x1_0000_0000) == field
  {
    PowersOfTwo();
    WeighIsProduct(high, 32);
    TruncateDropsHighBits(field, high, 32);
    TruncateSmall(field, 32);
  }

  // ---- VersionStatus

  /** The last version wins, and so does the last status; whatever else was read stays. */
  lemma VersionLastWins(a: seq<Byte>, version: seq<Byte>, status: Int32, m: Install.VersionMessage)
    requires |a + DelimitedField(1, version)| <= MAX_INT64 && |a + EnumField(2, status)| <= MAX_INT64
    requires Install.UnmarshalVersion(a, m).Ok?
    ensures var m' := Install.UnmarshalVersion(a, m).value;
            && Install.UnmarshalVersion(a + DelimitedField(1, version), m)
               == Ok(Message(Install.VersionStatus(version, m'.known.status), m'.unknown))
            && Install.UnmarshalVersion(a + EnumField(2, status), m)
               == Ok(Message(Install.VersionStatus(m'.known.version, status), m'.unknown))
  {
    hide Decode;
    FieldBehind(Install.VERSION_FIELDS, Install.ApplyVersion, a, Bytes(1, version), m);
    FieldBehind(Install.VERSION_FIELDS, Install.ApplyVersion, a, Number(2, status), m);
  }

  lemma VersionWireTypes(field: Int32, wireType: nat, rest: seq<Byte>, m: Install.VersionMessage)
    requires 1 <= field <= 2 && wireType < 8 && wireType != 4 && 1 + |rest| <= MAX_INT64
    requires wireType != if field == 2 then 0 else 2
    ensures Install.UnmarshalVersion([8 * field + wireType] + rest, m) == Err(WrongWireType(field))
  {
    FailsByTag(Install.VERSION_FIELDS, Install.ApplyVersion, field, wireType, rest, 0, m);
  }

  // ---- InstallStatus

  /** What a singular submessage is merged into. */
  function Present(o: Option<Install.VersionMessage>): Install.VersionMessage {
    if o.Some? then o.value else Message(Install.VersionStatus([], 0), [])
  }

  /** Fields 1 to 4: a submessage is unmarshalled into the one that is there, or into an empty one. */
  lemma SubmessageField(payload: seq<Byte>, m: Install.InstallMessage)
    requires |DelimitedField(1, payload)| <= MAX_INT64
    ensures Install.UnmarshalInstall(DelimitedField(1, payload), m)
            == match Install.UnmarshalVersion(payload, Present(m.known.trafficManagement))
               case Err(e) => Err(e)
               case Ok(v) => Ok(Message(m.known.(trafficManagement := Some(v)), m.unknown))
    ensures Install.UnmarshalInstall(DelimitedField(2, payload), m)
            == match Install.UnmarshalVersion(payload, Present(m.known.policyTelemetry))
               case Err(e) => Err(e)
               case Ok(v) => Ok(Message(m.known.(policyTelemetry := Some(v)), m.unknown))
    ensures Install.UnmarshalInstall(DelimitedField(3, payload), m)
            == match Install.UnmarshalVersion(payload, Present(m.known.security))
               case Err(e) => Err(e)
               case Ok(v) => Ok(Message(m.known.(security := Some(v)), m.unknown))
    ensures Install.UnmarshalInstall(DelimitedField(4, payload), m)
            == match Install.UnmarshalVersion(payload, Present(m.known.configManagement))
               case Err(e) => Err(e)
               case Ok(v) => Ok(Message(m.known.(configManagement := Some(v)), m.unknown))
  {
    hide Decode, Encode;
    OneField(Install.INSTALL_FIELDS, Install.ApplyInstall, Bytes(1, payload), 0, m);
    OneField(Install.INSTALL_FIELDS, Install.ApplyInstall, Bytes(2, payload), 0, m);
    OneField(Install.INSTALL_FIELDS, Install.ApplyInstall, Bytes(3, payload), 0, m);
    OneField(Install.INSTALL_FIELDS, Install.ApplyInstall, Bytes(4, payload), 0, m);
  }

  /** Fields 5 and 6: a new message is appended. */
  lemma GatewayField(payload: seq<Byte>, m: Install.InstallMessage)
    requires |DelimitedField(5, payload)| <= MAX_INT64
    ensures Install.UnmarshalInstall(DelimitedField(5, payload), m)
            == match Install.UnmarshalVersion(payload, Install.NO_VERSION)
               case Err(e) => Err(e)
               case Ok(v) => Ok(Message(m.known.(ingressGateway := m.known.ingressGateway + [v]), m.unknown))
    ensures Install.UnmarshalInstall(DelimitedField(6, payload), m)
            == match Install.UnmarshalVersion(payload, Install.NO_VERSION)
               case Err(e) => Err(e)
               case Ok(v) => Ok(Message(m.known.(egressGateway := m.known.egressGateway + [v]), m.unknown))
  {
    hide Decode, Encode;
    OneField(Install.INSTALL_FIELDS, Install.ApplyInstall, Bytes(5, payload), 0, m);
    OneField(Install.INSTALL_FIELDS, Install.ApplyInstall, Bytes(6, payload), 0, m);
  }

  /**
   A singular submessage in two fields is the submessage in one field that has both payloads: the second is merged into
   the first.
   */
  lemma SubmessagesMerge(field: Int32, a: seq<Byte>, b: seq<Byte>, m: Install.InstallMessage)
    requires 1 <= field <= 4 && |DelimitedField(field, a) + DelimitedField(field, b)| <= MAX_INT64
    requires |DelimitedField(field, a + b)| <= MAX_INT64
    requires Install.UnmarshalInstall(DelimitedField(field, a), m).Ok?
    ensures SameOutcome(Install.UnmarshalInstall(DelimitedField(field, a) + DelimitedField(field, b), m),
                        Install.UnmarshalInstall(DelimitedField(field, a + b), m))
  {
    hide Decode, Encode;
    var m' := Install.UnmarshalInstall(DelimitedField(field, a), m).value;
    SubmessageField(a, m);
    SubmessageField(b, m');
    SubmessageField(a + b, m);
    SubmessageBehind(field, DelimitedField(field, a), b, m);
    var o := match field case 1 => m.known.trafficManagement case 2 => m.known.policyTelemetry
                         case 3 => m.known.security case _ => m.known.configManagement;
    ConcatenationIsMerge(Install.VERSION_FIELDS, Install.ApplyVersion, a, b, Present(o));
  }

  /** A field behind bytes that were read is that field alone, read into what they made. */
  lemma SubmessageBehind(field: Int32, before: seq<Byte>, payload: seq<Byte>, m: Install.InstallMessage)
    requires 1 <= field <= 6 && |before + DelimitedField(field, payload)| <= MAX_INT64
    requires Install.UnmarshalInstall(before, m).Ok?
    ensures Install.UnmarshalInstall(before + DelimitedField(field, payload), m)
            == Install.UnmarshalInstall(DelimitedField(field, payload), Install.UnmarshalInstall(before, m).value)
  {
    hide Decode, Install.ApplyInstall;
    FieldBehind(Install.INSTALL_FIELDS, Install.ApplyInstall, before, Bytes(field, payload), m);
    OneField(Install.INSTALL_FIELDS, Install.ApplyInstall, Bytes(field, payload), 0,
             Install.UnmarshalInstall(before, m).value);
  }

  lemma InstallWireTypes(field: Int32, wireType: nat, rest: seq<Byte>, m: Install.InstallMessage)
    requires 1 <= field <= 6 && wireType < 8 && wireType != 2 && wireType != 4 && 1 + |rest| <= MAX_INT64
    ensures Install.UnmarshalInstall([8 * field + wireType] + rest, m) == Err(WrongWireType(field))
  {
    FailsByTag(Install.INSTALL_FIELDS, Install.ApplyInstall, field, wireType, rest, 0, m);
  }

  // ---- K8SObjectOverlay and PathValue

  /** The last path wins. */
  lemma PathLastWins(a: seq<Byte>, path: seq<Byte>, m: Overlay.PathMessage)
    requires |a + DelimitedField(1, path)| <= MAX_INT64 && Overlay.UnmarshalPath(a, m).Ok?
    ensures Overlay.UnmarshalPath(a + DelimitedField(1, path), m)
            == Ok(Message(Overlay.PathValue(path), Overlay.UnmarshalPath(a, m).value.unknown))
  {
    hide Decode;
    FieldBehind(Overlay.PATH_FIELDS, Overlay.ApplyPath, a, Bytes(1, path), m);
  }

  /** The last of the strings wins; patches are appended. */
  lemma OverlayFields(a: seq<Byte>, text: seq<Byte>, m: Overlay.OverlayMessage)
    requires |a + DelimitedField(1, text)| <= MAX_INT64 && Overlay.UnmarshalOverlay(a, m).Ok?
    ensures var m' := Overlay.UnmarshalOverlay(a, m).value;
            var k := m'.known;
            && Overlay.UnmarshalOverlay(a + DelimitedField(1, text), m)
               == Ok(Message(Overlay.Overlay(text, k.kind, k.name, k.patches), m'.unknown))
            && Overlay.UnmarshalOverlay(a + DelimitedField(2, text), m)
               == Ok(Message(Overlay.Overlay(k.apiVersion, text, k.name, k.patches), m'.unknown))
            && Overlay.UnmarshalOverlay(a + DelimitedField(3, text), m)
               == Ok(Message(Overlay.Overlay(k.apiVersion, k.kind, text, k.patches), m'.unknown))
            && Overlay.UnmarshalOverlay(a + DelimitedField(4, text), m)
               == match Overlay.UnmarshalPath(text, Message(Overlay.PathValue([]), []))
                  case Err(e) => Err(e)
                  case Ok(p) => Ok(Message(Overlay.Overlay(k.apiVersion, k.kind, k.name, k.patches + [p]), m'.unknown))
  {
    hide Decode;
    FieldBehind(Overlay.OVERLAY_FIELDS, Overlay.ApplyOverlay, a, Bytes(1, text), m);
    FieldBehind(Overlay.OVERLAY_FIELDS, Overlay.ApplyOverlay, a, Bytes(2, text), m);
    FieldBehind(Overlay.OVERLAY_FIELDS, Overlay.ApplyOverlay, a, Bytes(3, text), m);
    FieldBehind(Overlay.OVERLAY_FIELDS, Overlay.ApplyOverlay, a, Bytes(4, text), m);
  }

  lemma OverlayWireTypes(field: Int32, wireType: nat, rest: seq<Byte>, m: Overlay.OverlayMessage)
    requires 1 <= field <= 4 && wireType < 8 && wireType != 2 && wireType != 4 && 1 + |rest| <= MAX_INT64
    ensures Overlay.UnmarshalOverlay([8 * field + wireType] + rest, m) == Err(WrongWireType(field))
  {
    FailsByTag(Overlay.OVERLAY_FIELDS, Overlay.ApplyOverlay, field, wireType, rest, 0, m);
  }

  lemma PathWireTypes(wireType: nat, rest: seq<Byte>, m: Overlay.PathMessage)
    requires wireType < 8 && wireType != 2 && wireType != 4 && 1 + |rest| <= MAX_INT64
    ensures Overlay.UnmarshalPath([8 + wireType] + rest, m) == Err(WrongWireType(1))
  {
    FailsByTag(Overlay.PATH_FIELDS, Overlay.ApplyPath, 1, wireType, rest, 0, m);
  }

  // ---- Resources

  /** An entry sets its key in its map, whatever was there. */
  lemma EntryField(key: seq<Byte>, value: seq<Byte>, m: Resources.ResourcesMessage)
    requires |DelimitedField(1, DelimitedField(1, key) + DelimitedField(2, value))| <= MAX_INT64
    ensures var entry := DelimitedField(1, key) + DelimitedField(2, value);
            && Resources.UnmarshalResources(DelimitedField(1, entry), m)
               == Ok(Message(Resources.Resources(m.known.limits[key := value], m.known.requests), m.unknown))
            && Resources.UnmarshalResources(DelimitedField(2, entry), m)
               == Ok(Message(Resources.Resources(m.known.limits, m.known.requests[key := value]), m.unknown))
  {
    hide Frame, Encode, DelimitedField;
    var entry := DelimitedField(1, key) + DelimitedField(2, value);
    assert entry == Resources.EntryBytes(key, value);
    forall field: Int32 | 1 <= field <= 2
      ensures |DelimitedField(field, entry)| == |DelimitedField(1, entry)|
      ensures Resources.UnmarshalResources(DelimitedField(field, entry), m)
              == Ok(Message(Resources.WithEntry(m.known, field, key, value), m.unknown))
    {
      SameLength(field, entry);
      Resources.DecodeEntry(field, key, value, [], 0, m);
      assert DelimitedField(field, entry) + [] == DelimitedField(field, entry);
    }
  }

  lemma SameLength(field: Int32, bytes: seq<Byte>)
    requires 1 <= field <= 2
    ensures |DelimitedField(field, bytes)| == |DelimitedField(1, bytes)|
  {
  }

  lemma ResourcesWireTypes(field: Int32, wireType: nat, rest: seq<Byte>, m: Resources.ResourcesMessage)
    requires 1 <= field <= 2 && wireType < 8 && wireType != 2 && wireType != 4 && 1 + |rest| <= MAX_INT64
    ensures Resources.UnmarshalResources([8 * field + wireType] + rest, m) == Err(WrongWireType(field))
  {
    FailsByTag(Resources.RESOURCES_FIELDS, Resources.ApplyResources, field, wireType, rest, 0, m);
  }
}
