/** The generated methods of `InstallStatus` and `InstallStatus_VersionStatus`, which read and write Go structs. */
module InstallStatusCodec {
  import opened Options
  import opened Bits
  import opened Varints
  import opened Wire
  import opened WireLaws
  import opened Buffers
  import Spec = InstallStatusMessages

  class VersionStatus {
    var version: seq<Byte>
    var status: Int32
    var unrecognized: seq<Byte>

    constructor ()
      ensures Value() == Spec.NO_VERSION
    {
      version, status, unrecognized := [], 0, [];
    }

    function Value(): Spec.VersionMessage
      reads this
    {
      Message(Spec.VersionStatus(version, status), unrecognized)
    }

    method Size() returns (n: nat)
      requires |Spec.MarshalVersion(Value())| <= MAX_INT64
      ensures n == |Spec.MarshalVersion(Value())|
    {
      if |version| > 0 {
        PayloadFits(1, Text(version), 0);
      }
      n := TextSize(1, version);
      if status != 0 {
        var sov := Sov(SignExtend(status));
        n := n + 1 + sov;
      }
      n := n + |unrecognized|;
    }

    method MarshalTo(buffer: array<Byte>, at: nat) returns (n: nat)
      requires at + |Spec.MarshalVersion(Value())| <= buffer.Length <= MAX_INT64
      modifies buffer
      ensures n == |Spec.MarshalVersion(Value())|
      ensures buffer[..] == Splice(old(buffer[..]), at, Spec.MarshalVersion(Value()))
    {
      hide Repeated, NonZero, Splice;
      ghost var before := buffer[..];
      ghost var text, number := Repeated(1, Text(version)), NonZero(2, status);
      var i := WriteText(buffer, at, 1, version);
      i := WriteEnum(buffer, i, 2, status);
      SpliceTwice(before, at, text, number);
      i := Copy(buffer, i, unrecognized);
      SpliceTwice(before, at, text + number, unrecognized);
      n := i - at;
    }

    method Unmarshal(data: seq<Byte>) returns (err: Option<Error>)
      requires |data| <= MAX_INT64
      modifies this
      ensures match err
              case None => Spec.UnmarshalVersion(data, old(Value())) == Ok(Value())
              case Some(e) => Spec.UnmarshalVersion(data, old(Value())) == Err(e)
      ensures Value() == Spec.LeftVersion(data, old(Value()))
    {
      hide Frame, Decode, Left, Remains, Spec.StatusCut;
      var i := 0;
      ghost var m0 := Value();
      ReadStart(Spec.VERSION_FIELDS, Spec.ApplyVersion, Spec.VersionCut(), data, m0);
      while i < |data|
        invariant i <= |data|
        invariant Remains(Spec.VERSION_FIELDS, Spec.ApplyVersion, Spec.VersionCut(), data, m0, i, Value())
      {
        ReadOn(Spec.VERSION_FIELDS, Spec.ApplyVersion, Spec.VersionCut(), data, m0, i, Value());
        var f := ReadField(Spec.VERSION_FIELDS, data, i);
        if f.NoField? {
          KeepStatus(data, i);
          return Some(f.error);
        }
        match f.token {
          case Bytes(field, bytes) =>
            if field == 1 {
              version := bytes;
            }
          case Number(field, value) =>
            if field == 2 {
              status := value;
            }
          case Unknown(raw) =>
            unrecognized := unrecognized + raw;
          case _ =>
        }
        i := i + f.n;
      }
      ReadEnd(Spec.VERSION_FIELDS, Spec.ApplyVersion, Spec.VersionCut(), data, m0, Value());
      return None;
    }

    /** A field that cannot be framed, at `at`: what there was of an enum stays in the struct. */
    method KeepStatus(data: seq<Byte>, at: nat)
      requires at < |data| <= MAX_INT64
      modifies this`status
      ensures Value() == Message(Spec.StatusCut(old(Value()).known, data[at..]), unrecognized)
    {
      hide ToInt32;
      var tag := DecodeVarint(data, at, 64);
      if tag.Value? && ToInt32(tag.value / 8) == 2 && tag.value % 8 == 0 {
        assert data[at..][tag.next - at..] == data[tag.next..];
        ReadStatus(data, tag.next);
      }
    }

    /** The loop that reads the enum into the struct. */
    method ReadStatus(data: seq<Byte>, start: nat)
      requires start <= |data|
      modifies this`status
      ensures status == ToInt32(Septets(data[start..]))
    {
      hide BitOr, Truncate, Weigh, ToInt32;
      status := ToInt32(0);
      var pattern: nat, shift, i := 0, 0, start;
      ghost var sum: nat := 0;
      TruncateSmall(0, 32);
      WeighNone(Septets(data[start..]));
      while true
        invariant start <= i <= |data| && shift == 7 * (i - start) <= 70
        invariant sum < Pow2(shift) && pattern == Truncate(sum, 32) && status == ToInt32(pattern)
        invariant Septets(data[start..]) == sum + Weigh(Septets(data[i..], i - start), 7 * (i - start))
        decreases |data| - i
      {
        WeighZero(shift);
        SamePattern(sum);
        if shift >= 64 || i >= |data| {
          return;
        }
        var b := data[i];
        AccumulateByte(sum, b % 128, shift, 32);
        SeptetsStep(sum, i - start, data[i..]);
        assert data[i..][1..] == data[i + 1..];
        pattern := BitOr(pattern, ShiftLeft(b % 128, shift, 32));
        status := ToInt32(pattern);
        sum := sum + Weigh(b % 128, shift);
        i := i + 1;
        shift := shift + 7;
        SamePattern(sum);
        if b < 128 {
          return;
        }
      }
    }
  }

  lemma WeighNone(x: nat)
    ensures Weigh(x, 0) == x && Pow2(0) == 1
  {
  }

  lemma SamePattern(x: nat)
    ensures ToInt32(Truncate(x, 32)) == ToInt32(x)
  {
    TruncateSmall(Truncate(x, 32), 32);
  }

  function OptionValue(v: VersionStatus?): Option<Spec.VersionMessage>
    reads v
  {
    if v == null then None else Some(v.Value())
  }

  function Present(v: VersionStatus?): set<VersionStatus> {
    if v == null then {} else {v}
  }

  function Values(vs: seq<VersionStatus>): (ms: seq<Spec.VersionMessage>)
    reads vs
    ensures |ms| == |vs|
    ensures forall i | 0 <= i < |vs| :: ms[i] == vs[i].Value()
  {
    seq(|vs|, i requires 0 <= i < |vs| reads vs => vs[i].Value())
  }

  /** The field of a submessage, written if there is one. */
  method WriteVersion(buffer: array<Byte>, at: nat, field: Int32, v: VersionStatus?) returns (end: nat)
    requires 1 <= field <= MAX_ONE_BYTE_FIELD
    requires at + |Repeated(field, Spec.Payload(OptionValue(v)))| <= buffer.Length <= MAX_INT64
    modifies buffer
    ensures end == at + |Repeated(field, Spec.Payload(OptionValue(v)))|
    ensures buffer[..] == Splice(old(buffer[..]), at, Repeated(field, Spec.Payload(OptionValue(v))))
  {
    hide Encode, Spec.MarshalVersion;
    end := at;
    SpliceNothing(buffer[..], at);
    if v != null {
      ghost var bytes := Spec.MarshalVersion(v.Value());
      assert Repeated(field, Spec.Payload(OptionValue(v))) == DelimitedField(field, bytes);
      var size := v.Size();
      end := WriteHeader(buffer, at, 8 * field + 2, size);
      var n := v.MarshalTo(buffer, end);
      SpliceTwice(old(buffer[..]), at, [8 * field + 2] + Encode(|bytes|), bytes);
      end := end + n;
    }
  }

  /** A repeated field of submessages. */
  method WriteVersions(buffer: array<Byte>, at: nat, field: Int32, vs: seq<VersionStatus>) returns (end: nat)
    requires 1 <= field <= MAX_ONE_BYTE_FIELD
    requires at + |Repeated(field, Spec.Payloads(Values(vs)))| <= buffer.Length <= MAX_INT64
    modifies buffer
    ensures end == at + |Repeated(field, Spec.Payloads(Values(vs)))|
    ensures buffer[..] == Splice(old(buffer[..]), at, Repeated(field, Spec.Payloads(Values(vs))))
  {
    hide Repeated, Splice, OptionValue, Values, Spec.Payload, Spec.Payloads, Spec.MarshalVersion;
    end := at;
    ghost var all := Spec.Payloads(Values(vs));
    ghost var before := buffer[..];
    assert all[..0] == [];
    RepeatedNone(field);
    SpliceNothing(before, at);
    for k := 0 to |vs|
      invariant end == at + |Repeated(field, all[..k])| <= buffer.Length
      invariant buffer[..] == Splice(before, at, Repeated(field, all[..k]))
    {
      RepeatedStep(field, all, k);
      OnePayload(vs, k);
      end := WriteVersion(buffer, end, field, vs[k]);
      SpliceTwice(before, at, Repeated(field, all[..k]), Repeated(field, [all[k]]));
    }
    assert all[..|vs|] == all;
  }

  lemma OnePayload(vs: seq<VersionStatus>, k: nat)
    requires k < |vs|
    ensures Spec.Payload(OptionValue(vs[k])) == [Spec.Payloads(Values(vs))[k]]
  {
  }

  method VersionSize(field: Int32, v: VersionStatus?) returns (n: nat)
    requires 1 <= field <= MAX_ONE_BYTE_FIELD
    requires |Repeated(field, Spec.Payload(OptionValue(v)))| <= MAX_INT64
    ensures n == |Repeated(field, Spec.Payload(OptionValue(v)))|
  {
    n := 0;
    if v != null {
      PayloadFits(field, Spec.Payload(OptionValue(v)), 0);
      var l := v.Size();
      n := FieldSize(l);
      assert Repeated(field, Spec.Payload(OptionValue(v))) == DelimitedField(field, Spec.MarshalVersion(v.Value()));
    }
  }

  method VersionsSize(field: Int32, vs: seq<VersionStatus>) returns (n: nat)
    requires 1 <= field <= MAX_ONE_BYTE_FIELD
    requires |Repeated(field, Spec.Payloads(Values(vs)))| <= MAX_INT64
    ensures n == |Repeated(field, Spec.Payloads(Values(vs)))|
  {
    hide Repeated, Spec.Payloads, Spec.MarshalVersion;
    n := 0;
    ghost var all := Spec.Payloads(Values(vs));
    assert all[..0] == [];
    RepeatedNone(field);
    for k := 0 to |vs|
      invariant n == |Repeated(field, all[..k])|
    {
      RepeatedStep(field, all, k);
      assert Spec.Payload(OptionValue(vs[k])) == [all[k]];
      var size := VersionSize(field, vs[k]);
      n := n + size;
    }
    assert all[..|vs|] == all;
  }

  class InstallStatus {
    var trafficManagement: VersionStatus?
    var policyTelemetry: VersionStatus?
    var security: VersionStatus?
    var configManagement: VersionStatus?
    var ingressGateway: seq<VersionStatus>
    var egressGateway: seq<VersionStatus>
    var unrecognized: seq<Byte>

    constructor ()
      ensures Valid() && Value() == Spec.NO_INSTALL && Parts() == {}
    {
      trafficManagement, policyTelemetry, security, configManagement := null, null, null, null;
      ingressGateway, egressGateway, unrecognized := [], [], [];
    }

    /** The submessages that `Unmarshal` may merge into. */
    ghost function Singulars(): set<VersionStatus>
      reads this
    {
      Present(trafficManagement) + Present(policyTelemetry) + Present(security) + Present(configManagement)
    }

    ghost function Parts(): set<VersionStatus>
      reads this
    {
      Singulars() + (set v | v in ingressGateway + egressGateway)
    }

    /** A submessage that `Unmarshal` may merge into is shared with no other field. */
    ghost predicate Valid()
      reads this
    {
      && Unshared(trafficManagement) && Unshared(policyTelemetry) && Unshared(security) && Unshared(configManagement)
      && (trafficManagement != null ==>
            trafficManagement != policyTelemetry && trafficManagement != security
            && trafficManagement != configManagement)
      && (policyTelemetry != null ==> policyTelemetry != security && policyTelemetry != configManagement)
      && (security != null ==> security != configManagement)
    }

    ghost predicate Unshared(v: VersionStatus?)
      reads this
    {
      v != null ==> v !in ingressGateway && v !in egressGateway
    }

    ghost function Known(): Spec.InstallStatus
      reads this, Parts()
    {
      Spec.InstallStatus(OptionValue(trafficManagement), OptionValue(policyTelemetry), OptionValue(security),
                         OptionValue(configManagement), Values(ingressGateway), Values(egressGateway))
    }

    ghost function Value(): Spec.InstallMessage
      reads this, Parts()
    {
      Message(Known(), unrecognized)
    }

    method Size() returns (n: nat)
      requires |Spec.MarshalInstall(Value())| <= MAX_INT64
      ensures n == |Spec.MarshalInstall(Value())|
    {
      hide Repeated, Spec.Payload, Spec.Payloads;
      var n1 := VersionSize(1, trafficManagement);
      var n2 := VersionSize(2, policyTelemetry);
      var n3 := VersionSize(3, security);
      var n4 := VersionSize(4, configManagement);
      var n5 := VersionsSize(5, ingressGateway);
      var n6 := VersionsSize(6, egressGateway);
      n := n1 + n2 + n3 + n4 + n5 + n6 + |unrecognized|;
    }

    /** Writes exactly `Size()` bytes, those of the message, and nothing outside them. */
    method MarshalTo(buffer: array<Byte>, at: nat) returns (n: nat)
      requires at + |Spec.MarshalInstall(Value())| <= buffer.Length <= MAX_INT64
      modifies buffer
      ensures n == |old(Spec.MarshalInstall(Value()))|
      ensures buffer[..] == Splice(old(buffer[..]), at, old(Spec.MarshalInstall(Value())))
    {
      hide Repeated, Spec.Payload, Spec.Payloads, Splice, OptionValue, Values;
      ghost var before, k := buffer[..], Known();
      ghost var f := Spec.SingularBytes(k);
      ghost var f5 := Repeated(5, Spec.Payloads(k.ingressGateway));
      ghost var f6 := Repeated(6, Spec.Payloads(k.egressGateway));
      assert f + f5 + f6 + unrecognized == Spec.MarshalInstall(Value());
      var i := WriteSingulars(buffer, at);
      i := WriteVersions(buffer, i, 5, ingressGateway);
      SpliceTwice(before, at, f, f5);
      i := WriteVersions(buffer, i, 6, egressGateway);
      SpliceTwice(before, at, f + f5, f6);
      i := Copy(buffer, i, unrecognized);
      SpliceTwice(before, at, f + f5 + f6, unrecognized);
      n := i - at;
    }

    /** The first four fields of `MarshalTo`. */
    method WriteSingulars(buffer: array<Byte>, at: nat) returns (end: nat)
      requires at + |Spec.SingularBytes(Known())| <= buffer.Length <= MAX_INT64
      modifies buffer
      ensures end == at + |Spec.SingularBytes(Known())|
      ensures buffer[..] == Splice(old(buffer[..]), at, Spec.SingularBytes(Known()))
    {
      hide Repeated, Spec.Payload, Splice, OptionValue, Values;
      ghost var before, k := buffer[..], Known();
      ghost var f1 := Repeated(1, Spec.Payload(k.trafficManagement));
      ghost var f2 := Repeated(2, Spec.Payload(k.policyTelemetry));
      ghost var f3 := Repeated(3, Spec.Payload(k.security));
      ghost var f4 := Repeated(4, Spec.Payload(k.configManagement));
      end := WriteVersion(buffer, at, 1, trafficManagement);
      end := WriteVersion(buffer, end, 2, policyTelemetry);
      SpliceTwice(before, at, f1, f2);
      end := WriteVersion(buffer, end, 3, security);
      SpliceTwice(before, at, f1 + f2, f3);
      end := WriteVersion(buffer, end, 4, configManagement);
      SpliceTwice(before, at, f1 + f2 + f3, f4);
    }

    /**
     The `switch` of `Unmarshal`: a singular submessage is created if absent and merged into, a list gets a new one.
     */
    method Store(field: Int32, bytes: seq<Byte>) returns (err: Option<Error>)
      requires Valid() && 1 <= field <= 6 && |bytes| <= MAX_INT64
      modifies this, Parts()
      ensures Valid() && unrecognized == old(unrecognized)
      ensures fresh(Parts() - old(Parts()))
      ensures match err
              case None => Spec.ApplyInstall(old(Known()), Bytes(field, bytes)) == Ok(Known())
              case Some(e) =>
                && Spec.ApplyInstall(old(Known()), Bytes(field, bytes)) == Err(e)
                && Spec.SubmessageCut(old(Known()), Bytes(field, bytes)) == Known()
    {
      hide Spec.ApplyInstall, Spec.SubmessageCut, Values, OptionValue;
      if field <= 2 {
        err := StoreTrafficOrPolicy(field, bytes);
      } else if field <= 4 {
        err := StoreSecurityOrConfig(field, bytes);
      } else {
        err := StoreGateway(field, bytes);
      }
    }

    method StoreGateway(field: Int32, bytes: seq<Byte>) returns (err: Option<Error>)
      requires Valid() && 5 <= field <= 6 && |bytes| <= MAX_INT64
      modifies this, Parts()
      ensures Valid() && unrecognized == old(unrecognized)
      ensures fresh(Parts() - old(Parts()))
      ensures match err
              case None => Spec.ApplyInstall(old(Known()), Bytes(field, bytes)) == Ok(Known())
              case Some(e) =>
                && Spec.ApplyInstall(old(Known()), Bytes(field, bytes)) == Err(e)
                && Spec.SubmessageCut(old(Known()), Bytes(field, bytes)) == Known()
    {
      hide Spec.MergeVersion, Spec.LeftMerged, Values;
      var v;
      v, err := MergeInto(null, bytes);
      if field == 5 {
        ValuesAppend(ingressGateway, v);
        ingressGateway := ingressGateway + [v];
      } else {
        ValuesAppend(egressGateway, v);
        egressGateway := egressGateway + [v];
      }
    }

    method StoreTrafficOrPolicy(field: Int32, bytes: seq<Byte>) returns (err: Option<Error>)
      requires Valid() && 1 <= field <= 2 && |bytes| <= MAX_INT64
      modifies this, Parts()
      ensures Valid() && unrecognized == old(unrecognized)
      ensures fresh(Parts() - old(Parts()))
      ensures match err
              case None => Spec.ApplyInstall(old(Known()), Bytes(field, bytes)) == Ok(Known())
              case Some(e) =>
                && Spec.ApplyInstall(old(Known()), Bytes(field, bytes)) == Err(e)
                && Spec.SubmessageCut(old(Known()), Bytes(field, bytes)) == Known()
    {
      hide Spec.MergeVersion, Spec.LeftMerged, Values, OptionValue;
      if field == 1 {
        trafficManagement, err := MergeInto(trafficManagement, bytes);
      } else {
        policyTelemetry, err := MergeInto(policyTelemetry, bytes);
      }
    }

    method StoreSecurityOrConfig(field: Int32, bytes: seq<Byte>) returns (err: Option<Error>)
      requires Valid() && 3 <= field <= 4 && |bytes| <= MAX_INT64
      modifies this, Parts()
      ensures Valid() && unrecognized == old(unrecognized)
      ensures fresh(Parts() - old(Parts()))
      ensures match err
              case None => Spec.ApplyInstall(old(Known()), Bytes(field, bytes)) == Ok(Known())
              case Some(e) =>
                && Spec.ApplyInstall(old(Known()), Bytes(field, bytes)) == Err(e)
                && Spec.SubmessageCut(old(Known()), Bytes(field, bytes)) == Known()
    {
      hide Spec.MergeVersion, Spec.LeftMerged, Values, OptionValue;
      if field == 3 {
        security, err := MergeInto(security, bytes);
      } else {
        configManagement, err := MergeInto(configManagement, bytes);
      }
    }

    method Receive(token: Token) returns (err: Option<Error>)
      requires Valid() && ForInstall(token)
      modifies this, Parts()
      ensures Valid() && fresh(Parts() - old(Parts()))
      ensures match err
              case None => Update(Spec.ApplyInstall, old(Value()), token) == Ok(Value())
              case Some(e) =>
                && Update(Spec.ApplyInstall, old(Value()), token) == Err(e)
                && Value() == Message(Spec.SubmessageCut(old(Value()).known, token), old(Value()).unknown)
    {
      hide Spec.ApplyInstall, Spec.SubmessageCut;
      if token.Unknown? {
        unrecognized := unrecognized + token.raw;
        err := None;
      } else {
        err := Store(token.field, token.bytes);
      }
    }

    method Unmarshal(data: seq<Byte>) returns (err: Option<Error>)
      requires Valid() && |data| <= MAX_INT64
      modifies this, Parts()
      ensures Valid() && fresh(Parts() - old(Parts()))
      ensures match err
              case None => Spec.UnmarshalInstall(data, old(Value())) == Ok(Value())
              case Some(e) => Spec.UnmarshalInstall(data, old(Value())) == Err(e)
      ensures Value() == Spec.LeftInstall(data, old(Value()))
    {
      hide Frame, Update, Unread, Spec.ApplyInstall, Spec.SubmessageCut, Spec.UnmarshalInstall, Spec.LeftInstall, Valid,
           Known, ForInstall;
      var i := 0;
      ghost var m0 := Value();
      UnreadAll(data, m0);
      while i < |data|
        invariant i <= |data| && Valid() && fresh(Parts() - old(Parts()))
        invariant Unread(data, m0, i, Value())
      {
        ReadOne(data, m0, i, Value());
        var f := ReadField(Spec.INSTALL_FIELDS, data, i);
        if f.NoField? {
          return Some(f.error);
        }
        OnlySubmessages(data, i);
        err := Receive(f.token);
        if err.Some? {
          return;
        }
        i := i + f.n;
      }
      UnreadNone(data, m0, Value());
      return None;
    }
  }

  /** The outcome for `m0` is that of the bytes from `i` on for `m`. */
  ghost predicate Unread(data: seq<Byte>, m0: Spec.InstallMessage, i: nat, m: Spec.InstallMessage)
    requires i <= |data| <= MAX_INT64
  {
    Remains(Spec.INSTALL_FIELDS, Spec.ApplyInstall, Spec.InstallCut(), data, m0, i, m)
  }

  lemma UnreadAll(data: seq<Byte>, m0: Spec.InstallMessage)
    requires |data| <= MAX_INT64
    ensures Unread(data, m0, 0, m0)
  {
    ReadStart(Spec.INSTALL_FIELDS, Spec.ApplyInstall, Spec.InstallCut(), data, m0);
  }

  lemma ReadOne(data: seq<Byte>, m0: Spec.InstallMessage, i: nat, m: Spec.InstallMessage)
    requires i < |data| <= MAX_INT64 && Unread(data, m0, i, m)
    ensures match Frame(Spec.INSTALL_FIELDS, data[i..], i)
            case NoField(e) => Spec.UnmarshalInstall(data, m0) == Err(e) && Spec.LeftInstall(data, m0) == m
            case Field(token, n) =>
              match Update(Spec.ApplyInstall, m, token)
              case Err(e) =>
                && Spec.UnmarshalInstall(data, m0) == Err(e)
                && Spec.LeftInstall(data, m0) == Message(Spec.SubmessageCut(m.known, token), m.unknown)
              case Ok(m') => Unread(data, m0, i + n, m')
  {
    hide Frame, Update, Decode, Left, Remains;
    ReadOn(Spec.INSTALL_FIELDS, Spec.ApplyInstall, Spec.InstallCut(), data, m0, i, m);
  }

  lemma UnreadNone(data: seq<Byte>, m0: Spec.InstallMessage, m: Spec.InstallMessage)
    requires |data| <= MAX_INT64 && Unread(data, m0, |data|, m)
    ensures Spec.UnmarshalInstall(data, m0) == Ok(m) && Spec.LeftInstall(data, m0) == m
  {
    ReadEnd(Spec.INSTALL_FIELDS, Spec.ApplyInstall, Spec.InstallCut(), data, m0, m);
  }

  lemma ValuesAppend(vs: seq<VersionStatus>, v: VersionStatus)
    ensures Values(vs + [v]) == Values(vs) + [v.Value()]
  {
  }

  predicate ForInstall(token: Token) {
    token.Unknown? || (token.Bytes? && 1 <= token.field <= 6 && |token.bytes| <= MAX_INT64)
  }

  lemma OnlySubmessages(data: seq<Byte>, i: nat)
    requires i < |data| <= MAX_INT64
    ensures var f := Frame(Spec.INSTALL_FIELDS, data[i..], i); f.Field? ==> ForInstall(f.token)
  {
  }

  method MergeInto(v: VersionStatus?, bytes: seq<Byte>) returns (r: VersionStatus, err: Option<Error>)
    requires |bytes| <= MAX_INT64
    modifies v
    ensures if v == null then fresh(r) else r == v
    ensures match err
            case None => Spec.MergeVersion(old(OptionValue(v)), bytes) == Ok(r.Value())
            case Some(e) => Spec.MergeVersion(old(OptionValue(v)), bytes) == Err(e)
    ensures OptionValue(r) == Some(r.Value()) && r.Value() == Spec.LeftMerged(old(OptionValue(v)), bytes)
  {
    if v == null {
      r := new VersionStatus();
    } else {
      r := v;
    }
    err := r.Unmarshal(bytes);
  }
}
