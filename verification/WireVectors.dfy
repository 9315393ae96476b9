/** Messages and their bytes, written out. */
module WireVectors {
  import opened Options
  import opened Bits
  import opened Varints
  import opened Wire
  import opened WireFields
  import opened WireLaws
  import Install = InstallStatusMessages
  import Overlay = OverlayMessages
  import Resources = ResourcesMessages

  lemma SmallEncodings()
    ensures Encode(0) == [0] && Encode(1) == [1] && Encode(3) == [3] && Encode(5) == [5]
  {
  }

  /** Version "a" with status 1, and status -1 in ten bytes. */
  lemma VersionVector()
    ensures Install.MarshalVersion(Message(Install.VersionStatus([97], 1), [])) == [0x0A, 1, 97, 0x10, 1]
    ensures Install.MarshalVersion(Message(Install.VersionStatus([], -1), []))
            == [0x10, 0xFF, 0xFF, 0xFF, 0xFF, 0xFF, 0xFF, 0xFF, 0xFF, 0xFF, 1]
  {
    SmallEncodings();
    assert Repeated(1, [[97]]) == DelimitedField(1, [97]);
    AllOnes();
  }

  /** What is empty or zero is not written, and unknown fields come last. */
  lemma EmptyVectors(unknown: seq<Byte>)
    ensures Install.MarshalVersion(Message(Install.VersionStatus([97], 0), unknown)) == [0x0A, 1, 97] + unknown
    ensures Install.MarshalVersion(Message(Install.VersionStatus([], 0), unknown)) == unknown
    ensures Install.MarshalInstall(Message(Install.InstallStatus(None, None, None, None, [], []), unknown)) == unknown
    ensures Overlay.MarshalPath(Message(Overlay.PathValue([97]), unknown)) == [0x0A, 1, 97] + unknown
    ensures Overlay.MarshalOverlay(Message(Overlay.Overlay([], [], [], []), unknown)) == unknown
    ensures Resources.MarshalResources(Message(Resources.Resources(map[], map[]), unknown), [], []) == unknown
  {
    SmallFields();
    assert Repeated(1, [[97]]) == [0x0A, 1, 97];
  }

  lemma AllOnes()
    ensures Encode(0xffff_ffff_ffff_ffff) == [0xFF, 0xFF, 0xFF, 0xFF, 0xFF, 0xFF, 0xFF, 0xFF, 0xFF, 1]
  {
    hide Encode;
    SmallEncodings();
    OneByteMore(0xff, [1]);
    OneByteMore(0x7fff, [0xFF, 1]);
    OneByteMore(0x3f_ffff, [0xFF, 0xFF, 1]);
    OneByteMore(0x1fff_ffff, [0xFF, 0xFF, 0xFF, 1]);
    OneByteMore(0xf_ffff_ffff, [0xFF, 0xFF, 0xFF, 0xFF, 1]);
    OneByteMore(0x7ff_ffff_ffff, [0xFF, 0xFF, 0xFF, 0xFF, 0xFF, 1]);
    OneByteMore(0x3_ffff_ffff_ffff, [0xFF, 0xFF, 0xFF, 0xFF, 0xFF, 0xFF, 1]);
    OneByteMore(0x1ff_ffff_ffff_ffff, [0xFF, 0xFF, 0xFF, 0xFF, 0xFF, 0xFF, 0xFF, 1]);
    OneByteMore(0xffff_ffff_ffff_ffff, [0xFF, 0xFF, 0xFF, 0xFF, 0xFF, 0xFF, 0xFF, 0xFF, 1]);
  }

  lemma OneByteMore(v: nat, s: seq<Byte>)
    requires v % 128 == 127 && v >= 128 && Encode(v / 128) == s
    ensures Encode(v) == [0xFF] + s
  {
  }

  lemma SmallFields()
    ensures DelimitedField(1, [97]) == [0x0A, 1, 97] && EnumField(2, 1) == [0x10, 1]
    ensures DelimitedField(2, [98]) == [0x12, 1, 98] && DelimitedField(3, [99]) == [0x1A, 1, 99]
  {
    SmallEncodings();
  }

  /** Field 1 of the install status twice, with the version "a" and with status 1: both are in the one submessage. */
  lemma InstallVector()
    ensures Install.UnmarshalInstall([0x0A, 3, 0x0A, 1, 97, 0x0A, 2, 0x10, 1], Install.NO_INSTALL)
            == Ok(Message(Install.InstallStatus(Some(AOne()), None, None, None, [], []), []))
  {
    hide Decode, Encode;
    var first: Install.VersionMessage := Message(Install.VersionStatus([97], 0), []);
    var a, b, none := DelimitedField(1, [97]), EnumField(2, 1), Install.NO_VERSION;
    var m := Message(Install.NO_INSTALL.known.(trafficManagement := Some(first)), []);
    SmallFields();
    TwoBytes();
    EmptyDecodes(none);
    VersionLastWins([], [97], 1, none);
    EmptyDecodes(first);
    VersionLastWins([], [], 1, first);
    assert [] + a == a && [] + b == b;
    SubmessageField(a, Install.NO_INSTALL);
    SubmessageField(b, m);
    SubmessageBehind(1, DelimitedField(1, a), b, Install.NO_INSTALL);
    assert DelimitedField(1, a) + DelimitedField(1, b) == [0x0A, 3, 0x0A, 1, 97, 0x0A, 2, 0x10, 1];
    assert Install.UnmarshalInstall(DelimitedField(1, a), Install.NO_INSTALL) == Ok(m);
    assert Install.UnmarshalInstall(DelimitedField(1, b), m)
           == Ok(Message(m.known.(trafficManagement := Some(AOne())), []));
  }

  function AOne(): Install.VersionMessage {
    Message(Install.VersionStatus([97], 1), [])
  }

  lemma TwoBytes()
    ensures Encode(2) == [2] && Encode(0) == [0]
    ensures DelimitedField(1, [0x0A, 1, 97]) == [0x0A, 3, 0x0A, 1, 97]
    ensures DelimitedField(1, [0x10, 1]) == [0x0A, 2, 0x10, 1]
  {
    SmallEncodings();
  }

  lemma EmptyDecodes(m: Install.VersionMessage)
    ensures Install.UnmarshalVersion([], m) == Ok(m)
  {
  }

  /** The submessages come in the order of their numbers. */
  lemma InstallBytes()
    ensures var v := AOne();
            Install.MarshalInstall(Message(Install.InstallStatus(Some(v), Some(v), Some(v), Some(v), [v], [v]), []))
            == [0x0A, 5, 0x0A, 1, 97, 0x10, 1] + [0x12, 5, 0x0A, 1, 97, 0x10, 1] + [0x1A, 5, 0x0A, 1, 97, 0x10, 1]
               + [0x22, 5, 0x0A, 1, 97, 0x10, 1] + [0x2A, 5, 0x0A, 1, 97, 0x10, 1] + [0x32, 5, 0x0A, 1, 97, 0x10, 1]
  {
    hide Encode, Install.MarshalVersion;
    VersionVector();
    forall field: Int32 | 1 <= field <= 6
      ensures Repeated(field, [[0x0A, 1, 97, 0x10, 1]]) == [8 * field + 2, 5, 0x0A, 1, 97, 0x10, 1]
    {
      FivePayload(field);
    }
    assert Install.Payloads([AOne()]) == [Install.MarshalVersion(AOne())];
  }

  lemma FivePayload(field: Int32)
    requires 1 <= field <= 6
    ensures Repeated(field, [[0x0A, 1, 97, 0x10, 1]]) == [8 * field + 2, 5, 0x0A, 1, 97, 0x10, 1]
  {
    var payload: seq<Byte> := [0x0A, 1, 97, 0x10, 1];
    SmallEncodings();
    assert Repeated(field, [payload]) == DelimitedField(field, payload) + Repeated(field, []);
  }

  /** API version "a", kind "b", name "c", and a patch with the path "a". */
  lemma OverlayBytes()
    ensures var p := Message(Overlay.PathValue([97]), []);
            Overlay.MarshalOverlay(Message(Overlay.Overlay([97], [98], [99], [p]), []))
            == [0x0A, 1, 97, 0x12, 1, 98, 0x1A, 1, 99, 0x22, 3, 0x0A, 1, 97]
  {
    hide Encode;
    var p: Overlay.PathMessage := Message(Overlay.PathValue([97]), []);
    SmallFields();
    SmallEncodings();
    assert Repeated(1, [[97]]) == [0x0A, 1, 97] && Repeated(2, [[98]]) == [0x12, 1, 98];
    assert Repeated(3, [[99]]) == [0x1A, 1, 99];
    assert Overlay.Payloads([p]) == [[0x0A, 1, 97]];
    assert Repeated(4, [[0x0A, 1, 97]]) == [0x22, 3, 0x0A, 1, 97];
  }

  /** One limit: the key "a" with the value "b". */
  lemma ResourcesBytes()
    ensures var m := Message(Resources.Resources(map[[97] := [98]], map[]), []);
            && Resources.Visits([[97]], m.known.limits) && Resources.Visits([], m.known.requests)
            && Resources.MarshalResources(m, [[97]], []) == [0x0A, 6, 0x0A, 1, 97, 0x12, 1, 98]
  {
    hide Encode;
    SmallFields();
    SixBytes();
    var m := Message(Resources.Resources(map[[97] := [98]], map[]), []);
    var order: seq<seq<Byte>> := [[97]];
    assert order[0] == [97] && order[1..] == [] && Resources.EntryBytes([97], [98]) == [0x0A, 1, 97, 0x12, 1, 98];
    assert Resources.Entries([[97]], m.known.limits) == [[0x0A, 1, 97, 0x12, 1, 98]];
    assert Repeated(1, [[0x0A, 1, 97, 0x12, 1, 98]]) == [0x0A, 6, 0x0A, 1, 97, 0x12, 1, 98];
  }

  lemma SixBytes()
    ensures Encode(6) == [6]
  {
  }
}
