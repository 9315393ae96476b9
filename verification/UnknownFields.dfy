/**
 Fields as the standard writes them (Protocol Buffers Encoding, "Message Structure" and "Groups"), and that skipping one
 skips exactly its bytes.
 */
module UnknownFields {
  import opened Options
  import opened Bits
  import opened Varints
  import opened Skipping
  import opened Groups
  import opened Wire
  import opened WireLaws

  datatype WireField =
    | VarintField(number: nat, value: UInt64)
    | Fixed64(number: nat, bytes: seq<Byte>)
    | LengthField(number: nat, bytes: seq<Byte>)
    | Group(number: nat, fields: seq<WireField>)
    | Fixed32(number: nat, bytes: seq<Byte>)

  const MAX_FIELD := 0x1fff_ffff

  predicate Valid(f: WireField) {
    1 <= f.number <= MAX_FIELD &&
    match f
    case Fixed64(_, bytes) => |bytes| == 8
    case Fixed32(_, bytes) => |bytes| == 4
    case Group(_, fields) => forall i | 0 <= i < |fields| :: Valid(fields[i])
    case _ => true
  }

  function Written(f: WireField): (s: seq<Byte>)
    ensures s != []
    decreases f
  {
    match f
    case VarintField(number, value) => Encode(8 * number) + Encode(value)
    case Fixed64(number, bytes) => Encode(8 * number + 1) + bytes
    case LengthField(number, bytes) => Encode(8 * number + 2) + Encode(|bytes|) + bytes
    case Group(number, fields) => Encode(8 * number + 3) + WrittenAll(fields) + Encode(8 * number + 4)
    case Fixed32(number, bytes) => Encode(8 * number + 5) + bytes
  }

  function WrittenAll(fields: seq<WireField>): seq<Byte>
    decreases fields
  {
    if fields == [] then [] else Written(fields[0]) + WrittenAll(fields[1..])
  }

  /** A tag is read back, whatever follows. */
  lemma TagOf(number: nat, wireType: nat, rest: seq<Byte>)
    requires number <= MAX_FIELD && wireType < 8
    ensures var tag := 8 * number + wireType;
            var s := Encode(tag) + rest;
            && Decoded(s, 64) == Value(tag, |Encode(tag)|) && tag % 8 == wireType && tag / 8 == number
            && s[|Encode(tag)|..] == rest
  {
    hide Encode, Decoded;
    VarintRoundTrip(8 * number + wireType, rest);
    TagParts(number, wireType);
  }

  lemma TagParts(number: nat, wireType: nat)
    requires wireType < 8
    ensures (8 * number + wireType) % 8 == wireType && (8 * number + wireType) / 8 == number
  {
  }

  /** Skipping takes exactly the bytes of a written field, groups in groups included, and so does the standard. */
  lemma {:induction false} WrittenIsSkipped(f: WireField, rest: seq<Byte>)
    requires Valid(f) && |Written(f)| + |rest| <= MAX_INT64
    ensures Skip(Written(f) + rest) == Skipped(|Written(f)|)
    ensures StandardSkip(Written(f) + rest) == Some(|Written(f)|)
    decreases f, 2
  {
    hide Written, Skip, StandardSkip;
    match f
    case VarintField(number, value) => WrittenVarint(number, value, rest);
    case Fixed64(number, bytes) => WrittenFixed(f, rest);
    case LengthField(number, bytes) => WrittenBytes(number, bytes, rest);
    case Group(number, fields) => WrittenGroup(number, fields, rest);
    case Fixed32(number, bytes) => WrittenFixed(f, rest);
  }

  lemma WrittenVarint(number: nat, value: UInt64, rest: seq<Byte>)
    requires var f := VarintField(number, value); Valid(f) && |Written(f)| + |rest| <= MAX_INT64
    ensures var f := VarintField(number, value);
            Skip(Written(f) + rest) == Skipped(|Written(f)|) && StandardSkip(Written(f) + rest) == Some(|Written(f)|)
  {
    hide Decoded, Encode, Skip, StandardSkip;
    var s := Written(VarintField(number, value)) + rest;
    assert s == Encode(8 * number) + (Encode(value) + rest);
    TagOf(number, 0, Encode(value) + rest);
    VarintIsSkipped(s, |Encode(8 * number)|, value, rest);
  }

  lemma WrittenFixed(f: WireField, rest: seq<Byte>)
    requires (f.Fixed64? || f.Fixed32?) && Valid(f) && |Written(f)| + |rest| <= MAX_INT64
    ensures Skip(Written(f) + rest) == Skipped(|Written(f)|) && StandardSkip(Written(f) + rest) == Some(|Written(f)|)
  {
    hide Decoded, Encode, Skip, StandardSkip;
    var s := Written(f) + rest;
    var w := if f.Fixed64? then 1 else 5;
    assert s == Encode(8 * f.number + w) + (f.bytes + rest);
    TagOf(f.number, w, f.bytes + rest);
    FixedIsSkipped(s, |Encode(8 * f.number + w)|);
  }

  lemma WrittenBytes(number: nat, bytes: seq<Byte>, rest: seq<Byte>)
    requires var f := LengthField(number, bytes); Valid(f) && |Written(f)| + |rest| <= MAX_INT64
    ensures var f := LengthField(number, bytes);
            Skip(Written(f) + rest) == Skipped(|Written(f)|) && StandardSkip(Written(f) + rest) == Some(|Written(f)|)
  {
    hide Decoded, Encode, Skip, StandardSkip;
    var s := Written(LengthField(number, bytes)) + rest;
    Regrouped(Encode(8 * number + 2), Encode(|bytes|), bytes, rest);
    BytesBehindTag(s, number, bytes, rest);
  }

  lemma BytesBehindTag(s: seq<Byte>, number: nat, bytes: seq<Byte>, rest: seq<Byte>)
    requires number <= MAX_FIELD && 0 < |s| <= MAX_INT64
    requires s == Encode(8 * number + 2) + (Encode(|bytes|) + (bytes + rest))
    ensures var n := |Encode(8 * number + 2)| + |Encode(|bytes|)| + |bytes|;
            Skip(s) == Skipped(n) && StandardSkip(s) == Some(n)
  {
    hide Decoded, Encode, Skip, StandardSkip;
    var tag, length := Encode(8 * number + 2), Encode(|bytes|);
    TagOf(number, 2, length + (bytes + rest));
    VarintRoundTrip(|bytes|, bytes + rest);
    BytesAreSkipped(s, |tag|, |length|, |bytes|);
  }

  lemma Regrouped(a: seq<Byte>, b: seq<Byte>, c: seq<Byte>, d: seq<Byte>)
    ensures a + b + c + d == a + (b + (c + d))
  {
  }

  lemma WrittenGroup(number: nat, fields: seq<WireField>, rest: seq<Byte>)
    requires var f := Group(number, fields); Valid(f) && |Written(f)| + |rest| <= MAX_INT64
    ensures var f := Group(number, fields);
            Skip(Written(f) + rest) == Skipped(|Written(f)|) && StandardSkip(Written(f) + rest) == Some(|Written(f)|)
    decreases fields, 1
  {
    hide Decoded, Encode, Skip, SkipGroup, StandardSkip, StandardGroup;
    var s := Written(Group(number, fields)) + rest;
    var inside := WrittenAll(fields) + Encode(8 * number + 4) + rest;
    assert s == Encode(8 * number + 3) + inside;
    TagOf(number, 3, inside);
    GroupIsSkipped(Encode(8 * number + 3), number, fields, rest);
    WholeGroup(s, |Encode(8 * number + 3)|, number);
  }

  lemma VarintIsSkipped(s: seq<Byte>, i: nat, value: UInt64, rest: seq<Byte>)
    requires 0 < |s| <= MAX_INT64 && i <= |s| && Decoded(s, 64).Value? && Decoded(s, 64).next == i
    requires Decoded(s, 64).value % 8 == 0 && s[i..] == Encode(value) + rest
    ensures Skip(s) == Skipped(i + |Encode(value)|) && StandardSkip(s) == Some(i + |Encode(value)|)
  {
    hide Decoded, Encode, ScanVarint;
    ScanOfEncoded(value, rest);
  }

  lemma FixedIsSkipped(s: seq<Byte>, i: nat)
    requires 0 < |s| <= MAX_INT64 && Decoded(s, 64).Value? && Decoded(s, 64).next == i
    requires Decoded(s, 64).value % 8 == 1 || Decoded(s, 64).value % 8 == 5
    requires i + (if Decoded(s, 64).value % 8 == 1 then 8 else 4) <= |s|
    ensures var n := i + if Decoded(s, 64).value % 8 == 1 then 8 else 4;
            Skip(s) == Skipped(n) && StandardSkip(s) == Some(n)
  {
    hide Decoded;
  }

  lemma BytesAreSkipped(s: seq<Byte>, i: nat, n: nat, length: nat)
    requires 0 < |s| <= MAX_INT64 && Decoded(s, 64).Value? && Decoded(s, 64).next == i <= |s|
    requires Decoded(s, 64).value % 8 == 2 && Decoded(s[i..], 64) == Value(length, n) && i + n + length <= |s|
    ensures Skip(s) == Skipped(i + n + length) && StandardSkip(s) == Some(i + n + length)
  {
    hide Decoded;
    PowersOfTwo();
  }

  lemma WholeGroup(s: seq<Byte>, i: nat, number: nat)
    requires 0 < |s| <= MAX_INT64 && Decoded(s, 64) == Value(8 * number + 3, i)
    ensures Skip(s) == SkipGroup(s, i) && StandardSkip(s) == StandardGroup(s, i, number)
  {
    hide Decoded, SkipGroup, StandardGroup;
    assert (8 * number + 3) / 8 == number && (8 * number + 3) % 8 == 3;
  }

  lemma ScanOfEncoded(value: UInt64, rest: seq<Byte>)
    ensures ScanVarint(Encode(value) + rest) == Scanned(value, |Encode(value)|)
  {
    VarintRoundTrip(value, rest);
    ScanEncoded(value, rest, 0);
  }

  lemma {:induction false} GroupIsSkipped(before: seq<Byte>, number: nat, fields: seq<WireField>, rest: seq<Byte>)
    requires 1 <= |before| && number <= MAX_FIELD && forall i | 0 <= i < |fields| :: Valid(fields[i])
    requires |before| + |WrittenAll(fields)| + |Encode(8 * number + 4)| + |rest| <= MAX_INT64
    ensures var s := before + (WrittenAll(fields) + Encode(8 * number + 4) + rest);
            var end := |before| + |WrittenAll(fields)| + |Encode(8 * number + 4)|;
            SkipGroup(s, |before|) == Skipped(end) && StandardGroup(s, |before|, number) == Some(end)
    decreases fields, 0
  {
    hide Decoded, Encode, Skip, StandardSkip, SkipGroup, StandardGroup;
    var last := Encode(8 * number + 4);
    var s := before + (WrittenAll(fields) + last + rest);
    if fields == [] {
      assert s[|before|..] == last + rest;
      TagOf(number, 4, rest);
      GroupEndsHere(s, |before|, number);
    } else {
      var first, others := Written(fields[0]), WrittenAll(fields[1..]) + last + rest;
      assert s[|before|..] == first + others && s == (before + first) + others;
      WrittenIsSkipped(fields[0], others);
      StartsNoEnd(fields[0], others);
      GroupIsSkipped(before + first, number, fields[1..], rest);
      SkipGroupStep(s, |before|, |first|);
      StandardField(s, |before|, number);
    }
  }

  lemma GroupEndsHere(s: seq<Byte>, i: nat, number: nat)
    requires 1 <= i < |s| <= MAX_INT64 && Decoded(s[i..], 64).Value? && Decoded(s[i..], 64).value == 8 * number + 4
    ensures SkipGroup(s, i) == Skipped(i + Decoded(s[i..], 64).next)
    ensures StandardGroup(s, i, number) == Some(i + Decoded(s[i..], 64).next)
  {
    hide Decoded, SkipGroup, StandardGroup;
    assert (8 * number + 4) % 8 == 4 && (8 * number + 4) / 8 == number;
    SkipEndsHere(s, i);
    StandardEndsHere(s, i, number);
  }

  lemma SkipEndsHere(s: seq<Byte>, i: nat)
    requires 1 <= i < |s| <= MAX_INT64 && Decoded(s[i..], 64).Value? && Decoded(s[i..], 64).value % 8 == 4
    ensures SkipGroup(s, i) == Skipped(i + Decoded(s[i..], 64).next)
  {
    hide Decoded;
  }

  lemma StandardEndsHere(s: seq<Byte>, i: nat, number: nat)
    requires 1 <= i < |s| <= MAX_INT64 && Decoded(s[i..], 64).Value?
    requires Decoded(s[i..], 64).value % 8 == 4 && Decoded(s[i..], 64).value / 8 == number
    ensures StandardGroup(s, i, number) == Some(i + Decoded(s[i..], 64).next)
  {
    hide Decoded;
  }

  lemma StartsNoEnd(f: WireField, rest: seq<Byte>)
    requires Valid(f)
    ensures Decoded(Written(f) + rest, 64).Value? && Decoded(Written(f) + rest, 64).value % 8 != 4
  {
    hide Decoded, Encode;
    var s := Written(f) + rest;
    var w := TagWireType(f);
    var tag := Encode(8 * f.number + w);
    assert tag <= s;
    assert s == tag + s[|tag|..];
    TagOf(f.number, w, s[|tag|..]);
  }

  /** An announced length is not bounded by the data, only by the largest `int`. */
  lemma LengthIsSkipped(number: nat, length: UInt64, rest: seq<Byte>)
    requires number <= MAX_FIELD && |Encode(8 * number + 2)| + |Encode(length)| + |rest| <= MAX_INT64
    ensures var n := |Encode(8 * number + 2)| + |Encode(length)|;
            Skip(Encode(8 * number + 2) + (Encode(length) + rest))
            == if length > MAX_INT64 || n + length > MAX_INT64 then SkipError(InvalidLength) else Skipped(n + length)
  {
    hide Decoded, Encode;
    TagOf(number, 2, Encode(length) + rest);
    VarintRoundTrip(length, rest);
    PowersOfTwo();
  }

  /** The two remaining wire types are an error. */
  lemma OtherWireTypes(number: nat, wireType: nat, rest: seq<Byte>)
    requires number <= MAX_FIELD && 6 <= wireType <= 7 && |Encode(8 * number + wireType)| + |rest| <= MAX_INT64
    ensures Skip(Encode(8 * number + wireType) + rest) == SkipError(IllegalWireType(wireType))
  {
    hide Decoded, Encode;
    TagOf(number, wireType, rest);
  }

  /** A written field whose number is not in the table is kept, byte for byte. */
  lemma WrittenIsKept<K>(schema: Schema, apply: Apply<K>, f: WireField, base: nat, m: Message<K>)
    requires Valid(f) && f.number !in schema && base + |Written(f)| <= MAX_INT64
    ensures Decode(schema, apply, Written(f), base, m) == Ok(Message(m.known, m.unknown + Written(f)))
  {
    hide Frame, Skip, Written;
    var s := Written(f);
    FrameOfWritten(schema, f, base);
    FirstField(schema, apply, s, base, m);
    assert s[|s|..] == [];
    DecodeOfNone(schema, apply, base + |s|, Message(m.known, m.unknown + s));
  }

  lemma FrameOfWritten(schema: Schema, f: WireField, base: nat)
    requires Valid(f) && f.number !in schema && base + |Written(f)| <= MAX_INT64
    ensures Frame(schema, Written(f), base) == Field(Unknown(Written(f)), |Written(f)|)
  {
    hide Skip, Written, Decoded, ToInt32;
    var s := Written(f);
    assert s + [] == s && s[..|s|] == s;
    StartsNoEnd(f, []);
    WrittenIsSkipped(f, []);
    TagNumber(f);
  }

  lemma TagNumber(f: WireField)
    requires Valid(f)
    ensures Decoded(Written(f), 64).Value? && ToInt32(Decoded(Written(f), 64).value / 8) == f.number
  {
    hide Decoded, Encode, ToInt32;
    var s := Written(f);
    var w := TagWireType(f);
    var tag := Encode(8 * f.number + w);
    assert tag <= s;
    assert s == tag + s[|tag|..];
    TagOf(f.number, w, s[|tag|..]);
    FieldNumber(f.number);
  }

  lemma FieldNumber(number: nat)
    requires number <= MAX_FIELD
    ensures ToInt32(number) == number
  {
    PowersOfTwo();
    TruncateSmall(number, 32);
  }

  function TagWireType(f: WireField): nat {
    match f
    case VarintField(_, _) => 0
    case Fixed64(_, _) => 1
    case LengthField(_, _) => 2
    case Group(_, _) => 3
    case Fixed32(_, _) => 5
  }
}
