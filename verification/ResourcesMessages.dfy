/**
 What `Resources`, a message with two string maps, means on the wire (Protocol Buffers Encoding, "Maps"): a map is
 written in the order of a Go `range`, so marshalling takes that order as an argument.
 */
module ResourcesMessages {
  import opened Bits
  import opened Varints
  import opened Skipping
  import opened Wire
  import opened WireLaws

  type Text = seq<Byte>

  datatype Resources = Resources(limits: map<Text, Text>, requests: map<Text, Text>)

  type ResourcesMessage = Message<Resources>

  const NO_RESOURCES: ResourcesMessage := Message(Resources(map[], map[]), [])

  const RESOURCES_FIELDS: Schema := map[1 := MapEntry, 2 := MapEntry]

  // ---- Reading

  /**
   The entry in the first `length` bytes of `s`, from index `i` on. Strings and varints are bounded by the end of `s`,
   only skipped fields by the end of the entry. An unknown field whose end wraps around gives a negative index.
   */
  function ScanEntry(s: seq<Byte>, length: nat, base: nat, i: nat, key: Text, value: Text): Result<(Text, Text)>
    requires i <= |s| && length <= |s| && base + |s| <= MAX_INT64
    decreases |s| - i
  {
    if i >= length then Ok((key, value))
    else
      match Decoded(s[i..], 64)
      case Bad(e) => Err(e)
      case Value(tag, n) =>
        var field := ToInt32(tag / 8);
        if field == 1 || field == 2 then
          match Announced(s, i + n, base)
          case NoSpan(e) => Err(e)
          case Span(start, end) =>
            if field == 1 then ScanEntry(s, length, base, end, s[start..end], value)
            else ScanEntry(s, length, base, end, key, s[start..end])
        else
          match Skip(s[i..])
          case SkipError(e) => Err(e)
          case Skipped(m) =>
            if m < 0 then Err(InvalidLength)
            else if WrapAdd(base + i, m) > base + length then Err(UnexpectedEOF)
            else if WrapAdd(base + i, m) < 0 then Err(IndexOutOfRange)
            else ScanEntry(s, length, base, i + m, key, value)
  }

  /** (No slice is shorter than its parts or longer than the largest `int`.) */
  function ApplyResources(k: Resources, token: Token): Result<Resources> {
    match token
    case Entry(field, rest, length, base) =>
      if length > |rest| || base + |rest| > MAX_INT64 then Err(InvalidLength)
      else
        (match ScanEntry(rest, length, base, 0, [], [])
         case Err(e) => Err(e)
         case Ok((key, value)) =>
           match field
           case 1 => Ok(k.(limits := k.limits[key := value]))
           case 2 => Ok(k.(requests := k.requests[key := value]))
           case _ => Ok(k))
    case _ => Ok(k)
  }

  function ResourcesCut(): Cut<Resources> {
    Cut((k: Resources, _: seq<Byte>) => k, (k: Resources, _: Token) => k)
  }

  /** What unmarshalling `s` leaves of `m`. */
  function LeftResources(s: seq<Byte>, m: ResourcesMessage): ResourcesMessage
    requires |s| <= MAX_INT64
  {
    Left(RESOURCES_FIELDS, ApplyResources, ResourcesCut(), s, 0, m)
  }

  function UnmarshalResources(s: seq<Byte>, m: ResourcesMessage): Result<ResourcesMessage>
    requires |s| <= MAX_INT64
  {
    Decode(RESOURCES_FIELDS, ApplyResources, s, 0, m)
  }

  // ---- Writing

  function EntryBytes(key: Text, value: Text): seq<Byte> {
    DelimitedField(1, key) + DelimitedField(2, value)
  }

  /** An order in which `range` may visit `m`. */
  ghost predicate Visits(order: seq<Text>, m: map<Text, Text>) {
    && AllIn(order, m)
    && (forall key | key in m :: key in order)
    && (forall i, j | 0 <= i < j < |order| :: order[i] != order[j])
  }

  predicate AllIn(order: seq<Text>, m: map<Text, Text>) {
    forall i | 0 <= i < |order| :: order[i] in m
  }

  function Entries(order: seq<Text>, m: map<Text, Text>): seq<seq<Byte>>
    requires AllIn(order, m)
  {
    if order == [] then [] else [EntryBytes(order[0], m[order[0]])] + Entries(order[1..], m)
  }

  function MarshalResources(m: ResourcesMessage, limits: seq<Text>, requests: seq<Text>): seq<Byte>
    requires Visits(limits, m.known.limits) && Visits(requests, m.known.requests)
  {
    Repeated(1, Entries(limits, m.known.limits)) + Repeated(2, Entries(requests, m.known.requests)) + m.unknown
  }

  // ---- Laws

  /** An entry as written is read back, whatever follows it. */
  lemma ScanWrittenEntry(key: Text, value: Text, rest: seq<Byte>, base: nat)
    requires base + |EntryBytes(key, value) + rest| <= MAX_INT64
    ensures ScanEntry(EntryBytes(key, value) + rest, |EntryBytes(key, value)|, base, 0, [], []) == Ok((key, value))
  {
    hide Encode, ScanEntry;
    var s := EntryBytes(key, value) + rest;
    var length := |EntryBytes(key, value)|;
    var second := DelimitedField(2, value) + rest;
    assert s == [] + ([10] + (Encode(|key|) + key + second));
    ScanWrittenString(s, length, base, [], 1, key, second, [], []);
    assert s == DelimitedField(1, key) + ([18] + (Encode(|value|) + value + rest));
    ScanWrittenString(s, length, base, DelimitedField(1, key), 2, value, rest, key, []);
    ScanFinished(s, length, base, key, value);
  }

  lemma ScanFinished(s: seq<Byte>, length: nat, base: nat, key: Text, value: Text)
    requires length <= |s| && base + |s| <= MAX_INT64
    ensures ScanEntry(s, length, base, length, key, value) == Ok((key, value))
  {
  }

  lemma ScanWrittenString(s: seq<Byte>, length: nat, base: nat, before: seq<Byte>, field: Int32, text: Text,
                          rest: seq<Byte>, key: Text, value: Text)
    requires 1 <= field <= 2 && s == before + ([8 * field + 2] + (Encode(|text|) + text + rest))
    requires |before| < length <= |s| && base + |s| <= MAX_INT64
    ensures var end := |before| + |DelimitedField(field, text)|;
            ScanEntry(s, length, base, |before|, key, value)
            == if field == 1 then ScanEntry(s, length, base, end, text, value)
               else ScanEntry(s, length, base, end, key, text)
  {
    hide ScanVarint, Encode, ScanEntry, Announced, Decoded, ToInt32, Truncate;
    var body := Encode(|text|) + text + rest;
    TagBetween(before, 8 * field + 2, body);
    TagRoundTrip(8 * field + 2, body);
    SmallField(field);
    var prefix := before + [8 * field + 2];
    AnnouncedEncoded(prefix, text, rest, base);
    assert Announced(s, |before| + 1, base).Span?;
    assert Decoded(s[|before|..], 64) == Value(8 * field + 2, 1);
    assert (8 * field + 2) / 8 == field;
    ScanString(s, length, base, |before|, field, key, value);
  }

  lemma TagBetween(before: seq<Byte>, tag: Byte, body: seq<Byte>)
    ensures var s := before + ([tag] + body); s[|before|..] == [tag] + body && s == (before + [tag]) + body
  {
  }

  lemma ScanString(s: seq<Byte>, length: nat, base: nat, i: nat, field: Int32, key: Text, value: Text)
    requires 1 <= field <= 2 && ToInt32((8 * field + 2) / 8) == field
    requires i < length <= |s| && base + |s| <= MAX_INT64 && Decoded(s[i..], 64) == Value(8 * field + 2, 1)
    requires Announced(s, i + 1, base).Span?
    ensures var span := Announced(s, i + 1, base);
            var text := s[span.start..span.end];
            ScanEntry(s, length, base, i, key, value)
            == if field == 1 then ScanEntry(s, length, base, span.end, text, value)
               else ScanEntry(s, length, base, span.end, key, text)
  {
    hide Decoded, Announced;
  }

  lemma EntryApplies(k: Resources, field: Int32, key: Text, value: Text, rest: seq<Byte>, base: nat)
    requires base + |EntryBytes(key, value) + rest| <= MAX_INT64 && 1 <= field <= 2
    ensures ApplyResources(k, Entry(field, EntryBytes(key, value) + rest, |EntryBytes(key, value)|, base))
            == Ok(WithEntry(k, field, key, value))
  {
    hide ScanEntry, EntryBytes;
    ScanWrittenEntry(key, value, rest, base);
  }

  function WithEntry(k: Resources, field: Int32, key: Text, value: Text): Resources {
    if field == 1 then k.(limits := k.limits[key := value]) else k.(requests := k.requests[key := value])
  }

  /** Decoding one written entry puts its key and value into the map. */
  lemma DecodeEntry(field: Int32, key: Text, value: Text, rest: seq<Byte>, base: nat, m: ResourcesMessage)
    requires 1 <= field <= 2 && base + |DelimitedField(field, EntryBytes(key, value))| + |rest| <= MAX_INT64
    ensures var entry := DelimitedField(field, EntryBytes(key, value));
            Decode(RESOURCES_FIELDS, ApplyResources, entry + rest, base, m)
            == Decode(RESOURCES_FIELDS, ApplyResources, rest, base + |entry|,
                      Message(WithEntry(m.known, field, key, value), m.unknown))
  {
    hide Frame, Announced, Encode, ApplyResources, WithEntry, EntryBytes;
    var bytes := EntryBytes(key, value);
    var entry := DelimitedField(field, bytes);
    var body := Encode(|bytes|) + bytes + rest;
    assert entry + rest == [8 * field + 2] + body;
    FrameTagged(RESOURCES_FIELDS, field, 2, body, base);
    AnnouncedEncoded([8 * field + 2], bytes, rest, base);
    EntryApplies(m.known, field, key, value, rest, base + 1 + |Encode(|bytes|)|);
    assert (entry + rest)[|entry|..] == rest;
  }

  /** Whatever the order, reading the entries of `full` written for the keys in `order` adds exactly those. */
  lemma {:induction false} DecodeEntries(field: Int32, order: seq<Text>, full: map<Text, Text>, rest: seq<Byte>,
                                         base: nat, m: ResourcesMessage)
    requires 1 <= field <= 2 && AllIn(order, full)
    requires base + |Repeated(field, Entries(order, full))| + |rest| <= MAX_INT64
    ensures Decode(RESOURCES_FIELDS, ApplyResources, Repeated(field, Entries(order, full)) + rest, base, m)
            == Decode(RESOURCES_FIELDS, ApplyResources, rest, base + |Repeated(field, Entries(order, full))|,
                      Message(WithEntries(m.known, field, order, full), m.unknown))
    decreases |order|
  {
    hide Decode, WithEntry, EntryBytes, DelimitedField;
    if order == [] {
      assert Repeated(field, Entries(order, full)) + rest == rest;
    } else {
      var entry := DelimitedField(field, EntryBytes(order[0], full[order[0]]));
      var others := Repeated(field, Entries(order[1..], full));
      assert Entries(order, full)[1..] == Entries(order[1..], full);
      assert Repeated(field, Entries(order, full)) + rest == entry + (others + rest);
      DecodeEntry(field, order[0], full[order[0]], others + rest, base, m);
      var k := WithEntry(m.known, field, order[0], full[order[0]]);
      DecodeEntries(field, order[1..], full, rest, base + |entry|, Message(k, m.unknown));
    }
  }

  function WithEntries(k: Resources, field: Int32, order: seq<Text>, full: map<Text, Text>): Resources
    requires AllIn(order, full)
    decreases |order|
  {
    if order == [] then k else WithEntries(WithEntry(k, field, order[0], full[order[0]]), field, order[1..], full)
  }

  lemma {:induction false} WithEntriesIsUnion(k: Resources, field: Int32, order: seq<Text>, full: map<Text, Text>)
    requires 1 <= field <= 2 && AllIn(order, full)
    ensures var added := map key | key in full && key in order :: full[key];
            WithEntries(k, field, order, full)
            == if field == 1 then k.(limits := k.limits + added) else k.(requests := k.requests + added)
    decreases |order|
  {
    var added := map key | key in full && key in order :: full[key];
    if order == [] {
      assert k.limits + added == k.limits && k.requests + added == k.requests;
    } else {
      var later := map key | key in full && key in order[1..] :: full[key];
      var head := order[0];
      WithEntriesIsUnion(WithEntry(k, field, head, full[head]), field, order[1..], full);
      UnionInTwo(k.limits, order, full);
      UnionInTwo(k.requests, order, full);
    }
  }

  lemma UnionInTwo(m: map<Text, Text>, order: seq<Text>, full: map<Text, Text>)
    requires order != [] && order[0] in full
    ensures m[order[0] := full[order[0]]] + (map key | key in full && key in order[1..] :: full[key])
            == m + (map key | key in full && key in order :: full[key])
  {
    assert order == [order[0]] + order[1..];
  }

  /** Whatever order `range` visits the maps in, what was marshalled unmarshals to itself. */
  lemma ResourcesRoundTrip(m: ResourcesMessage, limits: seq<Text>, requests: seq<Text>)
    requires Visits(limits, m.known.limits) && Visits(requests, m.known.requests)
    requires Unrecognized(RESOURCES_FIELDS, m.unknown) && |MarshalResources(m, limits, requests)| <= MAX_INT64
    ensures UnmarshalResources(MarshalResources(m, limits, requests), NO_RESOURCES) == Ok(m)
  {
    hide Decode, Unrecognized, Repeated, Entries, WithEntries;
    var first, second := Repeated(1, Entries(limits, m.known.limits)), Repeated(2, Entries(requests, m.known.requests));
    assert MarshalResources(m, limits, requests) == first + (second + m.unknown);
    DecodeEntries(1, limits, m.known.limits, second + m.unknown, 0, NO_RESOURCES);
    WithEntriesIsUnion(NO_RESOURCES.known, 1, limits, m.known.limits);
    VisitsAll(limits, m.known.limits);
    var half := Resources(m.known.limits, map[]);
    DecodeEntries(2, requests, m.known.requests, m.unknown, |first|, Message(half, []));
    WithEntriesIsUnion(half, 2, requests, m.known.requests);
    VisitsAll(requests, m.known.requests);
    DecodeUnrecognized(RESOURCES_FIELDS, ApplyResources, m.unknown, |first| + |second|, Message(m.known, []));
    assert [] + m.unknown == m.unknown;
  }

  lemma VisitsAll(order: seq<Text>, m: map<Text, Text>)
    requires Visits(order, m)
    ensures map[] + (map key | key in m && key in order :: m[key]) == m
  {
  }

  // ---- The size does not depend on the order

  ghost function EntriesTotal(field: Int32, m: map<Text, Text>): nat
    requires 1 <= field <= 2
    decreases |m|
  {
    if m == map[] then 0
    else
      var key :| key in m;
      EntrySize(field, key, m[key]) + EntriesTotal(field, m - {key})
  }

  function EntrySize(field: Int32, key: Text, value: Text): nat
    requires 1 <= field <= 2
  {
    |DelimitedField(field, EntryBytes(key, value))|
  }

  lemma {:induction false} EntriesTotalWithout(field: Int32, m: map<Text, Text>, key: Text)
    requires 1 <= field <= 2 && key in m
    ensures EntriesTotal(field, m) == EntrySize(field, key, m[key]) + EntriesTotal(field, m - {key})
    decreases |m|
  {
    hide EntrySize;
    var first :|
      first in m && EntriesTotal(field, m) == EntrySize(field, first, m[first]) + EntriesTotal(field, m - {first});
    if first != key {
      EntriesTotalWithout(field, m - {first}, key);
      EntriesTotalWithout(field, m - {key}, first);
      assert m - {first} - {key} == m - {key} - {first};
    }
  }

  lemma {:induction false} SizeInAnyOrder(field: Int32, order: seq<Text>, m: map<Text, Text>)
    requires 1 <= field <= 2 && Visits(order, m)
    ensures |Repeated(field, Entries(order, m))| == EntriesTotal(field, m)
    decreases |order|
  {
    hide EntryBytes;
    if order == [] {
      assert m == map[];
    } else {
      var key, rest := order[0], m - {order[0]};
      EntriesTotalWithout(field, m, key);
      SizeInAnyOrder(field, order[1..], rest);
      EntriesOfLess(order[1..], m, key);
      assert Entries(order, m)[1..] == Entries(order[1..], m);
    }
  }

  lemma {:induction false} EntriesOfLess(order: seq<Text>, m: map<Text, Text>, key: Text)
    requires AllIn(order, m) && forall i | 0 <= i < |order| :: order[i] != key
    ensures Entries(order, m - {key}) == Entries(order, m)
    decreases |order|
  {
    if order != [] {
      EntriesOfLess(order[1..], m, key);
    }
  }

  lemma {:induction false} EntriesAppend(order: seq<Text>, m: map<Text, Text>, key: Text)
    requires AllIn(order, m) && key in m
    ensures Entries(order + [key], m) == Entries(order, m) + [EntryBytes(key, m[key])]
    decreases |order|
  {
    if order != [] {
      assert (order + [key])[1..] == order[1..] + [key];
      EntriesAppend(order[1..], m, key);
    }
  }
}
