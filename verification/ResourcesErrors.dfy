/**
 When unmarshalling `Resources` panics: an unknown field inside a map entry may announce an end past the largest
 `int`, and the wrapped, negative end passes the one check that is made of it.
 */
module ResourcesErrors {
  import opened Options
  import opened Bits
  import opened Varints
  import opened Skipping
  import opened Wire
  import opened WireErrors
  import opened WireLaws
  import opened ResourcesMessages

  /** The index in the data, and what skipping from there returned. */
  datatype Stop = Stop(index: nat, skipped: Int64)

  /** Where reading an entry stops at an unknown field that it cannot pass. */
  function EntryStop(s: seq<Byte>, length: nat, base: nat, i: nat): Option<Stop>
    requires i <= |s| && length <= |s| && base + |s| <= MAX_INT64
    decreases |s| - i
  {
    if i >= length then None
    else
      match Decoded(s[i..], 64)
      case Bad(_) => None
      case Value(tag, n) =>
        var field := ToInt32(tag / 8);
        if field == 1 || field == 2 then
          match Announced(s, i + n, base)
          case NoSpan(_) => None
          case Span(_, end) => EntryStop(s, length, base, end)
        else
          match Skip(s[i..])
          case SkipError(_) => None
          case Skipped(m) => if 0 <= m <= length - i then EntryStop(s, length, base, i + m) else Some(Stop(base + i, m))
  }

  /** Where reading the message stops at an unknown field of an entry that it cannot pass. */
  function FirstStop(s: seq<Byte>, base: nat): Option<Stop>
    requires base + |s| <= MAX_INT64
    decreases |s|
  {
    if s == [] then None
    else
      match Frame(RESOURCES_FIELDS, s, base)
      case NoField(_) => None
      case Field(token, n) =>
        if token.Entry? && Fits(token) && ScanEntry(token.rest, token.length, token.base, 0, [], []).Err? then
          EntryStop(token.rest, token.length, token.base, 0)
        else FirstStop(s[n..], base + n)
  }

  predicate Fits(token: Token)
    requires token.Entry?
  {
    token.length <= |token.rest| && token.base + |token.rest| <= MAX_INT64
  }

  /** The end of the unknown field is past the largest `int`. */
  predicate Wraps(stop: Option<Stop>) {
    stop.Some? && stop.value.skipped >= 0 && stop.value.index + stop.value.skipped > MAX_INT64
  }

  lemma {:induction false} EntryPanics(s: seq<Byte>, length: nat, base: nat, i: nat, key: Text, value: Text)
    requires i <= |s| && length <= |s| && base + |s| <= MAX_INT64
    ensures ScanEntry(s, length, base, i, key, value) == Err(IndexOutOfRange) <==> Wraps(EntryStop(s, length, base, i))
    decreases |s| - i
  {
    hide ScanEntry, EntryStop, NextIndex;
    if NextIndex(s, length, base, i).Some? {
      var key', value' := EntryGoesOn(s, length, base, i, key, value);
      EntryPanics(s, length, base, NextIndex(s, length, base, i).value, key', value');
    } else {
      EntryStops(s, length, base, i, key, value);
    }
  }

  /** Where the next field of the entry begins, if this one can be read. */
  function NextIndex(s: seq<Byte>, length: nat, base: nat, i: nat): (r: Option<nat>)
    requires i <= |s| && length <= |s| && base + |s| <= MAX_INT64
    ensures r.Some? ==> i < r.value <= |s|
  {
    if i >= length || Decoded(s[i..], 64).Bad? then None
    else
      var tag := Decoded(s[i..], 64);
      if ToInt32(tag.value / 8) == 1 || ToInt32(tag.value / 8) == 2 then
        match Announced(s, i + tag.next, base)
        case NoSpan(_) => None
        case Span(_, end) => Some(end)
      else
        match Skip(s[i..])
        case SkipError(_) => None
        case Skipped(m) => if 0 <= m <= length - i then Some(i + m) else None
  }

  lemma EntryGoesOn(s: seq<Byte>, length: nat, base: nat, i: nat, key: Text, value: Text)
    returns (key': Text, value': Text)
    requires i <= |s| && length <= |s| && base + |s| <= MAX_INT64 && NextIndex(s, length, base, i).Some?
    ensures var next := NextIndex(s, length, base, i).value;
            && ScanEntry(s, length, base, i, key, value) == ScanEntry(s, length, base, next, key', value')
            && EntryStop(s, length, base, i) == EntryStop(s, length, base, next)
  {
    hide ToInt32, Decoded, Skip, Announced;
    var tag := Decoded(s[i..], 64);
    var field := ToInt32(tag.value / 8);
    key', value' := key, value;
    if field == 1 || field == 2 {
      var span := Announced(s, i + tag.next, base);
      if field == 1 {
        key' := s[span.start..span.end];
      } else {
        value' := s[span.start..span.end];
      }
    }
  }

  lemma EntryStops(s: seq<Byte>, length: nat, base: nat, i: nat, key: Text, value: Text)
    requires i <= |s| && length <= |s| && base + |s| <= MAX_INT64 && NextIndex(s, length, base, i).None?
    ensures ScanEntry(s, length, base, i, key, value) == Err(IndexOutOfRange) <==> Wraps(EntryStop(s, length, base, i))
  {
    hide ToInt32, Decoded, Skip, Announced;
    if i < length {
      DecodedDoesNotPanic(s[i..], 64);
      SkipDoesNotPanic(s[i..]);
      if Decoded(s[i..], 64).Value? {
        AnnouncedDoesNotPanic(s, i + Decoded(s[i..], 64).next, base);
      }
    }
  }

  lemma AnnouncedDoesNotPanic(s: seq<Byte>, i: nat, base: nat)
    requires i <= |s| && base + |s| <= MAX_INT64
    ensures Announced(s, i, base) != NoSpan(IndexOutOfRange)
  {
    DecodedDoesNotPanic(s[i..], 64);
  }

  lemma FramedFits(s: seq<Byte>, base: nat)
    requires 0 < |s| && base + |s| <= MAX_INT64
    ensures var f := Frame(RESOURCES_FIELDS, s, base); f.Field? && f.token.Entry? ==> Fits(f.token)
  {
    hide Decoded, Skip, ToInt32;
  }

  lemma {:induction false} DecodePanics(s: seq<Byte>, base: nat, m: ResourcesMessage)
    requires base + |s| <= MAX_INT64
    ensures Decode(RESOURCES_FIELDS, ApplyResources, s, base, m) == Err(IndexOutOfRange) <==> Wraps(FirstStop(s, base))
    decreases |s|
  {
    hide Frame, ScanEntry, EntryStop;
    if s != [] {
      FrameDoesNotPanic(RESOURCES_FIELDS, s, base);
      FramedFits(s, base);
      var f := Frame(RESOURCES_FIELDS, s, base);
      if f.Field? {
        if f.token.Entry? {
          EntryPanics(f.token.rest, f.token.length, f.token.base, 0, [], []);
        }
        var u := Update(ApplyResources, m, f.token);
        if u.Ok? {
          DecodePanics(s[f.n..], base + f.n, u.value);
        }
      }
    }
  }

  /**
   Unmarshalling panics if and only if the first part of the bytes that cannot be read is an unknown field of a map
   entry that ends past the largest `int`.
   */
  lemma ResourcesPanicExactly(s: seq<Byte>, m: ResourcesMessage)
    requires |s| <= MAX_INT64
    ensures UnmarshalResources(s, m) == Err(IndexOutOfRange) <==> Wraps(FirstStop(s, 0))
  {
    DecodePanics(s, 0, m);
  }

  // ---- Twelve bytes that do

  /** An entry of ten bytes, which are an unknown field that announces 2^63 - 11 bytes. */
  const WRAPPING: seq<Byte> := [10, 10] + UNKNOWN

  const UNKNOWN: seq<Byte> := [26] + Encode(MAX_INT64 - 10)

  lemma UnknownIsTenBytes()
    ensures |UNKNOWN| == 10 && Skip(UNKNOWN) == Skipped(MAX_INT64)
  {
    var v := MAX_INT64 - 10;
    NineBytes();
    TagRoundTrip(26, Encode(v));
    VarintRoundTrip(v, []);
    hide Encode, Decoded, Skip;
    assert Encode(v) + [] == Encode(v) && UNKNOWN[1..] == Encode(v);
    SkipAnnounced(UNKNOWN, v);
  }

  /** Nine bytes announce `v` bytes, after a tag of one byte. */
  lemma SkipAnnounced(s: seq<Byte>, v: UInt64)
    requires |s| == 10 && Decoded(s, 64) == Value(26, 1) && Decoded(s[1..], 64) == Value(v, 9) && v <= MAX_INT64 - 10
    ensures Skip(s) == Skipped(v + 10)
  {
    hide Decoded, SkipGroup, SkipVarint;
  }

  lemma NineBytes()
    ensures |Encode(MAX_INT64 - 10)| == 9
  {
    OneByteMore(0x7fff_ffff_ffff_fff5, 0xff_ffff_ffff_ffff);
    OneByteMore(0xff_ffff_ffff_ffff, 0x1_ffff_ffff_ffff);
    OneByteMore(0x1_ffff_ffff_ffff, 0x3ff_ffff_ffff);
    OneByteMore(0x3ff_ffff_ffff, 0x7_ffff_ffff);
    OneByteMore(0x7_ffff_ffff, 0xfff_ffff);
    OneByteMore(0xfff_ffff, 0x1f_ffff);
    OneByteMore(0x1f_ffff, 0x3fff);
    OneByteMore(0x3fff, 127);
    hide Encode;
    assert |Encode(127)| == 1 by {
      OneByte(127);
    }
  }

  lemma OneByte(v: nat)
    requires v < 128
    ensures |Encode(v)| == 1
  {
  }

  lemma OneByteMore(v: nat, w: nat)
    requires v >= 128 && v / 128 == w
    ensures |Encode(v)| == |Encode(w)| + 1
  {
  }

  /** Skipping to the end would be skipping to a negative index. */
  lemma WrappingPanics(m: ResourcesMessage)
    ensures |WRAPPING| == 12 && UnmarshalResources(WRAPPING, m) == Err(IndexOutOfRange)
  {
    UnknownIsTenBytes();
    WrappingFrame(WRAPPING);
    WrappingEntry(UNKNOWN);
    hide Frame, ScanEntry;
  }

  lemma WrappingFrame(s: seq<Byte>)
    requires s == [10, 10] + UNKNOWN && |UNKNOWN| == 10
    ensures Frame(RESOURCES_FIELDS, s, 0) == Field(Entry(1, UNKNOWN, 10, 2), 12)
  {
    hide Decoded, ToInt32, Encode, Skip, FrameUnknown, Weigh, Pow2, Truncate, WrapAdd;
    AnnouncesTen(s, UNKNOWN);
    TagRoundTrip(10, [10] + UNKNOWN);
    SmallField(1);
    assert s == [10] + ([10] + UNKNOWN) && s[2..] == UNKNOWN;
  }

  lemma AnnouncesTen(s: seq<Byte>, rest: seq<Byte>)
    requires s == [10, 10] + rest && |rest| == 10
    ensures s[1..] == [10] + rest && Announced(s, 1, 0) == Span(2, 12)
  {
    hide Decoded, Encode;
    TagRoundTrip(10, rest);
    PowersOfTwo();
    assert s[1..] == [10] + rest;
  }

  lemma WrappingEntry(s: seq<Byte>)
    requires s == UNKNOWN && |s| == 10 && Skip(s) == Skipped(MAX_INT64)
    ensures ScanEntry(s, 10, 2, 0, [], []) == Err(IndexOutOfRange)
  {
    TagRoundTrip(26, Encode(MAX_INT64 - 10));
    SmallField(3);
    hide Decoded, ToInt32, Encode, Skip;
    assert s[0..] == s;
  }
}
