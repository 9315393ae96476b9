/**
 Messages on the wire (Protocol Buffers Encoding, "Message Structure" and "Last One Wins").

 Every generated `Unmarshal` is the same loop: read a tag, frame the field by its number, update the message, and keep
 a field of unknown number as raw bytes. `Decode` is that loop for any table of fields and any update function.
 */
module Wire {
  import opened Bits
  import opened Varints
  import opened Skipping

  datatype Result<+T> = Ok(value: T) | Err(error: Error)

  /** How a field of known number is framed: length-delimited, an int32 enum, or an entry of a map. */
  datatype Kind = Delimited | Enum | MapEntry

  type Schema = map<Int32, Kind>

  /**
   One field of a message. A map entry keeps the whole rest of the data, which starts `base` bytes into it: decoding an
   entry is bounded by the end of the data, not by the end of the entry.
   */
  datatype Token =
    | Bytes(field: Int32, bytes: seq<Byte>)
    | Number(field: Int32, value: Int32)
    | Entry(field: Int32, rest: seq<Byte>, length: nat, base: nat)
    | Unknown(raw: seq<Byte>)

  datatype Framed = Field(token: Token, n: nat) | NoField(error: Error)

  datatype Span = Span(start: nat, end: nat) | NoSpan(error: Error)

  /** A message: what its fields say, and `XXX_unrecognized`. */
  datatype Message<K> = Message(known: K, unknown: seq<Byte>)

  type Apply<!K> = (K, Token) -> Result<K>

  /** The bytes announced by the length at index `i` of `s`, where `s` starts `base` bytes into the data. */
  function Announced(s: seq<Byte>, i: nat, base: nat): (r: Span)
    requires i <= |s| && base + |s| <= MAX_INT64
    ensures r.Span? ==> i < r.start <= r.end <= |s|
  {
    match Decoded(s[i..], 64)
    case Bad(e) => NoSpan(e)
    case Value(v, n) =>
      PowersOfTwo();
      var length := ToInt64(v);
      if length < 0 then NoSpan(InvalidLength)
      else
        var end := WrapAdd(base + i + n, length);
        if end < 0 then NoSpan(InvalidLength)
        else if end > base + |s| then NoSpan(UnexpectedEOF)
        else Span(i + n, end - base)
  }

  /** The field at the front of `s`. */
  function Frame(schema: Schema, s: seq<Byte>, base: nat): (r: Framed)
    requires 0 < |s| && base + |s| <= MAX_INT64
    ensures r.Field? ==> 1 <= r.n <= |s|
  {
    match Decoded(s, 64)
    case Bad(e) => NoField(e)
    case Value(tag, i) =>
      var field := ToInt32(tag / 8);
      if tag % 8 == 4 then NoField(EndGroup)
      else if field <= 0 then NoField(IllegalTag)
      else if field in schema then FrameKnown(schema[field], field, tag % 8, s, i, base)
      else FrameUnknown(s, base)
  }

  function FrameKnown(kind: Kind, field: Int32, wireType: nat, s: seq<Byte>, i: nat, base: nat): (r: Framed)
    requires 1 <= i <= |s| && base + |s| <= MAX_INT64
    ensures r.Field? ==> i < r.n <= |s|
  {
    if kind == Enum then
      if wireType != 0 then NoField(WrongWireType(field))
      else
        match Decoded(s[i..], 32)
        case Bad(e) => NoField(e)
        case Value(v, n) => Field(Number(field, ToInt32(v)), i + n)
    else if wireType != 2 then NoField(WrongWireType(field))
    else
      match Announced(s, i, base)
      case NoSpan(e) => NoField(e)
      case Span(start, end) =>
        if kind == Delimited then Field(Bytes(field, s[start..end]), end)
        else Field(Entry(field, s[start..], end - start, base + start), end)
  }

  function FrameUnknown(s: seq<Byte>, base: nat): (r: Framed)
    requires 0 < |s| && base + |s| <= MAX_INT64
    ensures r.Field? ==> 1 <= r.n <= |s| && r.token == Unknown(s[..r.n])
  {
    match Skip(s)
    case SkipError(e) => NoField(e)
    case Skipped(n) =>
      if n < 0 then NoField(InvalidLength)
      else if WrapAdd(base, n) < 0 then NoField(InvalidLength)
      else if WrapAdd(base, n) > base + |s| then NoField(UnexpectedEOF)
      else Field(Unknown(s[..n]), n)
  }

  function Update<K>(apply: Apply<K>, m: Message<K>, token: Token): Result<Message<K>> {
    if token.Unknown? then Ok(Message(m.known, m.unknown + token.raw))
    else
      match apply(m.known, token)
      case Ok(k) => Ok(Message(k, m.unknown))
      case Err(e) => Err(e)
  }

  /** `Unmarshal` of `s` into `m`. */
  function Decode<K>(schema: Schema, apply: Apply<K>, s: seq<Byte>, base: nat, m: Message<K>): Result<Message<K>>
    requires base + |s| <= MAX_INT64
    decreases |s|
  {
    if s == [] then Ok(m)
    else
      match Frame(schema, s, base)
      case NoField(e) => Err(e)
      case Field(token, n) =>
        match Update(apply, m, token)
        case Err(e) => Err(e)
        case Ok(m') => Decode(schema, apply, s[n..], base + n, m')
  }

  /** What is left of the known part by a field that cannot be framed, and by one that the message refuses. */
  datatype Cut<!K> = Cut(unframed: (K, seq<Byte>) -> K, refused: (K, Token) -> K)

  /** What `Unmarshal` of `s` leaves of `m`, whether or not it fails. */
  function Left<K>(schema: Schema, apply: Apply<K>, cut: Cut<K>, s: seq<Byte>, base: nat, m: Message<K>): Message<K>
    requires base + |s| <= MAX_INT64
    decreases |s|
  {
    if s == [] then m
    else
      match Frame(schema, s, base)
      case NoField(_) => Message(cut.unframed(m.known, s), m.unknown)
      case Field(token, n) =>
        match Update(apply, m, token)
        case Err(_) => Message(cut.refused(m.known, token), m.unknown)
        case Ok(m') => Left(schema, apply, cut, s[n..], base + n, m')
  }

  /** Having read `data[..i]` into `m0`, which is `m` now, what remains decides the outcome. */
  ghost predicate Remains<K>(schema: Schema, apply: Apply<K>, cut: Cut<K>, data: seq<Byte>, m0: Message<K>, i: nat,
                             m: Message<K>)
    requires i <= |data| <= MAX_INT64
  {
    && Decode(schema, apply, data[i..], i, m) == Decode(schema, apply, data, 0, m0)
    && Left(schema, apply, cut, data[i..], i, m) == Left(schema, apply, cut, data, 0, m0)
  }

  lemma ReadStart<K>(schema: Schema, apply: Apply<K>, cut: Cut<K>, data: seq<Byte>, m0: Message<K>)
    requires |data| <= MAX_INT64
    ensures Remains(schema, apply, cut, data, m0, 0, m0)
  {
    assert data[0..] == data;
  }

  /** One turn of the loop. */
  lemma ReadOn<K>(schema: Schema, apply: Apply<K>, cut: Cut<K>, data: seq<Byte>, m0: Message<K>, i: nat, m: Message<K>)
    requires i < |data| <= MAX_INT64 && Remains(schema, apply, cut, data, m0, i, m)
    ensures match Frame(schema, data[i..], i)
            case NoField(e) =>
              && Decode(schema, apply, data, 0, m0) == Err(e)
              && Left(schema, apply, cut, data, 0, m0) == Message(cut.unframed(m.known, data[i..]), m.unknown)
            case Field(token, n) =>
              match Update(apply, m, token)
              case Err(e) =>
                && Decode(schema, apply, data, 0, m0) == Err(e)
                && Left(schema, apply, cut, data, 0, m0) == Message(cut.refused(m.known, token), m.unknown)
              case Ok(m') => Remains(schema, apply, cut, data, m0, i + n, m')
  {
    hide Frame, Update;
    var f := Frame(schema, data[i..], i);
    if f.Field? {
      assert data[i..][f.n..] == data[i + f.n..];
    }
  }

  lemma ReadEnd<K>(schema: Schema, apply: Apply<K>, cut: Cut<K>, data: seq<Byte>, m0: Message<K>, m: Message<K>)
    requires |data| <= MAX_INT64 && Remains(schema, apply, cut, data, m0, |data|, m)
    ensures Decode(schema, apply, data, 0, m0) == Ok(m) && Left(schema, apply, cut, data, 0, m0) == m
  {
  }

  // ---- The checks, in numbers that do not wrap around

  lemma AnnouncedMeans(s: seq<Byte>, i: nat, base: nat)
    requires i <= |s| && base + |s| <= MAX_INT64 && Decoded(s[i..], 64).Value?
    ensures var length := Decoded(s[i..], 64);
            var start := i + length.next;
            Announced(s, i, base)
            == if length.value > MAX_INT64 || base + start + length.value > MAX_INT64 then NoSpan(InvalidLength)
               else if start + length.value > |s| then NoSpan(UnexpectedEOF)
               else Span(start, start + length.value)
  {
    hide ScanVarint;
    PowersOfTwo();
  }

  lemma UnknownMeans(s: seq<Byte>, base: nat)
    requires 0 < |s| && base + |s| <= MAX_INT64 && Skip(s).Skipped?
    ensures var n := Skip(s).n;
            FrameUnknown(s, base)
            == if n < 0 || base + n > MAX_INT64 then NoField(InvalidLength)
               else if n > |s| then NoField(UnexpectedEOF)
               else Field(Unknown(s[..n]), n)
  {
    hide Skip;
  }

  // ---- The code that frames one field

  method ReadAnnounced(data: seq<Byte>, at: nat, ghost from: nat) returns (r: Span)
    requires from <= at <= |data| <= MAX_INT64
    ensures r == match Announced(data[from..], at - from, from)
                 case Span(start, end) => Span(from + start, from + end)
                 case NoSpan(e) => NoSpan(e)
  {
    assert data[from..][at - from..] == data[at..];
    var length := DecodeVarint(data, at, 64);
    if length.Bad? {
      return NoSpan(length.error);
    }
    PowersOfTwo();
    if ToInt64(length.value) < 0 {
      return NoSpan(InvalidLength);
    }
    var end := WrapAdd(length.next, ToInt64(length.value));
    if end < 0 {
      return NoSpan(InvalidLength);
    }
    if end > |data| {
      return NoSpan(UnexpectedEOF);
    }
    return Span(length.next, end);
  }

  /** One turn of the loop up to the point where the message is touched. */
  method ReadField(schema: Schema, data: seq<Byte>, at: nat) returns (r: Framed)
    requires at < |data| <= MAX_INT64
    ensures r == Frame(schema, data[at..], at)
  {
    hide ScanVarint, ToInt32, Truncate, FrameKnown, FrameUnknown;
    var tag := DecodeVarint(data, at, 64);
    if tag.Bad? {
      return NoField(tag.error);
    }
    var field := ToInt32(tag.value / 8);
    var wireType := tag.value % 8;
    if wireType == 4 {
      return NoField(EndGroup);
    }
    if field <= 0 {
      return NoField(IllegalTag);
    }
    if field !in schema {
      r := ReadUnknown(data, at);
      return;
    }
    r := ReadKnown(schema[field], field, wireType, data, at, tag.next);
  }

  method ReadUnknown(data: seq<Byte>, at: nat) returns (r: Framed)
    requires at < |data| <= MAX_INT64
    ensures r == FrameUnknown(data[at..], at)
  {
    var skipped := SkipField(data[at..]);
    if skipped.SkipError? {
      return NoField(skipped.error);
    }
    if skipped.n < 0 {
      return NoField(InvalidLength);
    }
    var end := WrapAdd(at, skipped.n);
    if end < 0 {
      return NoField(InvalidLength);
    }
    if end > |data| {
      return NoField(UnexpectedEOF);
    }
    assert data[at..][..end - at] == data[at..end];
    return Field(Unknown(data[at..end]), end - at);
  }

  method ReadKnown(kind: Kind, field: Int32, wireType: nat, data: seq<Byte>, at: nat, i: nat) returns (r: Framed)
    requires at < i <= |data| <= MAX_INT64
    ensures r == FrameKnown(kind, field, wireType, data[at..], i - at, at)
  {
    if kind == Enum {
      if wireType != 0 {
        return NoField(WrongWireType(field));
      }
      assert data[at..][i - at..] == data[i..];
      var number := DecodeVarint(data, i, 32);
      if number.Bad? {
        return NoField(number.error);
      }
      return Field(Number(field, ToInt32(number.value)), number.next - at);
    }
    if wireType != 2 {
      return NoField(WrongWireType(field));
    }
    var span := ReadAnnounced(data, i, at);
    if span.NoSpan? {
      return NoField(span.error);
    }
    var s, e := span.start - at, span.end - at;
    assert data[at..][s..] == data[span.start..];
    assert data[at..][s..e] == data[span.start..span.end];
    if kind == Delimited {
      return Field(Bytes(field, data[span.start..span.end]), e);
    }
    return Field(Entry(field, data[span.start..], span.end - span.start, span.start), e);
  }
}
