/**
 Laws of `Decode` that hold for every table of fields: concatenation is merge, and encoded fields can be read back.
 */
module WireLaws {
  import opened Bits
  import opened Varints
  import opened Skipping
  import opened Wire

  ghost predicate MapFree(schema: Schema) {
    forall field | field in schema :: schema[field] != MapEntry
  }

  /**
   Two errors a reader cannot tell apart by looking at the field alone: whether an announced end lies past the data or
   past the largest `int` depends on where in the data the field stands.
   */
  predicate Alike(e: Error, e': Error) {
    || e == e'
    || (e == InvalidLength && e' == UnexpectedEOF)
    || (e == UnexpectedEOF && e' == InvalidLength)
  }

  predicate SameOutcome<T(==)>(r: Result<T>, r': Result<T>) {
    if r.Ok? then r == r' else r'.Err? && Alike(r.error, r'.error)
  }

  // ---- Locality

  /** A field read with success is read the same wherever it stands and whatever follows it. */
  lemma FrameIsLocal(schema: Schema, s: seq<Byte>, base: nat, t: seq<Byte>, base': nat, n: nat)
    requires 0 < |s| && base + |s| <= MAX_INT64 && 0 < |t| && base' + |t| <= MAX_INT64
    requires n <= |s| && n <= |t| && s[..n] == t[..n]
    requires var f := Frame(schema, s, base); f.Field? && f.n == n && (MapFree(schema) || f.token.Unknown?)
    ensures Frame(schema, t, base') == Frame(schema, s, base)
  {
    TruncatedScanIsLocal(s, t, 0, n);
    var tag := Decoded(s, 64);
    var field := ToInt32(tag.value / 8);
    if field !in schema {
      SkipIsLocal(s, t, n);
    } else {
      KnownIsLocal(schema[field], field, tag.value % 8, s, base, t, base', tag.next, n);
    }
  }

  lemma KnownIsLocal(kind: Kind, field: Int32, wireType: nat, s: seq<Byte>, base: nat, t: seq<Byte>, base': nat,
                     i: nat, n: nat)
    requires kind != MapEntry && 1 <= i <= n <= |s| && n <= |t| && s[..n] == t[..n]
    requires base + |s| <= MAX_INT64 && base' + |t| <= MAX_INT64
    requires var r := FrameKnown(kind, field, wireType, s, i, base); r.Field? && r.n == n
    ensures FrameKnown(kind, field, wireType, t, i, base') == FrameKnown(kind, field, wireType, s, i, base)
  {
    TruncatedScanIsLocal(s, t, i, n);
    if kind == Delimited {
      var span := Announced(s, i, base);
      assert s[span.start..n] == s[..n][span.start..] == t[..n][span.start..] == t[span.start..n];
    }
  }

  /** A field that cannot be read cannot be read at any other place in the data either. */
  lemma FrameFailsAlike(schema: Schema, s: seq<Byte>, base: nat, base': nat)
    requires MapFree(schema)
    requires 0 < |s| && base + |s| <= MAX_INT64 && base' + |s| <= MAX_INT64
    requires Frame(schema, s, base).NoField?
    ensures Frame(schema, s, base').NoField?
    ensures Alike(Frame(schema, s, base).error, Frame(schema, s, base').error)
  {
    hide ScanVarint, Skip;
    PowersOfTwo();
  }

  lemma {:induction false} BaseOnlyNamesErrors<K>(schema: Schema, apply: Apply<K>, s: seq<Byte>, base: nat, base': nat,
                                                  m: Message<K>)
    requires MapFree(schema) && base + |s| <= MAX_INT64 && base' + |s| <= MAX_INT64
    ensures SameOutcome(Decode(schema, apply, s, base, m), Decode(schema, apply, s, base', m))
    decreases |s|
  {
    hide Frame;
    if s != [] {
      var f := Frame(schema, s, base);
      if f.NoField? {
        FrameFailsAlike(schema, s, base, base');
      } else {
        FrameIsLocal(schema, s, base, s, base', f.n);
        var u := Update(apply, m, f.token);
        if u.Ok? {
          BaseOnlyNamesErrors(schema, apply, s[f.n..], base + f.n, base' + f.n, u.value);
        }
      }
    }
  }

  // ---- Concatenation is merge

  /** Decoding `a ++ b` is decoding `a` and then decoding `b` into the same message. */
  lemma ConcatenationIsMerge<K>(schema: Schema, apply: Apply<K>, a: seq<Byte>, b: seq<Byte>, m: Message<K>)
    requires MapFree(schema) && |a + b| <= MAX_INT64
    requires Decode(schema, apply, a, 0, m).Ok?
    ensures SameOutcome(Decode(schema, apply, b, 0, Decode(schema, apply, a, 0, m).value),
                        Decode(schema, apply, a + b, 0, m))
  {
    DecodeThrough(schema, apply, a, b, 0, m);
    BaseOnlyNamesErrors(schema, apply, b, 0, |a|, Decode(schema, apply, a, 0, m).value);
  }

  lemma FirstField<K>(schema: Schema, apply: Apply<K>, s: seq<Byte>, base: nat, m: Message<K>)
    requires s != [] && base + |s| <= MAX_INT64
    ensures Decode(schema, apply, s, base, m)
            == match Frame(schema, s, base)
               case NoField(e) => Err(e)
               case Field(token, n) =>
                 match Update(apply, m, token)
                 case Err(e) => Err(e)
                 case Ok(m') => Decode(schema, apply, s[n..], base + n, m')
  {
    hide Frame, Update;
  }

  lemma DecodeOfNone<K>(schema: Schema, apply: Apply<K>, base: nat, m: Message<K>)
    requires base <= MAX_INT64
    ensures Decode(schema, apply, [], base, m) == Ok(m)
  {
  }

  lemma {:induction false} DecodeThrough<K>(schema: Schema, apply: Apply<K>, a: seq<Byte>, b: seq<Byte>, base: nat,
                                            m: Message<K>)
    requires MapFree(schema) && base + |a| + |b| <= MAX_INT64
    requires Decode(schema, apply, a, base, m).Ok?
    ensures Decode(schema, apply, a + b, base, m)
            == Decode(schema, apply, b, base + |a|, Decode(schema, apply, a, base, m).value)
    decreases |a|
  {
    hide Frame, Update, Decode;
    if a == [] {
      DecodeOfNone(schema, apply, base, m);
      assert a + b == b;
    } else {
      FirstField(schema, apply, a, base, m);
      FirstField(schema, apply, a + b, base, m);
      var f := Frame(schema, a, base);
      assert a[..f.n] == (a + b)[..f.n];
      FrameIsLocal(schema, a, base, a + b, base, f.n);
      assert (a + b)[f.n..] == a[f.n..] + b;
      DecodeThrough(schema, apply, a[f.n..], b, base + f.n, Update(apply, m, f.token).value);
    }
  }

  // ---- Unknown fields

  /** Exactly one well-formed field, whose number is not in the table. */
  predicate IsUnknownField(schema: Schema, raw: seq<Byte>) {
    0 < |raw| <= MAX_INT64 && Frame(schema, raw, 0) == Field(Unknown(raw), |raw|)
  }

  /** A sequence of such fields. */
  ghost predicate Unrecognized(schema: Schema, u: seq<Byte>)
    decreases |u|
  {
    u == [] || exists n | 1 <= n <= |u| :: IsUnknownField(schema, u[..n]) && Unrecognized(schema, u[n..])
  }

  /** The unknown fields of `s`, byte for byte and in order, up to the first field that cannot be read. */
  function UnknownPart(schema: Schema, s: seq<Byte>): seq<Byte>
    requires |s| <= MAX_INT64
    decreases |s|
  {
    if s == [] then []
    else
      match Frame(schema, s, 0)
      case NoField(_) => []
      case Field(token, n) => (if token.Unknown? then token.raw else []) + UnknownPart(schema, s[n..])
  }

  lemma {:induction false} UnrecognizedAppends(schema: Schema, u: seq<Byte>, v: seq<Byte>)
    requires Unrecognized(schema, u) && Unrecognized(schema, v)
    ensures Unrecognized(schema, u + v)
    decreases |u|
  {
    hide IsUnknownField;
    if u == [] {
      assert u + v == v;
    } else {
      var n :| 1 <= n <= |u| && IsUnknownField(schema, u[..n]) && Unrecognized(schema, u[n..]);
      UnrecognizedAppends(schema, u[n..], v);
      assert (u + v)[..n] == u[..n] && (u + v)[n..] == u[n..] + v;
    }
  }

  /** What decoding adds to the unknown bytes is the unknown part of its input, and that is well-formed. */
  lemma {:induction false} UnknownFieldsSurvive<K>(schema: Schema, apply: Apply<K>, s: seq<Byte>, base: nat,
                                                   m: Message<K>)
    requires MapFree(schema) && base + |s| <= MAX_INT64
    requires Decode(schema, apply, s, base, m).Ok?
    ensures Decode(schema, apply, s, base, m).value.unknown == m.unknown + UnknownPart(schema, s)
    ensures |UnknownPart(schema, s)| <= |s| && Unrecognized(schema, UnknownPart(schema, s))
    decreases |s|
  {
    hide Frame, IsUnknownField, Decode, UnknownPart, Unrecognized;
    if s == [] {
      DecodeOfNone(schema, apply, base, m);
      NoUnknownPart(schema);
    } else {
      FirstField(schema, apply, s, base, m);
      var f := Frame(schema, s, base);
      FrameIsLocal(schema, s, base, s, 0, f.n);
      UnknownPartStep(schema, s);
      var m' := Update(apply, m, f.token).value;
      UnknownFieldsSurvive(schema, apply, s[f.n..], base + f.n, m');
      if f.token.Unknown? {
        FirstSurvives(schema, s, base, f.n);
        assert m'.unknown == m.unknown + s[..f.n];
        assert (m.unknown + s[..f.n]) + UnknownPart(schema, s[f.n..])
            == m.unknown + (s[..f.n] + UnknownPart(schema, s[f.n..]));
      }
    }
  }

  lemma NoUnknownPart(schema: Schema)
    ensures UnknownPart(schema, []) == [] && Unrecognized(schema, [])
  {
  }

  lemma UnknownPartStep(schema: Schema, s: seq<Byte>)
    requires 0 < |s| <= MAX_INT64 && Frame(schema, s, 0).Field?
    ensures var f, rest := Frame(schema, s, 0), UnknownPart(schema, s[Frame(schema, s, 0).n..]);
            UnknownPart(schema, s) == if f.token.Unknown? then f.token.raw + rest else rest
  {
    hide Frame;
  }

  /** An unknown field in front of unknown fields. */
  lemma FirstSurvives(schema: Schema, s: seq<Byte>, base: nat, n: nat)
    requires MapFree(schema) && 0 < |s| && base + |s| <= MAX_INT64 && 1 <= n <= |s|
    requires var f := Frame(schema, s, base); f.Field? && f.token.Unknown? && f.n == n
    requires Unrecognized(schema, UnknownPart(schema, s[n..]))
    ensures Frame(schema, s, base).token.raw == s[..n]
    ensures Unrecognized(schema, s[..n] + UnknownPart(schema, s[n..]))
  {
    hide Frame, IsUnknownField, UnknownPart, Unrecognized;
    FrameIsLocal(schema, s, base, s, 0, n);
    FrameIsLocal(schema, s, base, s[..n], 0, n);
    FrameUnknownIsPrefix(schema, s);
    OneUnknownField(schema, s[..n]);
    UnrecognizedAppends(schema, s[..n], UnknownPart(schema, s[n..]));
  }

  lemma DecodeUnknownField<K>(schema: Schema, apply: Apply<K>, u: seq<Byte>, n: nat, base: nat, m: Message<K>)
    requires base + |u| <= MAX_INT64 && 1 <= n <= |u| && IsUnknownField(schema, u[..n])
    ensures Decode(schema, apply, u, base, m)
            == Decode(schema, apply, u[n..], base + n, Message(m.known, m.unknown + u[..n]))
  {
    hide Frame;
    assert u[..n][..n] == u[..n];
    FrameIsLocal(schema, u[..n], 0, u, base, n);
  }

  /** Well-formed unknown fields are appended whole. */
  lemma {:induction false} DecodeUnrecognized<K>(schema: Schema, apply: Apply<K>, u: seq<Byte>, base: nat,
                                                 m: Message<K>)
    requires base + |u| <= MAX_INT64 && Unrecognized(schema, u)
    ensures Decode(schema, apply, u, base, m) == Ok(Message(m.known, m.unknown + u))
    decreases |u|
  {
    hide Frame, IsUnknownField;
    if u == [] {
      assert m.unknown + u == m.unknown;
    } else {
      var n :| 1 <= n <= |u| && IsUnknownField(schema, u[..n]) && Unrecognized(schema, u[n..]);
      DecodeUnknownField(schema, apply, u, n, base, m);
      DecodeUnrecognized(schema, apply, u[n..], base + n, Message(m.known, m.unknown + u[..n]));
      assert m.unknown + u[..n] + u[n..] == m.unknown + u;
    }
  }

  lemma OneUnknownField(schema: Schema, raw: seq<Byte>)
    requires 0 < |raw| <= MAX_INT64 && Frame(schema, raw, 0) == Field(Unknown(raw), |raw|)
    ensures Unrecognized(schema, raw)
  {
    hide Frame;
    assert raw[..|raw|] == raw;
    assert IsUnknownField(schema, raw[..|raw|]);
  }

  lemma FrameUnknownIsPrefix(schema: Schema, s: seq<Byte>)
    requires 0 < |s| <= MAX_INT64
    ensures var f := Frame(schema, s, 0); f.Field? && f.token.Unknown? ==> f.token.raw == s[..f.n]
  {
  }

  // ---- Writing fields and reading them back

  const MAX_ONE_BYTE_FIELD := 15

  function DelimitedField(field: Int32, bytes: seq<Byte>): seq<Byte>
    requires 1 <= field <= MAX_ONE_BYTE_FIELD
  {
    [8 * field + 2] + Encode(|bytes|) + bytes
  }

  function EnumField(field: Int32, value: Int32): seq<Byte>
    requires 1 <= field <= MAX_ONE_BYTE_FIELD
  {
    [8 * field] + Encode(SignExtend(value))
  }

  /** Tokens that `MarshalTo` writes for a table: known fields with one-byte tags, each of the kind the table says. */
  predicate Writable(schema: Schema, token: Token) {
    match token
    case Bytes(field, _) => field in schema && schema[field] == Delimited && 1 <= field <= MAX_ONE_BYTE_FIELD
    case Number(field, _) => field in schema && schema[field] == Enum && 1 <= field <= MAX_ONE_BYTE_FIELD
    case _ => false
  }

  predicate AllWritable(schema: Schema, tokens: seq<Token>) {
    forall i | 0 <= i < |tokens| :: Writable(schema, tokens[i])
  }

  function EncodeToken(schema: Schema, token: Token): seq<Byte>
    requires Writable(schema, token)
  {
    match token
    case Bytes(field, bytes) => DelimitedField(field, bytes)
    case Number(field, value) => EnumField(field, value)
  }

  function EncodeTokens(schema: Schema, tokens: seq<Token>): seq<Byte>
    requires AllWritable(schema, tokens)
  {
    if tokens == [] then [] else EncodeToken(schema, tokens[0]) + EncodeTokens(schema, tokens[1..])
  }

  function ApplyAll<K>(apply: Apply<K>, k: K, tokens: seq<Token>): Result<K> {
    if tokens == [] then Ok(k)
    else
      match apply(k, tokens[0])
      case Err(e) => Err(e)
      case Ok(k') => ApplyAll(apply, k', tokens[1..])
  }

  lemma TagRoundTrip(tag: nat, rest: seq<Byte>)
    requires tag < 128
    ensures Decoded([tag] + rest, 64) == Value(tag, 1) && ([tag] + rest)[1..] == rest
  {
    VarintRoundTrip(tag, rest);
    assert Encode(tag) == [tag];
  }

  /** `int32` of the field number in a one-byte tag. */
  lemma SmallField(field: nat)
    requires field <= MAX_ONE_BYTE_FIELD
    ensures ToInt32(field) == field
  {
    PowersOfTwo();
    TruncateSmall(field, 32);
  }

  lemma FrameEncoded(schema: Schema, token: Token, rest: seq<Byte>, base: nat)
    requires Writable(schema, token)
    requires base + |EncodeToken(schema, token)| + |rest| <= MAX_INT64
    ensures Frame(schema, EncodeToken(schema, token) + rest, base) == Field(token, |EncodeToken(schema, token)|)
  {
    hide Frame;
    match token
    case Bytes(field, bytes) => FrameDelimited(schema, field, bytes, rest, base);
    case Number(field, value) => FrameEnum(schema, field, value, rest, base);
  }

  lemma FrameDelimited(schema: Schema, field: Int32, bytes: seq<Byte>, rest: seq<Byte>, base: nat)
    requires Writable(schema, Bytes(field, bytes))
    requires base + |DelimitedField(field, bytes)| + |rest| <= MAX_INT64
    ensures Frame(schema, DelimitedField(field, bytes) + rest, base)
            == Field(Bytes(field, bytes), |DelimitedField(field, bytes)|)
  {
    hide Frame, ScanVarint, Encode, Decoded, Announced, Truncate;
    var body := Encode(|bytes|) + bytes + rest;
    assert DelimitedField(field, bytes) + rest == [8 * field + 2] + body;
    FrameTagged(schema, field, 2, body, base);
    AnnouncedEncoded([8 * field + 2], bytes, rest, base);
  }

  lemma FrameEnum(schema: Schema, field: Int32, value: Int32, rest: seq<Byte>, base: nat)
    requires Writable(schema, Number(field, value))
    requires base + |EnumField(field, value)| + |rest| <= MAX_INT64
    ensures Frame(schema, EnumField(field, value) + rest, base)
            == Field(Number(field, value), |EnumField(field, value)|)
  {
    hide Frame, ScanVarint, Encode, Decoded, Truncate;
    var body := Encode(SignExtend(value)) + rest;
    assert EnumField(field, value) + rest == [8 * field] + body;
    FrameTagged(schema, field, 0, body, base);
    EnumRoundTrip(value, rest);
  }

  lemma FrameTagged(schema: Schema, field: Int32, wireType: nat, body: seq<Byte>, base: nat)
    requires 1 <= field <= MAX_ONE_BYTE_FIELD && field in schema && wireType in {0, 2}
    requires base + 1 + |body| <= MAX_INT64
    ensures var s := [8 * field + wireType] + body;
            && s[1..] == body
            && Frame(schema, s, base) == FrameKnown(schema[field], field, wireType, s, 1, base)
  {
    hide ScanVarint, Encode, Decoded, Truncate, ToInt32, FrameKnown, FrameUnknown;
    SmallField(field);
    TagRoundTrip(8 * field + wireType, body);
  }

  lemma AnnouncedEncoded(before: seq<Byte>, bytes: seq<Byte>, rest: seq<Byte>, base: nat)
    requires base + |before| + |Encode(|bytes|)| + |bytes| + |rest| <= MAX_INT64
    ensures var s := before + (Encode(|bytes|) + bytes + rest);
            var start := |before| + |Encode(|bytes|)|;
            && Announced(s, |before|, base) == Span(start, start + |bytes|)
            && s[start..start + |bytes|] == bytes
            && s[start..] == bytes + rest
            && s[start + |bytes|..] == rest
  {
    hide Encode, Decoded;
    var s := before + (Encode(|bytes|) + bytes + rest);
    assert s[|before|..] == Encode(|bytes|) + (bytes + rest);
    VarintRoundTrip(|bytes|, bytes + rest);
  }

  /** Decoding encoded fields applies them one after the other. */
  lemma {:induction false} DecodeEncoded<K>(schema: Schema, apply: Apply<K>, tokens: seq<Token>, rest: seq<Byte>,
                                            base: nat, m: Message<K>)
    requires AllWritable(schema, tokens)
    requires base + |EncodeTokens(schema, tokens)| + |rest| <= MAX_INT64
    ensures Decode(schema, apply, EncodeTokens(schema, tokens) + rest, base, m)
            == match ApplyAll(apply, m.known, tokens)
               case Err(e) => Err(e)
               case Ok(k) => Decode(schema, apply, rest, base + |EncodeTokens(schema, tokens)|, Message(k, m.unknown))
    decreases |tokens|
  {
    hide Frame, EncodeToken, Encode, Decode;
    var bytes := EncodeTokens(schema, tokens);
    if tokens == [] {
      assert bytes + rest == rest;
    } else {
      var head, tail := EncodeToken(schema, tokens[0]), EncodeTokens(schema, tokens[1..]);
      assert bytes + rest == head + (tail + rest);
      FrameEncoded(schema, tokens[0], tail + rest, base);
      assert (bytes + rest)[|head|..] == tail + rest;
      FirstField(schema, apply, bytes + rest, base, m);
      var r := apply(m.known, tokens[0]);
      if r.Ok? {
        DecodeEncoded(schema, apply, tokens[1..], rest, base + |head|, Message(r.value, m.unknown));
      }
    }
  }

  lemma {:induction false} ApplyAllAppends<K>(apply: Apply<K>, k: K, xs: seq<Token>, ys: seq<Token>)
    ensures ApplyAll(apply, k, xs + ys)
            == match ApplyAll(apply, k, xs)
               case Err(e) => Err(e)
               case Ok(k') => ApplyAll(apply, k', ys)
  {
    if xs == [] {
      assert xs + ys == ys;
    } else {
      assert (xs + ys)[1..] == xs[1..] + ys;
      var r := apply(k, xs[0]);
      if r.Ok? {
        ApplyAllAppends(apply, r.value, xs[1..], ys);
      }
    }
  }

  lemma {:induction false} EncodeTokensAppends(schema: Schema, xs: seq<Token>, ys: seq<Token>)
    requires AllWritable(schema, xs) && AllWritable(schema, ys)
    ensures AllWritable(schema, xs + ys)
    ensures EncodeTokens(schema, xs + ys) == EncodeTokens(schema, xs) + EncodeTokens(schema, ys)
  {
    hide Writable, EncodeToken;
    if xs == [] {
      assert xs + ys == ys;
    } else {
      assert (xs + ys)[1..] == xs[1..] + ys;
      EncodeTokensAppends(schema, xs[1..], ys);
    }
  }

  /** Fields that build up `k`, followed by unknown fields, decode into `k` and those unknown fields. */
  lemma FieldsRoundTrip<K>(schema: Schema, apply: Apply<K>, empty: K, tokens: seq<Token>, k: K, u: seq<Byte>)
    requires MapFree(schema) && AllWritable(schema, tokens) && |EncodeTokens(schema, tokens) + u| <= MAX_INT64
    requires Unrecognized(schema, u) && ApplyAll(apply, empty, tokens) == Ok(k)
    ensures Decode(schema, apply, EncodeTokens(schema, tokens) + u, 0, Message(empty, [])) == Ok(Message(k, u))
  {
    hide Decode, EncodeTokens, Unrecognized;
    DecodeEncoded(schema, apply, tokens, u, 0, Message(empty, []));
    DecodeUnrecognized(schema, apply, u, |EncodeTokens(schema, tokens)|, Message(k, []));
    assert [] + u == u;
  }

  // ---- Fields that carry any number of payloads: none for an absent field, one for a present one, many for a list

  function Repeated(field: Int32, payloads: seq<seq<Byte>>): seq<Byte>
    requires 1 <= field <= MAX_ONE_BYTE_FIELD
  {
    if payloads == [] then [] else DelimitedField(field, payloads[0]) + Repeated(field, payloads[1..])
  }

  /** An enum field is absent when zero. */
  function NonZero(field: Int32, value: Int32): seq<Byte>
    requires 1 <= field <= MAX_ONE_BYTE_FIELD
  {
    if value == 0 then [] else EnumField(field, value)
  }

  /** A string field is absent when empty. */
  function Text(s: seq<Byte>): seq<seq<Byte>> {
    if s == [] then [] else [s]
  }

  function RepeatedTokens(field: Int32, payloads: seq<seq<Byte>>): (tokens: seq<Token>)
    ensures |tokens| == |payloads|
    ensures forall i | 0 <= i < |tokens| :: tokens[i] == Bytes(field, payloads[i])
  {
    if payloads == [] then [] else [Bytes(field, payloads[0])] + RepeatedTokens(field, payloads[1..])
  }

  lemma AppendedInTwo<T>(xs: seq<T>, ys: seq<T>)
    requires ys != []
    ensures xs + [ys[0]] + ys[1..] == xs + ys
  {
  }

  lemma RepeatedTokensTail(field: Int32, payloads: seq<seq<Byte>>)
    requires payloads != []
    ensures RepeatedTokens(field, payloads)[0] == Bytes(field, payloads[0])
    ensures RepeatedTokens(field, payloads)[1..] == RepeatedTokens(field, payloads[1..])
  {
  }

  lemma {:induction false} EncodeRepeated(schema: Schema, field: Int32, payloads: seq<seq<Byte>>)
    requires 1 <= field <= MAX_ONE_BYTE_FIELD && field in schema && schema[field] == Delimited
    ensures AllWritable(schema, RepeatedTokens(field, payloads))
    ensures EncodeTokens(schema, RepeatedTokens(field, payloads)) == Repeated(field, payloads)
  {
    if payloads != [] {
      EncodeRepeated(schema, field, payloads[1..]);
      RepeatedTokensTail(field, payloads);
    }
  }

  lemma {:induction false} RepeatedAppends(field: Int32, xs: seq<seq<Byte>>, ys: seq<seq<Byte>>)
    requires 1 <= field <= MAX_ONE_BYTE_FIELD
    ensures Repeated(field, xs + ys) == Repeated(field, xs) + Repeated(field, ys)
  {
    if xs == [] {
      assert xs + ys == ys;
    } else {
      assert (xs + ys)[1..] == xs[1..] + ys;
      RepeatedAppends(field, xs[1..], ys);
    }
  }

  lemma RepeatedNone(field: Int32)
    requires 1 <= field <= MAX_ONE_BYTE_FIELD
    ensures Repeated(field, []) == []
  {
  }

  /** One more payload is one more field behind those before it. */
  lemma RepeatedStep(field: Int32, payloads: seq<seq<Byte>>, k: nat)
    requires 1 <= field <= MAX_ONE_BYTE_FIELD && k < |payloads|
    ensures Repeated(field, payloads[..k + 1]) == Repeated(field, payloads[..k]) + Repeated(field, [payloads[k]])
    ensures |Repeated(field, payloads[..k + 1])| <= |Repeated(field, payloads)|
  {
    assert payloads[..k + 1] == payloads[..k] + [payloads[k]];
    RepeatedAppends(field, payloads[..k], [payloads[k]]);
    assert payloads == payloads[..k + 1] + payloads[k + 1..];
    RepeatedAppends(field, payloads[..k + 1], payloads[k + 1..]);
  }

  /** No payload is longer than the field that carries it. */
  lemma {:induction false} PayloadFits(field: Int32, payloads: seq<seq<Byte>>, i: nat)
    requires 1 <= field <= MAX_ONE_BYTE_FIELD && i < |payloads|
    ensures |payloads[i]| <= |Repeated(field, payloads)|
  {
    if i != 0 {
      PayloadFits(field, payloads[1..], i - 1);
    }
  }
}
