/** How much longer a message can become by being read and written again. */
module WireSizes {
  import opened Bits
  import opened Varints
  import opened Wire
  import opened WireLaws

  lemma {:induction false} EncodeMonotone(v: nat, w: nat)
    requires v <= w
    ensures |Encode(v)| <= |Encode(w)|
    decreases v
  {
    if v >= 128 {
      EncodeMonotone(v / 128, w / 128);
    }
  }

  lemma EncodeGrows(u: nat, v: nat)
    requires u < 128 * (v + 1)
    ensures |Encode(u)| <= |Encode(v)| + 1
  {
    if u >= 128 {
      EncodeMonotone(u / 128, v);
    }
  }

  lemma EncodeSum(a: nat, b: nat)
    ensures |Encode(a + b)| <= |Encode(a)| + |Encode(b)|
  {
    EncodeGrows(a + b, if a >= b then a else b);
  }

  /** No varint is shorter than the encoding of its value, and the decoder keeps at most that value. */
  lemma {:induction false} ScannedLength(s: seq<Byte>, k: nat)
    requires ScanVarint(s, k).Scanned?
    ensures |Encode(ScanVarint(s, k).raw)| <= ScanVarint(s, k).n
    decreases |s|
  {
    if s[0] >= 128 {
      ScannedLength(s[1..], k + 1);
    }
  }

  lemma {:induction false} TruncateAtMost(x: nat, width: nat)
    ensures Truncate(x, width) <= x
    decreases width
  {
    if width > 0 {
      TruncateAtMost(x / 2, width - 1);
    }
  }

  lemma DecodedLength(s: seq<Byte>, width: nat)
    requires Decoded(s, width).Value?
    ensures |Encode(Decoded(s, width).value)| <= Decoded(s, width).next
  {
    hide Encode, ScanVarint, Truncate;
    ScannedLength(s, 0);
    var raw := ScanVarint(s).raw;
    TruncateAtMost(raw, width);
    EncodeMonotone(Truncate(raw, width), raw);
  }

  /** A length-delimited field with this many bytes. */
  function FieldLength(length: nat): nat {
    1 + |Encode(length)| + length
  }

  lemma FieldLengthMonotone(a: nat, b: nat)
    requires a <= b
    ensures FieldLength(a) <= FieldLength(b)
  {
    EncodeMonotone(a, b);
  }

  /** A payload that grows by twice some bytes makes its field grow by no more than twice the field of those bytes. */
  lemma FieldGrows(a: nat, b: nat)
    ensures FieldLength(a + 2 * b) <= FieldLength(a) + 2 * FieldLength(b)
    ensures FieldLength(2 * b) <= 2 * FieldLength(b)
  {
    EncodeGrows(2 * b, b);
    EncodeSum(a, 2 * b);
  }

  /** An enum has at least half as many bytes on the wire as its canonical form, in which negative values take ten. */
  lemma EnumLength(s: seq<Byte>)
    requires Decoded(s, 32).Value?
    ensures |Encode(SignExtend(ToInt32(Decoded(s, 32).value)))| <= 2 * Decoded(s, 32).next
  {
    var v, n := Decoded(s, 32).value, Decoded(s, 32).next;
    DecodedLength(s, 32);
    PowersOfTwo();
    hide Encode, ScanVarint;
    var x := ToInt32(v);
    TruncateSmall(v, 32);
    if x < 0 {
      FiveBytes(v);
      VarintRoundTrip(SignExtend(x), []);
    }
  }

  lemma FiveBytes(v: nat)
    requires v >= 0x1000_0000
    ensures |Encode(v)| >= 5
  {
    assert v / 128 >= 0x20_0000;
    assert v / 128 / 128 >= 0x4000;
    assert v / 128 / 128 / 128 >= 128;
    assert |Encode(v / 128 / 128 / 128)| >= 2;
    assert |Encode(v / 128 / 128)| >= 3;
    assert |Encode(v / 128)| >= 4;
  }

  /** The canonical form of a field that took `n` bytes is not much longer. */
  predicate Canonical(token: Token, n: nat) {
    match token
    case Bytes(_, bytes) => FieldLength(|bytes|) <= n
    case Number(_, value) => 1 + |Encode(SignExtend(value))| <= 2 * n
    case Unknown(raw) => |raw| <= n
    case Entry(_, _, _, _) => false
  }

  lemma FrameIsCanonical(schema: Schema, s: seq<Byte>, base: nat)
    requires MapFree(schema) && 0 < |s| && base + |s| <= MAX_INT64 && Frame(schema, s, base).Field?
    ensures Canonical(Frame(schema, s, base).token, Frame(schema, s, base).n)
  {
    hide Decoded, ToInt32, FrameKnown, Canonical;
    var tag := Decoded(s, 64);
    var field := ToInt32(tag.value / 8);
    if field in schema {
      KnownIsCanonical(schema[field], field, tag.value % 8, s, tag.next, base);
    } else {
      UnknownIsCanonical(s, base);
    }
  }

  lemma UnknownIsCanonical(s: seq<Byte>, base: nat)
    requires 0 < |s| && base + |s| <= MAX_INT64 && FrameUnknown(s, base).Field?
    ensures Canonical(FrameUnknown(s, base).token, FrameUnknown(s, base).n)
  {
  }

  lemma KnownIsCanonical(kind: Kind, field: Int32, wireType: nat, s: seq<Byte>, i: nat, base: nat)
    requires kind != MapEntry && 1 <= i <= |s| && base + |s| <= MAX_INT64
    requires FrameKnown(kind, field, wireType, s, i, base).Field?
    ensures var f := FrameKnown(kind, field, wireType, s, i, base); Canonical(f.token, f.n)
  {
    hide Decoded, Encode, ToInt32;
    PowersOfTwo();
    if kind == Enum {
      EnumLength(s[i..]);
    } else {
      DecodedLength(s[i..], 64);
      var span := Announced(s, i, base);
      assert span.end - span.start == Decoded(s[i..], 64).value;
    }
  }

  /** Every update makes the message longer by at most `factor` times the bytes of the field. */
  ghost predicate Bounded<K(!new)>(apply: Apply<K>, size: Message<K> -> nat, factor: nat) {
    forall m, token, n | Canonical(token, n) && Update(apply, m, token).Ok? ::
      size(Update(apply, m, token).value) <= size(m) + factor * n
  }

  lemma {:induction false} DecodeIsBounded<K(!new)>(schema: Schema, apply: Apply<K>, size: Message<K> -> nat,
                                             factor: nat,
                                                    s: seq<Byte>, base: nat, m: Message<K>)
    requires MapFree(schema) && base + |s| <= MAX_INT64 && Bounded(apply, size, factor)
    requires Decode(schema, apply, s, base, m).Ok?
    ensures size(Decode(schema, apply, s, base, m).value) <= size(m) + factor * |s|
    decreases |s|
  {
    hide Frame, Canonical;
    if s != [] {
      var f := Frame(schema, s, base);
      FrameIsCanonical(schema, s, base);
      var m' := Update(apply, m, f.token).value;
      DecodeIsBounded(schema, apply, size, factor, s[f.n..], base + f.n, m');
      assert factor * f.n + factor * (|s| - f.n) == factor * |s|;
    }
  }

  // ---- Lengths of written fields

  lemma TextLength(field: Int32, s: seq<Byte>)
    requires 1 <= field <= MAX_ONE_BYTE_FIELD
    ensures |Repeated(field, Text(s))| == if s == [] then 0 else FieldLength(|s|)
  {
    if s != [] {
      OneLength(field, s);
    }
  }

  lemma OneLength(field: Int32, payload: seq<Byte>)
    requires 1 <= field <= MAX_ONE_BYTE_FIELD
    ensures |Repeated(field, [payload])| == FieldLength(|payload|)
  {
    assert [payload][1..] == [];
  }

  lemma NonZeroLength(field: Int32, value: Int32)
    requires 1 <= field <= MAX_ONE_BYTE_FIELD
    ensures |NonZero(field, value)| == if value == 0 then 0 else 1 + |Encode(SignExtend(value))|
  {
  }
}
