/**
 Where the law "concatenation is merge" stops: a field may announce an end past the data, and whether that end is also
 past the largest `int` depends on where in the data the field stands. The two cases are different errors.
 */
module WireErrors {
  import opened Options
  import opened Bits
  import opened Varints
  import opened Skipping
  import opened Wire
  import opened WireLaws

  /** How far from its first byte the field at the front of `s` says it reaches, if it gets to say so. */
  function Reach(schema: Schema, s: seq<Byte>): Option<nat>
    requires 0 < |s| <= MAX_INT64
  {
    match Decoded(s, 64)
    case Bad(_) => None
    case Value(tag, i) =>
      var field := ToInt32(tag / 8);
      if tag % 8 == 4 || field <= 0 then None
      else if field !in schema then
        (match Skip(s)
         case SkipError(_) => None
         case Skipped(n) => if n < 0 then None else Some(n))
      else if schema[field] == Enum || tag % 8 != 2 then None
      else
        match Decoded(s[i..], 64)
        case Bad(_) => None
        case Value(v, n) => PowersOfTwo(); if ToInt64(v) < 0 then None else Some(i + n + ToInt64(v))
  }

  lemma FrameByReach(schema: Schema, s: seq<Byte>, base: nat, base': nat)
    requires MapFree(schema) && 0 < |s| && base + |s| <= MAX_INT64 && base' + |s| <= MAX_INT64
    ensures match Reach(schema, s)
            case None => Frame(schema, s, base) == Frame(schema, s, base')
            case Some(r) =>
              if r <= |s| then Frame(schema, s, base) == Frame(schema, s, base') && Frame(schema, s, base).Field?
              else Frame(schema, s, base) == NoField(if base + r > MAX_INT64 then InvalidLength else UnexpectedEOF)
  {
    hide ScanVarint, Skip;
    PowersOfTwo();
  }

  /** How far into `s` the first field reaches that `Decode` cannot read, if it fails for that reason at all. */
  function Overreach<K>(schema: Schema, apply: Apply<K>, s: seq<Byte>, m: Message<K>): Option<nat>
    requires |s| <= MAX_INT64
    decreases |s|
  {
    if s == [] then None
    else
      match Frame(schema, s, 0)
      case NoField(_) => Reach(schema, s)
      case Field(token, n) =>
        match Update(apply, m, token)
        case Err(_) => None
        case Ok(m') =>
          match Overreach(schema, apply, s[n..], m')
          case None => None
          case Some(r) => Some(n + r)
  }

  /** Decoding the same bytes at another place in the data gives the same outcome, but for this one difference. */
  lemma {:induction false} BaseMatters<K>(schema: Schema, apply: Apply<K>, s: seq<Byte>, base: nat, base': nat,
                                          m: Message<K>)
    requires MapFree(schema) && base + |s| <= MAX_INT64 && base' + |s| <= MAX_INT64
    ensures var o := Overreach(schema, apply, s, m);
            Decode(schema, apply, s, base, m) == Decode(schema, apply, s, base', m)
            <==> (o.Some? ==> (base + o.value > MAX_INT64 <==> base' + o.value > MAX_INT64))
    decreases |s|
  {
    hide Frame, Reach;
    if s != [] {
      FrameByReach(schema, s, base, base');
      FrameByReach(schema, s, base', base);
      FrameByReach(schema, s, 0, base);
      var f := Frame(schema, s, 0);
      if f.Field? {
        var u := Update(apply, m, f.token);
        if u.Ok? {
          BaseMatters(schema, apply, s[f.n..], base + f.n, base' + f.n, u.value);
        }
      }
    }
  }

  /**
   Decoding `a ++ b` and decoding `a`, then `b` into the same message, have exactly the same outcome, unless the first
   field of `b` that cannot be read ends at an index below 2^63 in `b` and at one that is not in `a ++ b`.
   */
  lemma ConcatenationExactly<K>(schema: Schema, apply: Apply<K>, a: seq<Byte>, b: seq<Byte>, m: Message<K>)
    requires MapFree(schema) && |a + b| <= MAX_INT64
    requires Decode(schema, apply, a, 0, m).Ok?
    ensures var m' := Decode(schema, apply, a, 0, m).value;
            var o := Overreach(schema, apply, b, m');
            Decode(schema, apply, b, 0, m') == Decode(schema, apply, a + b, 0, m)
            <==> !(o.Some? && o.value <= MAX_INT64 < |a| + o.value)
  {
    DecodeThrough(schema, apply, a, b, 0, m);
    BaseMatters(schema, apply, b, 0, |a|, Decode(schema, apply, a, 0, m).value);
  }

  // ---- No panic

  lemma {:induction false} ScanDoesNotPanic(s: seq<Byte>, k: nat)
    ensures ScanVarint(s, k) != ScanError(IndexOutOfRange)
    decreases |s|
  {
    if k < MAX_VARINT_BYTES && s != [] {
      ScanDoesNotPanic(s[1..], k + 1);
    }
  }

  lemma DecodedDoesNotPanic(s: seq<Byte>, width: nat)
    ensures Decoded(s, width) != Bad(IndexOutOfRange)
  {
    ScanDoesNotPanic(s, 0);
  }

  lemma {:induction false} SkipDoesNotPanic(s: seq<Byte>)
    requires 0 < |s| <= MAX_INT64
    ensures Skip(s) != SkipError(IndexOutOfRange)
    decreases |s|, |s| + 1
  {
    DecodedDoesNotPanic(s, 64);
    if Decoded(s, 64).Value? {
      var i := Decoded(s, 64).next;
      DecodedDoesNotPanic(s[i..], 64);
      if Decoded(s, 64).value % 8 == 3 {
        SkipGroupDoesNotPanic(s, i);
      }
    }
  }

  lemma {:induction false} SkipGroupDoesNotPanic(s: seq<Byte>, i: nat)
    requires 1 <= i <= MAX_INT64 && 0 < |s| <= MAX_INT64
    ensures SkipGroup(s, i) != SkipError(IndexOutOfRange)
    decreases |s|, if i <= |s| then |s| - i else 0
  {
    DecodedDoesNotPanic(From(s, i), 64);
    var tag := Decoded(From(s, i), 64);
    if tag.Value? && tag.value % 8 != 4 {
      var inner := Skip(s[i..]);
      SkipDoesNotPanic(s[i..]);
      if inner.Skipped? && WrapAdd(i, inner.n) >= 0 {
        SkipGroupDoesNotPanic(s, WrapAdd(i, inner.n));
      }
    }
  }

  lemma FrameDoesNotPanic(schema: Schema, s: seq<Byte>, base: nat)
    requires 0 < |s| && base + |s| <= MAX_INT64
    ensures Frame(schema, s, base) != NoField(IndexOutOfRange)
  {
    hide Decoded, Skip;
    DecodedDoesNotPanic(s, 64);
    SkipDoesNotPanic(s);
    if Decoded(s, 64).Value? {
      var i := Decoded(s, 64).next;
      DecodedDoesNotPanic(s[i..], 64);
      DecodedDoesNotPanic(s[i..], 32);
    }
  }
}
