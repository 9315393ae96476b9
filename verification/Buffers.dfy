/** Writing into the buffer of a `MarshalTo`, in place. */
module Buffers {
  import opened Bits
  import opened Varints
  import opened WireLaws

  /** Writing `x` and then `y` behind it is writing `x + y`. */
  /** A write changes the bytes that it writes, and no other. */
  lemma SpliceExactly(s: seq<Byte>, at: nat, x: seq<Byte>)
    requires at + |x| <= |s|
    ensures |Splice(s, at, x)| == |s|
    ensures forall i | 0 <= i < |s| :: Splice(s, at, x)[i] == if at <= i < at + |x| then x[i - at] else s[i]
  {
  }

  lemma SpliceTwice(s: seq<Byte>, at: nat, x: seq<Byte>, y: seq<Byte>)
    requires at + |x| + |y| <= |s|
    ensures Splice(Splice(s, at, x), at + |x|, y) == Splice(s, at, x + y)
  {
  }

  lemma SpliceNothing(s: seq<Byte>, at: nat)
    requires at <= |s|
    ensures Splice(s, at, []) == s
  {
  }

  /** `copy(dAtA[at:], bytes)`. */
  method Copy(buffer: array<Byte>, at: nat, bytes: seq<Byte>) returns (end: nat)
    requires at + |bytes| <= buffer.Length
    modifies buffer
    ensures end == at + |bytes| && buffer[..] == Splice(old(buffer[..]), at, bytes)
  {
    forall k | 0 <= k < |bytes| {
      buffer[at + k] := bytes[k];
    }
    end := at + |bytes|;
  }

  /** A one-byte tag followed by a varint. */
  method WriteHeader(buffer: array<Byte>, at: nat, tag: Byte, v: UInt64) returns (end: nat)
    requires at + 1 + |Encode(v)| <= buffer.Length
    modifies buffer
    ensures end == at + 1 + |Encode(v)| && buffer[..] == Splice(old(buffer[..]), at, [tag] + Encode(v))
  {
    hide Encode;
    buffer[at] := tag;
    assert buffer[..] == Splice(old(buffer[..]), at, [tag]);
    end := EncodeVarint(buffer, at + 1, v);
    SpliceTwice(old(buffer[..]), at, [tag], Encode(v));
  }

  /** A string field, written unless it is empty. */
  method WriteText(buffer: array<Byte>, at: nat, field: Int32, text: seq<Byte>) returns (end: nat)
    requires 1 <= field <= MAX_ONE_BYTE_FIELD
    requires at + |Repeated(field, Text(text))| <= buffer.Length <= MAX_INT64
    modifies buffer
    ensures end == at + |Repeated(field, Text(text))|
    ensures buffer[..] == Splice(old(buffer[..]), at, Repeated(field, Text(text)))
  {
    hide Encode;
    end := at;
    SpliceNothing(buffer[..], at);
    if |text| > 0 {
      assert Repeated(field, Text(text)) == DelimitedField(field, text);
      end := WriteHeader(buffer, at, 8 * field + 2, |text|);
      end := Copy(buffer, end, text);
      SpliceTwice(old(buffer[..]), at, [8 * field + 2] + Encode(|text|), text);
    }
  }

  /** An enum field, written unless it is zero. */
  method WriteEnum(buffer: array<Byte>, at: nat, field: Int32, value: Int32) returns (end: nat)
    requires 1 <= field <= MAX_ONE_BYTE_FIELD
    requires at + |NonZero(field, value)| <= buffer.Length
    modifies buffer
    ensures end == at + |NonZero(field, value)|
    ensures buffer[..] == Splice(old(buffer[..]), at, NonZero(field, value))
  {
    hide Encode;
    end := at;
    SpliceNothing(buffer[..], at);
    if value != 0 {
      end := WriteHeader(buffer, at, 8 * field, SignExtend(value));
    }
  }

  /** `1 + l + sov(l)`, the size of a length-delimited field. */
  method FieldSize(length: nat) returns (n: nat)
    requires length <= MAX_INT64
    ensures n == 1 + |Encode(length)| + length
    ensures forall field: Int32, bytes: seq<Byte> | 1 <= field <= MAX_ONE_BYTE_FIELD && |bytes| == length ::
              n == |DelimitedField(field, bytes)|
  {
    var sov := Sov(length);
    n := 1 + length + sov;
  }

  method TextSize(field: Int32, text: seq<Byte>) returns (n: nat)
    requires 1 <= field <= MAX_ONE_BYTE_FIELD && |text| <= MAX_INT64
    ensures n == |Repeated(field, Text(text))|
  {
    n := 0;
    if |text| > 0 {
      n := FieldSize(|text|);
      assert Repeated(field, Text(text)) == DelimitedField(field, text);
    }
  }
}
