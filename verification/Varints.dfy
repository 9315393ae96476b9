/**
 Base 128 varints (Protocol Buffers Encoding, "Base 128 Varints").

 `ScanVarint` reads a varint as an unbounded number; the decoder keeps only as many low bits as the Go accumulator has.
 */
module Varints {
  import opened Bits

  datatype Error =
    | IntOverflow
    | UnexpectedEOF
    | InvalidLength
    | EndGroup
    | IllegalTag
    | WrongWireType(field: int)
    | IllegalWireType(wireType: int)
    | IndexOutOfRange // not an error return: the slice index is negative and the Go code panics

  datatype Scan = Scanned(raw: nat, n: nat) | ScanError(error: Error)

  datatype Varint = Value(value: nat, next: nat) | Bad(error: Error)

  const MAX_VARINT_BYTES := 10

  /** Reads the varint at the front of `s`, of which `k` bytes were already read; all its bits are kept. */
  function ScanVarint(s: seq<Byte>, k: nat := 0): (r: Scan)
    ensures r.Scanned? ==> 1 <= r.n <= |s|
    decreases |s|
  {
    if k >= MAX_VARINT_BYTES then ScanError(IntOverflow)
    else if s == [] then ScanError(UnexpectedEOF)
    else if s[0] < 128 then Scanned(s[0], 1)
    else
      var rest := ScanVarint(s[1..], k + 1);
      if rest.ScanError? then rest else Scanned(s[0] - 128 + 128 * rest.raw, rest.n + 1)
  }

  /** What the decode loop over a `width`-bit accumulator computes from `s`. */
  function Decoded(s: seq<Byte>, width: nat): (r: Varint)
    ensures r.Value? ==> 1 <= r.next <= |s| && r.value < Pow2(width)
  {
    match ScanVarint(s)
    case Scanned(raw, n) => Value(Truncate(raw, width), n)
    case ScanError(e) => Bad(e)
  }

  function Encode(v: nat): (s: seq<Byte>)
    ensures |s| >= 1
  {
    if v < 128 then [v] else [v % 128 + 128] + Encode(v / 128)
  }

  /** The decode loop: bytes are or-ed into an accumulator of `width` bits until one has no continuation bit. */
  method DecodeVarint(data: seq<Byte>, start: nat, width: nat) returns (r: Varint)
    requires start <= |data|
    ensures r == match Decoded(data[start..], width)
                 case Value(v, n) => Value(v, start + n)
                 case Bad(e) => Bad(e)
  {
    hide BitOr, Truncate, Weigh;
    ScanBegins(data, start);
    var acc: nat, shift, i := 0, 0, start;
    ghost var sum: nat := 0;
    TruncateSmall(0, width);
    while true
      invariant start <= i <= |data| && shift == 7 * (i - start) <= 70
      invariant sum < Pow2(shift) && acc == Truncate(sum, width)
      invariant Continues(data, start, i, sum)
      decreases |data| - i
    {
      if shift >= 64 {
        return Bad(IntOverflow);
      }
      if i >= |data| {
        return Bad(UnexpectedEOF);
      }
      var b := data[i];
      i := i + 1;
      AccumulateByte(sum, b % 128, shift, width);
      ContinueScan(data, start, i - 1, sum);
      acc := BitOr(acc, ShiftLeft(b % 128, shift, width));
      sum := sum + Weigh(b % 128, shift);
      if b < 128 {
        return Value(acc, i);
      }
      shift := shift + 7;
    }
  }

  lemma ScanBegins(data: seq<Byte>, start: nat)
    requires start <= |data|
    ensures Pow2(0) == 1 && Continues(data, start, start, 0)
  {
  }

  /** What a scan from byte `k` on comes to, on top of the `sum` of the bytes before. */
  ghost function OnTop(sum: nat, k: nat, rest: Scan): Scan {
    match rest
    case Scanned(raw, n) => Scanned(sum + Weigh(raw, 7 * k), k + n)
    case ScanError(e) => ScanError(e)
  }

  /** Having read `data[start..i]` worth `sum`, the scan from `start` is the scan from `i` put on top of `sum`. */
  ghost predicate Continues(data: seq<Byte>, start: nat, i: nat, sum: nat)
    requires start <= i <= |data|
  {
    ScanVarint(data[start..]) == OnTop(sum, i - start, ScanVarint(data[i..], i - start))
  }

  lemma ContinueScan(data: seq<Byte>, start: nat, i: nat, sum: nat)
    requires start <= i < |data| && i - start < MAX_VARINT_BYTES
    requires Continues(data, start, i, sum)
    ensures var b := data[i];
            var sum' := sum + Weigh(b % 128, 7 * (i - start));
            if b < 128 then ScanVarint(data[start..]) == Scanned(sum', i + 1 - start)
            else Continues(data, start, i + 1, sum')
  {
    hide Weigh, ScanVarint;
    assert data[i..][1..] == data[i + 1..];
    OnTopOfByte(sum, i - start, data[i..]);
  }

  lemma OnTopOfByte(sum: nat, k: nat, s: seq<Byte>)
    requires s != [] && k < MAX_VARINT_BYTES
    ensures var sum' := sum + Weigh(s[0] % 128, 7 * k);
            OnTop(sum, k, ScanVarint(s, k))
            == if s[0] < 128 then Scanned(sum', k + 1) else OnTop(sum', k + 1, ScanVarint(s[1..], k + 1))
  {
    hide Weigh;
    var rest := ScanVarint(s[1..], k + 1);
    if rest.Scanned? {
      WeighAdds(s[0] % 128, 128 * rest.raw, 7 * k);
      WeighSeptet(rest.raw, 7 * k);
    }
  }

  /** What the bytes of a varint are worth up to its end, or to where it is cut off. */
  function Septets(s: seq<Byte>, k: nat := 0): nat
    decreases |s|
  {
    if k >= MAX_VARINT_BYTES || s == [] then 0
    else s[0] % 128 + if s[0] < 128 then 0 else 128 * Septets(s[1..], k + 1)
  }

  lemma {:induction false} SeptetsOfVarint(s: seq<Byte>, k: nat)
    requires ScanVarint(s, k).Scanned?
    ensures Septets(s, k) == ScanVarint(s, k).raw
    decreases |s|
  {
    if s[0] >= 128 {
      SeptetsOfVarint(s[1..], k + 1);
    }
  }

  /** One more byte of a varint of which those before it are worth `sum`. */
  lemma SeptetsStep(sum: nat, k: nat, s: seq<Byte>)
    requires s != [] && k < MAX_VARINT_BYTES
    ensures sum + Weigh(Septets(s, k), 7 * k)
            == sum + Weigh(s[0] % 128, 7 * k) + if s[0] < 128 then 0 else Weigh(Septets(s[1..], k + 1), 7 * (k + 1))
  {
    hide Weigh;
    if s[0] >= 128 {
      WeighAdds(s[0] % 128, 128 * Septets(s[1..], k + 1), 7 * k);
      WeighSeptet(Septets(s[1..], k + 1), 7 * k);
    }
  }

  lemma {:induction false} WeighZero(n: nat)
    ensures Weigh(0, n) == 0
  {
    if n != 0 {
      WeighZero(n - 1);
    }
  }

  lemma AccumulateByte(sum: nat, b: nat, shift: nat, width: nat)
    requires sum < Pow2(shift) && b < 128
    ensures BitOr(Truncate(sum, width), ShiftLeft(b, shift, width)) == Truncate(sum + Weigh(b, shift), width)
    ensures sum + Weigh(b, shift) < Pow2(shift + 7)
  {
    OrTruncates(sum, Weigh(b, shift), width);
    OrDisjoint(sum, b, shift);
    WeighAdds(b, 1, shift);
    WeighAdds(b + 1, 127 - b, shift);
    WeighSeptet(1, shift);
  }

  /** `sov`: how many bytes `Encode` takes. */
  method Sov(x: UInt64) returns (n: nat)
    ensures n == |Encode(x)|
  {
    n := 0;
    var v: nat := x;
    while true
      invariant n + |Encode(v)| == |Encode(x)|
      decreases v
    {
      n := n + 1;
      if v < 128 {
        return;
      }
      v := v / 128;
    }
  }

  /** `s` with the bytes from `offset` on overwritten by `bytes`. */
  function Splice(s: seq<Byte>, offset: nat, bytes: seq<Byte>): (r: seq<Byte>)
    requires offset + |bytes| <= |s|
    ensures |r| == |s|
  {
    s[..offset] + bytes + s[offset + |bytes|..]
  }

  /** `encodeVarint`: writes the bytes of `v` at `offset` and nothing else. */
  method EncodeVarint(buffer: array<Byte>, offset: nat, v: UInt64) returns (end: nat)
    requires offset + |Encode(v)| <= buffer.Length
    modifies buffer
    ensures end == offset + |Encode(v)|
    ensures buffer[..] == Splice(old(buffer[..]), offset, Encode(v))
  {
    var rest: nat := v;
    end := offset;
    ghost var before := buffer[..];
    while rest >= 128
      invariant offset <= end && end + |Encode(rest)| == offset + |Encode(v)|
      invariant buffer[..] == before[..offset] + Encode(v)[..end - offset] + before[end..]
      invariant Encode(v)[end - offset..] == Encode(rest)
      decreases rest
    {
      assert Encode(rest)[1..] == Encode(rest / 128);
      buffer[end] := rest % 128 + 128;
      rest := rest / 128;
      end := end + 1;
    }
    buffer[end] := rest;
    end := end + 1;
  }

  /** An encoding can be read back whatever follows it. */
  lemma {:induction false} ScanEncoded(v: nat, rest: seq<Byte>, k: nat)
    requires k + |Encode(v)| <= MAX_VARINT_BYTES
    ensures ScanVarint(Encode(v) + rest, k) == Scanned(v, |Encode(v)|)
  {
    if v < 128 {
    } else {
      ScanEncoded(v / 128, rest, k + 1);
      assert (Encode(v) + rest)[1..] == Encode(v / 128) + rest;
    }
  }

  lemma {:induction false} EncodeLength(v: nat, n: nat)
    requires v < Pow2(7 * n) && n >= 1
    ensures |Encode(v)| <= n
  {
    if v >= 128 {
      PowersOfTwo();
      WeighSeptet(1, 7 * (n - 1));
      EncodeLength(v / 128, n - 1);
    }
  }

  /** Every uint64 takes at most ten bytes and survives encoding and decoding, whatever follows. */
  lemma VarintRoundTrip(v: UInt64, rest: seq<Byte>)
    ensures |Encode(v)| <= MAX_VARINT_BYTES
    ensures Decoded(Encode(v) + rest, 64) == Value(v, |Encode(v)|)
  {
    PowersOfTwo();
    EncodeLength(v, MAX_VARINT_BYTES);
    ScanEncoded(v, rest, 0);
    TruncateSmall(v, 64);
  }

  lemma SignBits(low: nat)
    requires low < TWO_32
    ensures Truncate(low + TWO_64 - TWO_32, 32) == low
  {
    PowersOfTwo();
    var high := TWO_32 - 1;
    WeighAdds(high, 1, 32);
    WeighComposes(1, 32, 32);
    TruncateDropsHighBits(low, high, 32);
    TruncateSmall(low, 32);
  }

  /** An int32 is sign-extended to 64 bits, written, and truncated back to 32 bits by a 32-bit accumulator. */
  lemma EnumRoundTrip(x: Int32, rest: seq<Byte>)
    ensures var r := Decoded(Encode(SignExtend(x)) + rest, 32);
            r.Value? && ToInt32(r.value) == x && r.next == |Encode(SignExtend(x))|
  {
    VarintRoundTrip(SignExtend(x), rest);
    ScanEncoded(SignExtend(x), rest, 0);
    PowersOfTwo();
    var low := if x >= 0 then x else x + TWO_32;
    TruncateSmall(low, 32);
    SignBits(low);
  }

  /** A successful scan does not depend on what follows the bytes it read. */
  lemma {:induction false} ScanIsLocal(s: seq<Byte>, t: seq<Byte>, k: nat)
    requires var r := ScanVarint(s, k); r.Scanned? && r.n <= |t| && s[..r.n] == t[..r.n]
    ensures ScanVarint(t, k) == ScanVarint(s, k)
  {
    var n := ScanVarint(s, k).n;
    assert s[0] == s[..n][0] == t[..n][0] == t[0];
    if s[0] >= 128 {
      assert s[1..][..n - 1] == s[..n][1..] == t[..n][1..] == t[1..][..n - 1];
      ScanIsLocal(s[1..], t[1..], k + 1);
    }
  }

  /** A varint cannot be read exactly if ten bytes go on, or all there are, if fewer. */
  lemma {:induction false} ScanFailsExactly(s: seq<Byte>, k: nat)
    requires k <= 10
    ensures ScanVarint(s, k) == ScanError(IntOverflow) <==> |s| >= 10 - k && forall i | 0 <= i < 10 - k :: s[i] >= 128
    ensures ScanVarint(s, k) == ScanError(UnexpectedEOF) <==> |s| < 10 - k && forall i | 0 <= i < |s| :: s[i] >= 128
    ensures ScanVarint(s, k).ScanError? ==> ScanVarint(s, k).error in {IntOverflow, UnexpectedEOF}
    decreases |s|
  {
    if k < 10 && s != [] && s[0] >= 128 {
      ScanFailsExactly(s[1..], k + 1);
      assert forall i | 1 <= i < |s| :: s[i] == s[1..][i - 1];
    }
  }
}
