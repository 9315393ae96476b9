/**
 Skipping one field of unknown number (Protocol Buffers Encoding, "Message Structure" and "Groups").

 `Skip` says what `skipIstiocontrolplaneTypes` returns, wrap-around included: the result may exceed the data, or, for
 data as long as the largest Go `int`, be negative. Its callers check for both.
 */
module Skipping {
  import opened Bits
  import opened Varints

  datatype Skipped = Skipped(n: Int64) | SkipError(error: Error)

  function From(s: seq<Byte>, i: nat): (t: seq<Byte>)
    ensures |t| <= |s|
  {
    if i <= |s| then s[i..] else []
  }

  /**
   A result inside the range of `int`, or one that wrapped around because a fixed-size field was added near its top.
   */
  predicate Plausible(n: Int64, length: nat) {
    1 <= n <= MAX_INT64 || (-MAX_INT64 - 1 <= n < 0 && n + TWO_64 <= length + 8)
  }

  function Skip(s: seq<Byte>): (r: Skipped)
    requires 0 < |s| <= MAX_INT64
    ensures r.Skipped? ==> Plausible(r.n, |s|) && ScanVarint(s).Scanned? && (r.n >= 0 ==> ScanVarint(s).n <= r.n)
    decreases |s|, |s| + 1
  {
    match Decoded(s, 64)
    case Bad(e) => SkipError(e)
    case Value(tag, i) =>
      match tag % 8
      case 0 => SkipVarint(s, i)
      case 1 => Skipped(WrapAdd(i, 8))
      case 2 => SkipBytes(s, i)
      case 3 => SkipGroup(s, i)
      case 4 => Skipped(i)
      case 5 => Skipped(WrapAdd(i, 4))
      case w => SkipError(IllegalWireType(w))
  }

  function SkipVarint(s: seq<Byte>, i: nat): (r: Skipped)
    requires i <= |s| <= MAX_INT64
    ensures r.Skipped? ==> i < r.n <= |s|
  {
    match ScanVarint(s[i..])
    case ScanError(e) => SkipError(e)
    case Scanned(_, n) => Skipped(i + n)
  }

  function SkipBytes(s: seq<Byte>, i: nat): (r: Skipped)
    requires i <= |s| <= MAX_INT64
    ensures r.Skipped? ==> i < r.n <= MAX_INT64
  {
    match Decoded(s[i..], 64)
    case Bad(e) => SkipError(e)
    case Value(v, n) =>
      PowersOfTwo();
      var length := ToInt64(v);
      if length < 0 then SkipError(InvalidLength)
      else
        var end := WrapAdd(i + n, length);
        if end < 0 then SkipError(InvalidLength) else Skipped(end)
  }

  /** Inside a group, from index `i` on: fields are skipped until an end-group tag. */
  function SkipGroup(s: seq<Byte>, i: nat): (r: Skipped)
    requires 1 <= i <= MAX_INT64 && 0 < |s| <= MAX_INT64
    ensures r.Skipped? ==> i < r.n <= |s|
    decreases |s|, if i <= |s| then |s| - i else 0
  {
    match Decoded(From(s, i), 64)
    case Bad(e) => SkipError(e)
    case Value(tag, n) =>
      if tag % 8 == 4 then Skipped(i + n)
      else
        var inner := Skip(s[i..]);
        if inner.SkipError? then inner
        else
          var next := WrapAdd(i, inner.n);
          if next < 0 then SkipError(InvalidLength) else SkipGroup(s, next)
  }

  /** `skipIstiocontrolplaneTypes`. Non-empty data is what keeps its final `panic` out of reach. */
  method SkipField(data: seq<Byte>) returns (r: Skipped)
    requires 0 < |data| <= MAX_INT64
    ensures r == Skip(data)
    decreases |data|, 1
  {
    assert data[0..] == data;
    var tag := DecodeVarint(data, 0, 64);
    if tag.Bad? {
      return SkipError(tag.error);
    }
    var i := tag.next;
    match tag.value % 8 {
      case 0 =>
        r := SkipVarintLoop(data, i);
      case 1 =>
        r := Skipped(WrapAdd(i, 8));
      case 2 =>
        var length := DecodeVarint(data, i, 64);
        if length.Bad? {
          return SkipError(length.error);
        }
        PowersOfTwo();
        if ToInt64(length.value) < 0 {
          return SkipError(InvalidLength);
        }
        i := WrapAdd(length.next, ToInt64(length.value));
        r := if i < 0 then SkipError(InvalidLength) else Skipped(i);
      case 3 =>
        r := SkipGroupLoop(data, i);
      case 4 =>
        r := Skipped(i);
      case 5 =>
        r := Skipped(WrapAdd(i, 4));
      case w =>
        r := SkipError(IllegalWireType(w));
    }
  }

  method SkipVarintLoop(data: seq<Byte>, start: nat) returns (r: Skipped)
    requires start <= |data| <= MAX_INT64
    ensures r == SkipVarint(data, start)
  {
    var shift, i := 0, start;
    while true
      invariant start <= i <= |data| && shift == 7 * (i - start) <= 70
      invariant SkipVarint(data, start) == match ScanVarint(data[i..], i - start)
                                           case Scanned(_, n) => Skipped(i + n)
                                           case ScanError(e) => SkipError(e)
      decreases |data| - i
    {
      if shift >= 64 {
        return SkipError(IntOverflow);
      }
      if i >= |data| {
        return SkipError(UnexpectedEOF);
      }
      i := i + 1;
      assert data[i - 1..][1..] == data[i..];
      if data[i - 1] < 128 {
        return Skipped(i);
      }
      shift := shift + 7;
    }
  }

  method SkipGroupLoop(data: seq<Byte>, first: nat) returns (r: Skipped)
    requires 1 <= first <= |data| <= MAX_INT64
    ensures r == SkipGroup(data, first)
    decreases |data|, 0
  {
    var i := first;
    while true
      invariant 1 <= i <= MAX_INT64
      invariant SkipGroup(data, i) == SkipGroup(data, first)
      decreases if i <= |data| then |data| - i else 0
    {
      var start := i;
      if i >= |data| {
        return SkipError(UnexpectedEOF);
      }
      var inner := DecodeVarint(data, i, 64);
      if inner.Bad? {
        return SkipError(inner.error);
      }
      if inner.value % 8 == 4 {
        return Skipped(inner.next);
      }
      var next := SkipField(data[start..]);
      if next.SkipError? {
        return next;
      }
      i := WrapAdd(start, next.n);
      if i < 0 {
        return SkipError(InvalidLength);
      }
    }
  }

  /** A skip that stays inside its data does not depend on the bytes after those it skipped. */
  lemma {:induction false} SkipIsLocal(s: seq<Byte>, t: seq<Byte>, n: nat)
    requires 0 < |s| <= MAX_INT64 && n <= |t| <= MAX_INT64
    requires Skip(s) == Skipped(n) && n <= |s| && s[..n] == t[..n]
    ensures Skip(t) == Skipped(n)
    decreases |s|, |s| + 1
  {
    var tag := ScanVarint(s);
    TruncatedScanIsLocal(s, t, 0, n);
    var i := tag.n;
    match Truncate(tag.raw, 64) % 8
    case 0 => TruncatedScanIsLocal(s, t, i, n);
    case 2 => TruncatedScanIsLocal(s, t, i, n);
    case 3 => SkipGroupIsLocal(s, t, i, n);
    case _ =>
  }

  lemma TruncatedScanIsLocal(s: seq<Byte>, t: seq<Byte>, i: nat, n: nat)
    requires i <= n <= |s| && n <= |t| && s[..n] == t[..n]
    requires var r := ScanVarint(s[i..]); r.Scanned? && i + r.n <= n
    ensures ScanVarint(t[i..]) == ScanVarint(s[i..])
    ensures i == 0 ==> s[i..] == s && t[i..] == t
  {
    var m := ScanVarint(s[i..]).n;
    assert s[i..][..m] == s[..n][i..i + m] == t[..n][i..i + m] == t[i..][..m];
    ScanIsLocal(s[i..], t[i..], 0);
  }

  lemma {:induction false} SkipGroupIsLocal(s: seq<Byte>, t: seq<Byte>, i: nat, n: nat)
    requires 0 < |s| <= MAX_INT64 && n <= |t| <= MAX_INT64 && 1 <= i <= MAX_INT64
    requires SkipGroup(s, i) == Skipped(n) && n <= |s| && s[..n] == t[..n]
    ensures SkipGroup(t, i) == Skipped(n)
    decreases |s|, if i <= |s| then |s| - i else 0
  {
    hide Skip, SkipGroup, Decoded;
    GroupTagIsLocal(s, t, i, n);
    if Decoded(s[i..], 64).value % 8 != 4 {
      InnerFieldIsInside(s, i, n);
      var m := Skip(s[i..]).n;
      SliceOfPrefix(s, t, n, i, i + m);
      SkipIsLocal(s[i..], t[i..], m);
      SkipGroupIsLocal(s, t, i + m, n);
      SkipGroupStep(t, i, m);
    }
  }

  lemma GroupTagIsLocal(s: seq<Byte>, t: seq<Byte>, i: nat, n: nat)
    requires 0 < |s| <= MAX_INT64 && n <= |t| <= MAX_INT64 && 1 <= i <= MAX_INT64
    requires SkipGroup(s, i) == Skipped(n) && n <= |s| && s[..n] == t[..n]
    ensures i < n && Decoded(s[i..], 64).Value? && Decoded(t[i..], 64) == Decoded(s[i..], 64)
    ensures Decoded(s[i..], 64).value % 8 == 4 ==> SkipGroup(t, i) == Skipped(n)
  {
    hide Skip, ScanVarint;
    TruncatedScanIsLocal(s, t, i, n);
  }

  lemma SkipGroupStep(s: seq<Byte>, i: nat, m: nat)
    requires 0 < |s| <= MAX_INT64 && 1 <= i < |s| && 1 <= m && i + m <= MAX_INT64
    requires Decoded(s[i..], 64).Value? && Decoded(s[i..], 64).value % 8 != 4
    requires Skip(s[i..]) == Skipped(m)
    ensures SkipGroup(s, i) == SkipGroup(s, i + m)
  {
    assert WrapAdd(i, m) == i + m;
  }

  /** A group that ends inside the data consists of fields that do. */
  lemma InnerFieldIsInside(s: seq<Byte>, i: nat, n: nat)
    requires 0 < |s| <= MAX_INT64 && 1 <= i < |s| && n <= |s|
    requires SkipGroup(s, i) == Skipped(n) && Decoded(s[i..], 64).Value? && Decoded(s[i..], 64).value % 8 != 4
    ensures var inner := Skip(s[i..]);
            inner.Skipped? && 1 <= inner.n && i + inner.n < n && SkipGroup(s, i + inner.n) == Skipped(n)
  {
    var m := Skip(s[i..]).n;
    assert WrapAdd(i, m) == i + m;
  }

  lemma SliceOfPrefix(s: seq<Byte>, t: seq<Byte>, n: nat, i: nat, j: nat)
    requires i <= j <= n <= |s| && n <= |t| && s[..n] == t[..n]
    ensures s[i..][..j - i] == t[i..][..j - i]
  {
    assert s[i..][..j - i] == s[..n][i..j];
    assert t[i..][..j - i] == t[..n][i..j];
  }
}
