/**
 Groups as the standard has them (Protocol Buffers Encoding, "Groups"): the tag that ends a group carries the number
 of the tag that began it. The generated code does not compare the two.
 */
module Groups {
  import opened Options
  import opened Bits
  import opened Varints
  import opened Skipping

  /** The length of the well-formed field at the front of `s`, if there is one. */
  function StandardSkip(s: seq<Byte>): (r: Option<nat>)
    requires 0 < |s| <= MAX_INT64
    ensures r.Some? ==> 1 <= r.value <= |s|
    decreases |s|, |s| + 1
  {
    match Decoded(s, 64)
    case Bad(_) => None
    case Value(tag, i) =>
      match tag % 8
      case 0 => Inside(s, SkipVarint(s, i))
      case 1 => Inside(s, Skipped(WrapAdd(i, 8)))
      case 2 => Inside(s, SkipBytes(s, i))
      case 3 => StandardGroup(s, i, tag / 8)
      case 5 => Inside(s, Skipped(WrapAdd(i, 4)))
      case _ => None
  }

  function Inside(s: seq<Byte>, r: Skipped): Option<nat> {
    if r.Skipped? && 1 <= r.n <= |s| then Some(r.n) else None
  }

  /** Fields from index `i` on, up to the tag that ends the group with this number. */
  function StandardGroup(s: seq<Byte>, i: nat, number: nat): (r: Option<nat>)
    requires 1 <= i <= |s| <= MAX_INT64
    ensures r.Some? ==> i < r.value <= |s|
    decreases |s|, |s| - i
  {
    match Decoded(s[i..], 64)
    case Bad(_) => None
    case Value(tag, n) =>
      if tag % 8 == 4 then if tag / 8 == number then Some(i + n) else None
      else
        match StandardSkip(s[i..])
        case None => None
        case Some(m) => StandardGroup(s, i + m, number)
  }

  // ---- What the generated code accepts

  /** The groups that are skipped: the number of each, and that of the tag it is taken to end with. */
  function GroupEnds(s: seq<Byte>): seq<(nat, nat)>
    requires 0 < |s| <= MAX_INT64
    decreases |s|, |s| + 1
  {
    match Decoded(s, 64)
    case Bad(_) => []
    case Value(tag, i) => if tag % 8 == 3 then GroupEndsFrom(s, i, tag / 8) else []
  }

  function GroupEndsFrom(s: seq<Byte>, i: nat, number: nat): seq<(nat, nat)>
    requires 1 <= i <= |s| <= MAX_INT64
    decreases |s|, |s| - i
  {
    match Decoded(s[i..], 64)
    case Bad(_) => []
    case Value(tag, n) =>
      if tag % 8 == 4 then [(number, tag / 8)]
      else
        var inner := Skip(s[i..]);
        GroupEnds(s[i..])
        + if inner.Skipped? && 1 <= inner.n <= |s| - i then GroupEndsFrom(s, i + inner.n, number) else []
  }

  predicate AllMatch(ends: seq<(nat, nat)>) {
    forall k | 0 <= k < |ends| :: ends[k].0 == ends[k].1
  }

  /** No caller skips a tag that ends a group. */
  predicate StartsField(s: seq<Byte>) {
    var tag := Decoded(s, 64);
    tag.Value? && tag.value % 8 != 4
  }

  /**
   A field that the code skips inside the data is a field of the standard, of the same length, if and only if every
   group in it ends with its own number; otherwise it is none at all.
   */
  lemma {:induction false} SkipIsStandard(s: seq<Byte>, n: nat)
    requires 0 < |s| <= MAX_INT64 && n <= |s| && Skip(s) == Skipped(n) && StartsField(s)
    ensures StandardSkip(s) == if AllMatch(GroupEnds(s)) then Some(n) else None
    decreases |s|, |s| + 1
  {
    var tag := Decoded(s, 64);
    if tag.value % 8 == 3 {
      GroupIsStandard(s, tag.next, tag.value / 8, n);
    }
  }

  lemma {:induction false} GroupIsStandard(s: seq<Byte>, i: nat, number: nat, n: nat)
    requires 1 <= i <= |s| <= MAX_INT64 && n <= |s| && SkipGroup(s, i) == Skipped(n)
    ensures StandardGroup(s, i, number) == if AllMatch(GroupEndsFrom(s, i, number)) then Some(n) else None
    decreases |s|, |s| - i
  {
    hide Skip, SkipGroup, Decoded, StandardSkip, StandardGroup, GroupEnds, GroupEndsFrom, AllMatch;
    TagInGroup(s, i, n);
    if Decoded(s[i..], 64).value % 8 == 4 {
      EndOfGroup(s, i, number, n);
    } else {
      InnerFieldIsInside(s, i, n);
      var m := Skip(s[i..]).n;
      SkipIsStandard(s[i..], m);
      GroupIsStandard(s, i + m, number, n);
      EndsOfField(s, i, number, m);
      StandardField(s, i, number);
      MatchBoth(GroupEnds(s[i..]), GroupEndsFrom(s, i + m, number));
    }
  }

  lemma TagInGroup(s: seq<Byte>, i: nat, n: nat)
    requires 1 <= i <= |s| <= MAX_INT64 && n <= |s| && SkipGroup(s, i) == Skipped(n)
    ensures i < |s| && Decoded(s[i..], 64).Value?
  {
  }

  lemma EndOfGroup(s: seq<Byte>, i: nat, number: nat, n: nat)
    requires 1 <= i < |s| <= MAX_INT64 && n <= |s| && SkipGroup(s, i) == Skipped(n)
    requires Decoded(s[i..], 64).Value? && Decoded(s[i..], 64).value % 8 == 4
    ensures StandardGroup(s, i, number) == if AllMatch(GroupEndsFrom(s, i, number)) then Some(n) else None
  {
    hide Decoded;
    var end := Decoded(s[i..], 64).value / 8;
    assert GroupEndsFrom(s, i, number) == [(number, end)];
    assert [(number, end)][0] == (number, end);
  }

  /** One field of a group, and then the rest of the group. */
  lemma EndsOfField(s: seq<Byte>, i: nat, number: nat, m: nat)
    requires 1 <= i < |s| <= MAX_INT64 && 1 <= m <= |s| - i && Skip(s[i..]) == Skipped(m)
    requires Decoded(s[i..], 64).Value? && Decoded(s[i..], 64).value % 8 != 4
    ensures GroupEndsFrom(s, i, number) == GroupEnds(s[i..]) + GroupEndsFrom(s, i + m, number)
  {
    hide Decoded, Skip, GroupEnds;
  }

  lemma StandardField(s: seq<Byte>, i: nat, number: nat)
    requires 1 <= i < |s| <= MAX_INT64 && Decoded(s[i..], 64).Value? && Decoded(s[i..], 64).value % 8 != 4
    ensures StandardGroup(s, i, number)
            == match StandardSkip(s[i..])
               case None => None
               case Some(m) => StandardGroup(s, i + m, number)
  {
    hide Decoded, StandardSkip;
  }

  lemma MatchBoth(xs: seq<(nat, nat)>, ys: seq<(nat, nat)>)
    ensures AllMatch(xs + ys) <==> AllMatch(xs) && AllMatch(ys)
  {
    if AllMatch(xs + ys) {
      assert forall k | 0 <= k < |xs| :: xs[k] == (xs + ys)[k];
      assert forall k | 0 <= k < |ys| :: ys[k] == (xs + ys)[|xs| + k];
    }
  }

  /** Group 20, ended by the tag of group 21. */
  const MISMATCHED: seq<Byte> := [0xA3, 0x01, 0xAC, 0x01]

  lemma MismatchedIsSkipped()
    ensures Skip(MISMATCHED) == Skipped(4) && StandardSkip(MISMATCHED) == None
    ensures Decoded(MISMATCHED, 64) == Value(8 * 20 + 3, 2)
  {
    PowersOfTwo();
    TruncateSmall(163, 64);
    TruncateSmall(172, 64);
    assert MISMATCHED[1..] == [0x01, 0xAC, 0x01] && MISMATCHED[2..] == [0xAC, 0x01] && MISMATCHED[2..][1..] == [0x01];
    assert ScanVarint(MISMATCHED[1..], 1) == Scanned(1, 1);
    assert ScanVarint(MISMATCHED[2..][1..], 1) == Scanned(1, 1);
    assert Decoded(MISMATCHED, 64) == Value(163, 2);
    assert Decoded(MISMATCHED[2..], 64) == Value(172, 2);
    assert SkipGroup(MISMATCHED, 2) == Skipped(4);
  }
}
