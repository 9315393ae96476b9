/**
 Machine integers: the bit operations the wire codec performs, written out over `int` with explicit widths.

 Shifting and truncating are defined bit by bit, which keeps every proof about them linear.
 */
module Bits {
  type Byte = x: int | 0 <= x < 256

  const MAX_INT64 := 0x7fff_ffff_ffff_ffff
  const TWO_64 := 0x1_0000_0000_0000_0000
  const TWO_32 := 0x1_0000_0000

  type UInt64 = x: int | 0 <= x < TWO_64
  type Int64 = x: int | -MAX_INT64 - 1 <= x <= MAX_INT64
  type Int32 = x: int | -0x8000_0000 <= x < 0x8000_0000

  /** Bitwise or. */
  function BitOr(a: nat, b: nat): nat
    decreases a + b
  {
    if a == 0 && b == 0 then 0
    else (if a % 2 == 1 || b % 2 == 1 then 1 else 0) + 2 * BitOr(a / 2, b / 2)
  }

  /** `x` moved up by `s` bits, keeping every bit. */
  function Weigh(x: nat, s: nat): (r: nat)
    ensures x <= r
  {
    if s == 0 then x else 2 * Weigh(x, s - 1)
  }

  function Pow2(n: nat): nat {
    Weigh(1, n)
  }

  /** The low `width` bits of `x`. */
  function Truncate(x: nat, width: nat): (r: nat)
    ensures r < Pow2(width)
  {
    if width == 0 then 0 else x % 2 + 2 * Truncate(x / 2, width - 1)
  }

  /** `x << s` kept to `width` bits: the bits shifted out are lost. */
  function ShiftLeft(x: nat, s: nat, width: nat): nat {
    Truncate(Weigh(x, s), width)
  }

  /** A 64-bit pattern read as a Go `int`. */
  function ToInt64(x: UInt64): Int64 {
    if x <= MAX_INT64 then x else x - TWO_64
  }

  /** The low 32 bits of a pattern, read as a Go `int32`. */
  function ToInt32(x: nat): Int32 {
    PowersOfTwo();
    var low := Truncate(x, 32);
    if low < 0x8000_0000 then low else low - TWO_32
  }

  /** `uint64(x)` of a Go `int32`: sign extension. */
  function SignExtend(x: Int32): UInt64 {
    if x >= 0 then x else x + TWO_64
  }

  /** Go's `int` addition, which wraps around. */
  function WrapAdd(a: Int64, b: Int64): Int64 {
    var sum := a + b;
    if sum > MAX_INT64 then sum - TWO_64 else if sum < -MAX_INT64 - 1 then sum + TWO_64 else sum
  }

  lemma {:induction false} WeighAdds(x: nat, y: nat, s: nat)
    ensures Weigh(x + y, s) == Weigh(x, s) + Weigh(y, s)
  {
    if s != 0 {
      WeighAdds(x, y, s - 1);
    }
  }

  lemma {:induction false} WeighDouble(x: nat, s: nat)
    ensures Weigh(2 * x, s) == Weigh(x, s + 1)
  {
    if s != 0 {
      WeighDouble(x, s - 1);
    }
  }

  /** One varint byte carries seven bits. */
  lemma WeighSeptet(x: nat, s: nat)
    ensures Weigh(128 * x, s) == Weigh(x, s + 7) == 128 * Weigh(x, s)
  {
    WeighDouble(x, s + 6);
    WeighDouble(2 * x, s + 5);
    WeighDouble(4 * x, s + 4);
    WeighDouble(8 * x, s + 3);
    WeighDouble(16 * x, s + 2);
    WeighDouble(32 * x, s + 1);
    WeighDouble(64 * x, s);
    assert Weigh(x, s + 1) == 2 * Weigh(x, s);
    assert Weigh(x, s + 2) == 4 * Weigh(x, s);
    assert Weigh(x, s + 3) == 8 * Weigh(x, s);
    assert Weigh(x, s + 4) == 16 * Weigh(x, s);
    assert Weigh(x, s + 5) == 32 * Weigh(x, s);
  }

  lemma {:induction false} WeighComposes(x: nat, s: nat, t: nat)
    ensures Weigh(Weigh(x, s), t) == Weigh(x, s + t)
  {
    if t != 0 {
      WeighComposes(x, s, t - 1);
    }
  }

  lemma PowersOfTwo()
    ensures Pow2(7) == 128 && Pow2(32) == TWO_32 && Pow2(64) == TWO_64 && Pow2(70) > TWO_64
  {
    hide Weigh, Pow2;
    Pow2Steps(0);
    Pow2Steps(4);
    Pow2Steps(11);
    Pow2Steps(18);
    Pow2Steps(25);
    Pow2Steps(32);
    Pow2Steps(39);
    Pow2Steps(46);
    Pow2Steps(53);
    Pow2Steps(60);
    Pow2Steps(63);
  }

  lemma Pow2Steps(n: nat)
    ensures Pow2(0) == 1 && Pow2(n + 1) == 2 * Pow2(n)
    ensures Pow2(n + 4) == 16 * Pow2(n) && Pow2(n + 7) == 128 * Pow2(n)
  {
    WeighSeptet(1, n);
    assert Weigh(1, n + 2) == 4 * Weigh(1, n);
    assert Weigh(1, n + 4) == 4 * Weigh(1, n + 2);
  }

  lemma {:induction false} TruncateSmall(x: nat, width: nat)
    requires x < Pow2(width)
    ensures Truncate(x, width) == x
  {
    if width != 0 {
      TruncateSmall(x / 2, width - 1);
    }
  }

  lemma {:induction false} TruncateDropsHighBits(x: nat, high: nat, width: nat)
    ensures Truncate(x + Weigh(high, width), width) == Truncate(x, width)
  {
    if width != 0 {
      TruncateDropsHighBits(x / 2, high, width - 1);
      assert (x + Weigh(high, width)) / 2 == x / 2 + Weigh(high, width - 1);
    }
  }

  /** Truncating to a width commutes with or. */
  lemma {:induction false} OrTruncates(a: nat, b: nat, n: nat)
    ensures BitOr(Truncate(a, n), Truncate(b, n)) == Truncate(BitOr(a, b), n)
  {
    if n != 0 {
      TruncateStep(a, n);
      TruncateStep(b, n);
      TruncateStep(BitOr(a, b), n);
      OrStep(a, b);
      OrStep(Truncate(a, n), Truncate(b, n));
      OrTruncates(a / 2, b / 2, n - 1);
      hide BitOr, Truncate;
    } else {
      assert BitOr(0, 0) == 0;
    }
  }

  lemma TruncateStep(x: nat, n: nat)
    requires n > 0
    ensures Truncate(x, n) / 2 == Truncate(x / 2, n - 1) && Truncate(x, n) % 2 == x % 2
  {
  }

  lemma OrStep(a: nat, b: nat)
    ensures BitOr(a, b) / 2 == BitOr(a / 2, b / 2)
    ensures BitOr(a, b) % 2 == if a % 2 == 1 || b % 2 == 1 then 1 else 0
  {
  }

  lemma {:induction false} OrZero(b: nat)
    ensures BitOr(0, b) == b
  {
    if b != 0 {
      OrZero(b / 2);
    }
  }

  /** Or of numbers with disjoint bits is addition. */
  lemma {:induction false} OrDisjoint(a: nat, c: nat, k: nat)
    requires a < Pow2(k)
    ensures BitOr(a, Weigh(c, k)) == a + Weigh(c, k)
  {
    if k == 0 {
      OrZero(c);
    } else {
      OrDisjoint(a / 2, c, k - 1);
    }
  }

  // ---- The same in numbers

  lemma {:induction false} WeighIsProduct(x: nat, s: nat)
    ensures Weigh(x, s) == x * Pow2(s)
  {
    if s != 0 {
      WeighIsProduct(x, s - 1);
    }
  }

  /** Truncating takes the remainder. */
  lemma {:induction false} TruncateIsRemainder(x: nat, width: nat) returns (high: nat)
    ensures x == Truncate(x, width) + high * Pow2(width) && Truncate(x, width) < Pow2(width)
    decreases width
  {
    if width == 0 {
      high := x;
    } else {
      high := TruncateIsRemainder(x / 2, width - 1);
      WeighIsProduct(high, width - 1);
      WeighIsProduct(high, width);
    }
  }

  /** Reading as an `int32` changes a number by a multiple of 2^32 only. */
  lemma ToInt32IsCongruent(x: nat) returns (high: int)
    ensures x == ToInt32(x) + high * 0x1_0000_0000
  {
    high := TruncateIsRemainder(x, 32);
    PowersOfTwo();
    if Truncate(x, 32) >= 0x8000_0000 {
      high := high + 1;
    }
  }

  /** Addition wraps around at 2^64, as do reading as an `int` and sign extension. */
  lemma WrapsAround(a: Int64, b: Int64, x: UInt64, y: Int32)
    ensures WrapAdd(a, b) in {a + b, a + b - 0x1_0000_0000_0000_0000, a + b + 0x1_0000_0000_0000_0000}
    ensures ToInt64(x) in {x, x - 0x1_0000_0000_0000_0000} && SignExtend(y) in {y, y + 0x1_0000_0000_0000_0000}
  {
  }
}
