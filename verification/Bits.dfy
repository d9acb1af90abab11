/**
 Machine words as natural numbers, together with the bit-level meaning of the C operators that
 the bitmap, bit buffer, bit stream and WAH code applies to them.  Every operator is defined by
 recursion on the binary expansion, and each has one lemma that says what its individual bits are.
 */
module Bits {

  function Pow2(n: nat): (p: nat)
    ensures p > 0
  {
    if n == 0 then 1 else 2 * Pow2(n - 1)
  }

  const WORD: nat := 0x1_0000_0000_0000_0000

  /** Bit `i` of `x`, least significant first. */
  predicate Bit(x: nat, i: nat) {
    if i == 0 then x % 2 == 1 else Bit(x / 2, i - 1)
  }

  /** A run of `n` equal bits */
  function Same(b: bool, n: nat): (s: seq<bool>)
    ensures |s| == n && forall i | 0 <= i < n :: s[i] == b
  {
    seq(n, _ => b)
  }

  /** `x >> k` */
  function Shr(x: nat, k: nat): nat {
    if k == 0 then x else Shr(x / 2, k - 1)
  }

  /** `x << k`, before any truncation to a word width. */
  function Shl(x: nat, k: nat): nat {
    if k == 0 then x else 2 * Shl(x, k - 1)
  }

  /** `x & BITMASK_LT(n)`: the `n` low bits of `x`; also the truncation of `x` to `n` bits. */
  function Low(x: nat, n: nat): nat {
    if n == 0 then 0 else x % 2 + 2 * Low(x / 2, n - 1)
  }

  /** `x | y` */
  function Or(x: nat, y: nat): nat
    decreases x + y
  {
    if x == 0 then y
    else if y == 0 then x
    else (if x % 2 == 1 || y % 2 == 1 then 1 else 0) + 2 * Or(x / 2, y / 2)
  }

  /** `x & y` */
  function And(x: nat, y: nat): nat
    decreases x
  {
    if x == 0 then 0
    else (if x % 2 == 1 && y % 2 == 1 then 1 else 0) + 2 * And(x / 2, y / 2)
  }

  /** `x & ~y` */
  function AndNot(x: nat, y: nat): nat
    decreases x
  {
    if x == 0 then 0
    else (if x % 2 == 1 && y % 2 == 0 then 1 else 0) + 2 * AndNot(x / 2, y / 2)
  }

  /** The number whose binary expansion is `s`, least significant bit first. */
  function FromBits(s: seq<bool>): nat {
    if s == [] then 0 else (if s[0] then 1 else 0) + 2 * FromBits(s[1..])
  }

  /** The `n` low bits of `x`, least significant first. */
  function ToBits(x: nat, n: nat): (s: seq<bool>)
    ensures |s| == n
  {
    seq(n, i requires 0 <= i < n => Bit(x, i))
  }

  /** `bsf`: the index of the lowest set bit. */
  function Lsb(x: nat): (r: nat)
    requires x != 0
    ensures Bit(x, r)
    ensures forall j | 0 <= j < r :: !Bit(x, j)
  {
    if x % 2 == 1 then 0
    else
      var r := 1 + Lsb(x / 2);
      assert forall j | 0 < j < r :: Bit(x, j) == Bit(x / 2, j - 1);
      r
  }

  lemma {:induction false} BitZero(i: nat)
    ensures !Bit(0, i)
  {
    if i > 0 { BitZero(i - 1); }
  }

  lemma {:induction false} BitShr(x: nat, k: nat, i: nat)
    ensures Bit(Shr(x, k), i) == Bit(x, i + k)
    decreases k
  {
    if k > 0 { BitShr(x / 2, k - 1, i); }
  }

  lemma {:induction false} BitShl(x: nat, k: nat, i: nat)
    ensures Bit(Shl(x, k), i) == (i >= k && Bit(x, i - k))
    decreases k
  {
    if k > 0 && i > 0 { BitShl(x, k - 1, i - 1); }
  }

  lemma {:induction false} BitLow(x: nat, n: nat, i: nat)
    ensures Bit(Low(x, n), i) == (i < n && Bit(x, i))
    decreases n
  {
    if n == 0 {
      BitZero(i);
    } else if i > 0 {
      BitLow(x / 2, n - 1, i - 1);
      assert Low(x, n) / 2 == Low(x / 2, n - 1);
    }
  }

  lemma {:induction false} BitOr(x: nat, y: nat, i: nat)
    ensures Bit(Or(x, y), i) == (Bit(x, i) || Bit(y, i))
    decreases i
  {
    BitZero(i);
    if x != 0 && y != 0 && i > 0 {
      BitOr(x / 2, y / 2, i - 1);
      assert Or(x, y) / 2 == Or(x / 2, y / 2);
    }
  }

  lemma {:induction false} BitAnd(x: nat, y: nat, i: nat)
    ensures Bit(And(x, y), i) == (Bit(x, i) && Bit(y, i))
    decreases i
  {
    BitZero(i);
    if x != 0 && i > 0 {
      BitAnd(x / 2, y / 2, i - 1);
      assert And(x, y) / 2 == And(x / 2, y / 2);
    }
  }

  lemma {:induction false} AndSmaller(x: nat, y: nat)
    ensures And(x, y) <= x
    decreases x
  {
    if x != 0 { AndSmaller(x / 2, y / 2); }
  }

  lemma {:induction false} BitAndNot(x: nat, y: nat, i: nat)
    ensures Bit(AndNot(x, y), i) == (Bit(x, i) && !Bit(y, i))
    decreases i
  {
    BitZero(i);
    if x != 0 && i > 0 {
      BitAndNot(x / 2, y / 2, i - 1);
      assert AndNot(x, y) / 2 == AndNot(x / 2, y / 2);
    }
  }

  lemma {:induction false} BitFromBits(s: seq<bool>, i: nat)
    ensures Bit(FromBits(s), i) == (i < |s| && s[i])
    decreases i
  {
    if s == [] {
      BitZero(i);
    } else if i > 0 {
      BitFromBits(s[1..], i - 1);
      assert FromBits(s) / 2 == FromBits(s[1..]);
    }
  }

  /** A number below 2^n has no bit at or above `n`. */
  lemma {:induction false} BitAbove(x: nat, n: nat, i: nat)
    requires x < Pow2(n)
    requires i >= n
    ensures !Bit(x, i)
    decreases n
  {
    if n == 0 { BitZero(i); } else { BitAbove(x / 2, n - 1, i - 1); }
  }

  /** A number with no bit at or above `n` is below 2^n. */
  lemma {:induction false} BelowPow2(x: nat, n: nat)
    requires forall i | i >= n :: !Bit(x, i)
    ensures x < Pow2(n)
    decreases x, n
  {
    if x != 0 {
      if n == 0 {
        var i := Lsb(x);
      } else {
        forall i | i >= n - 1 ensures !Bit(x / 2, i) {
          assert Bit(x, i + 1) == Bit(x / 2, i);
        }
        BelowPow2(x / 2, n - 1);
      }
    }
  }

  /** Numbers with the same bits are equal. */
  lemma {:induction false} SameBits(x: nat, y: nat)
    requires forall i: nat :: Bit(x, i) == Bit(y, i)
    ensures x == y
    decreases x + y
  {
    if x != 0 || y != 0 {
      assert Bit(x, 0) == Bit(y, 0);
      forall i: nat ensures Bit(x / 2, i) == Bit(y / 2, i) {
        assert Bit(x, i + 1) == Bit(x / 2, i);
        assert Bit(y, i + 1) == Bit(y / 2, i);
      }
      SameBits(x / 2, y / 2);
    }
  }

  /** The two halves of a number cut at bit `n`. */
  lemma {:induction false} ShrLow(x: nat, n: nat)
    ensures x == Shr(x, n) * Pow2(n) + Low(x, n)
    ensures Low(x, n) < Pow2(n)
    decreases n
  {
    if n > 0 {
      ShrLow(x / 2, n - 1);
      DoubleProduct(Shr(x, n), Pow2(n - 1));
    }
  }

  lemma {:induction false} ShrAtMost(x: nat, k: nat)
    ensures Shr(x, k) <= x
    decreases k
  {
    if k > 0 { ShrAtMost(x / 2, k - 1); }
  }

  lemma {:induction false} Pow2Grows(a: nat, b: nat)
    requires a <= b
    ensures Pow2(a) <= Pow2(b)
    decreases b
  {
    if a < b { Pow2Grows(a, b - 1); }
  }

  lemma DoubleProduct(a: nat, p: nat)
    ensures a * (2 * p) == 2 * (a * p)
  {
  }

  lemma LowIsMod(x: nat, n: nat)
    ensures Low(x, n) == x % Pow2(n)
  {
    ShrLow(x, n);
    ModUnique(x, Pow2(n), Shr(x, n), Low(x, n));
  }

  lemma SmallMultiple(k: int, d: int)
    requires d > 0
    requires -d < k * d < d
    ensures k == 0
  {
    if k >= 1 {
      MulAtLeast(k, d);
    } else if k <= -1 {
      MulAtLeast(-k, d);
    }
  }

  lemma {:induction false} MulAtLeast(k: int, d: int)
    requires k >= 1 && d >= 0
    ensures k * d >= d
  {
    if k > 1 { MulAtLeast(k - 1, d); assert k * d == (k - 1) * d + d; }
  }

  lemma ModUnique(x: nat, d: nat, q: nat, r: nat)
    requires 0 <= r < d
    requires x == q * d + r
    ensures x % d == r
  {
    var q' := x / d;
    assert x == q' * d + x % d;
    assert (q - q') * d == q * d - q' * d;
    SmallMultiple(q - q', d);
  }

  /** Reading back the `n` bits of `x` gives `x` modulo 2^n. */
  lemma FromToBits(x: nat, n: nat)
    ensures FromBits(ToBits(x, n)) == Low(x, n) == x % Pow2(n)
  {
    forall i: nat ensures Bit(FromBits(ToBits(x, n)), i) == Bit(Low(x, n), i) {
      BitFromBits(ToBits(x, n), i);
      BitLow(x, n, i);
    }
    SameBits(FromBits(ToBits(x, n)), Low(x, n));
    LowIsMod(x, n);
  }

  lemma WordIsPow2()
    ensures Pow2(64) == WORD
  {
    assert Pow2(4) == 16;
    Pow2Twice(4, 16);
    Pow2Twice(8, 0x100);
    Pow2Twice(16, 0x1_0000);
    Pow2Twice(32, 0x1_0000_0000);
  }

  lemma Pow2Twice(a: nat, p: nat)
    requires Pow2(a) == p
    ensures Pow2(2 * a) == p * p
  {
    Pow2Sum(a, a);
  }

  lemma {:induction false} Pow2Sum(a: nat, b: nat)
    ensures Pow2(a + b) == Pow2(a) * Pow2(b)
    decreases a
  {
    if a > 0 { Pow2Sum(a - 1, b); }
  }
}
