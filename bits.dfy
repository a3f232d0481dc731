/**
 * Go's 64-bit integer arithmetic on Dafny's unbounded integers.
 *
 * A Go `int64` is kept as an `int` inside the int64 range; its bit pattern
 * (what `uint64(x)` yields) is `ToUint64(x)`. Shifts and the bitwise
 * operators `|`, `&` and `^` work on those patterns, defined bit by bit from
 * the least significant bit upwards, so that the layout facts of the ID
 * generator can be proved with ordinary arithmetic.
 */
module Bits {

  const Two64: nat := 0x1_0000_0000_0000_0000

  predicate IsInt64(x: int) {
    -0x8000_0000_0000_0000 <= x < 0x8000_0000_0000_0000
  }

  function Pow2(k: nat): (r: nat)
    ensures r >= 1
  {
    if k == 0 then 1 else 2 * Pow2(k - 1)
  }

  lemma {:induction false} Pow2Add(a: nat, b: nat)
    ensures Pow2(a + b) == Pow2(a) * Pow2(b)
  {
    if b > 0 {
      Pow2Add(a, b - 1);
      assert Pow2(a + b) == 2 * (Pow2(a) * Pow2(b - 1));
    }
  }

  lemma {:induction false} Pow2Mono(a: nat, b: nat)
    requires a <= b
    ensures Pow2(a) <= Pow2(b)
  {
    if a < b {
      Pow2Mono(a, b - 1);
    }
  }

  /** The powers of two that the bit layout uses. */
  lemma Pow2Values()
    ensures Pow2(1) == 2 && Pow2(2) == 4 && Pow2(3) == 8 && Pow2(6) == 64
    ensures Pow2(12) == 4096 && Pow2(13) == 8192 && Pow2(16) == 65536
    ensures Pow2(25) == 0x200_0000 && Pow2(39) == 0x80_0000_0000 && Pow2(64) == Two64
    ensures Pow2(62) == 0x4000_0000_0000_0000
  {
    Pow2Add(3, 3);
    Pow2Add(6, 6);
    Pow2Add(12, 1);
    Pow2Add(13, 3);
    assert Pow2(25) == 0x200_0000 by {
      Pow2Add(12, 13);
    }
    assert Pow2(26) == 0x400_0000 by {
      Pow2Add(13, 13);
    }
    assert Pow2(39) == 0x80_0000_0000 by {
      Pow2Add(26, 13);
    }
    assert Pow2(64) == Two64 by {
      Pow2Add(39, 25);
    }
    assert Pow2(62) == 0x4000_0000_0000_0000 by {
      Pow2Add(62, 2);
    }
  }

  /** Division and remainder are determined by any decomposition a == d * q + r with 0 <= r < d. */
  lemma DivModUnique(a: int, d: int, q: int, r: int)
    requires d > 0 && a == d * q + r && 0 <= r < d
    ensures a / d == q && a % d == r
  {
    var q0 := a / d;
    MulSign(d, q - q0);
    assert d * (q - q0) == d * q - d * q0;
  }

  lemma MulSign(d: int, x: int)
    requires d > 0
    ensures x >= 1 ==> d * x >= d
    ensures x <= -1 ==> d * x <= -d
  {
  }

  lemma DivNonneg(a: nat, d: int)
    requires d > 0
    ensures a / d >= 0
  {
  }

  /** The bits of `a` from bit k upwards: `a >> k`. */
  function Hi(a: nat, k: nat): nat {
    DivNonneg(a, Pow2(k));
    a / Pow2(k)
  }

  /** The k lowest bits of `a`. */
  function Lo(a: nat, k: nat): (r: nat)
    ensures r < Pow2(k)
  {
    a % Pow2(k)
  }

  lemma HiLo(a: nat, k: nat)
    ensures a == Hi(a, k) * Pow2(k) + Lo(a, k)
  {
  }

  /** Any split of `a` at bit k is the split by Hi and Lo. */
  lemma HiLoUnique(a: nat, k: nat, h: int, l: int)
    requires a == h * Pow2(k) + l && 0 <= l < Pow2(k)
    ensures Hi(a, k) == h && Lo(a, k) == l
  {
    DivModUnique(a, Pow2(k), h, l);
  }

  /** Dropping the lowest bit, then k - 1 more, is the same as dropping k bits. */
  lemma HalfHiLo(a: nat, k: nat)
    requires k > 0
    ensures Hi(a / 2, k - 1) == Hi(a, k)
    ensures Lo(a / 2, k - 1) == Lo(a, k) / 2 && Lo(a, k) % 2 == a % 2
  {
    var p := Pow2(k - 1);
    var h, l := Hi(a / 2, k - 1), Lo(a / 2, k - 1);
    HiLo(a / 2, k - 1);
    assert a == h * (2 * p) + (2 * l + a % 2);
    HiLoUnique(a, k, h, 2 * l + a % 2);
  }

  /** `uint64(x)` of a Go int64 `x`: its two's-complement bit pattern. */
  function ToUint64(x: int): (u: nat)
    ensures u < Two64 && (x - u) % Two64 == 0
    ensures 0 <= x < Two64 ==> u == x
  {
    x % Two64
  }

  /** `int64(u)` of a 64-bit pattern `u`. */
  function ToInt64(u: nat): (x: int)
    requires u < Two64
    ensures IsInt64(x) && ToUint64(x) == u
  {
    if u < 0x8000_0000_0000_0000 then u else u - Two64
  }

  /** Reading back the bit pattern of an int64 gives the int64. */
  lemma Int64Pattern(x: int)
    requires IsInt64(x)
    ensures ToInt64(ToUint64(x)) == x
  {
  }

  /** `x << k` on 64 bits: the bits pushed past bit 63 are lost. */
  function Shl(x: nat, k: nat): (r: nat)
    ensures r < Two64
  {
    (x * Pow2(k)) % Two64
  }

  /** A left shift that pushes no bit past bit 63 is a multiplication. */
  lemma ShlNoWrap(x: nat, k: nat, p: nat)
    requires p == Pow2(k) && x * p < Two64
    ensures Shl(x, k) == x * p
  {
    var a := x * Pow2(k);
    assert a == x * p;
    DivModUnique(a, Two64, 0, a);
  }

  datatype Op = OrOp | AndOp | XorOp

  function BitOp(op: Op, x: bool, y: bool): bool {
    match op
    case OrOp => x || y
    case AndOp => x && y
    case XorOp => x != y
  }

  /** Applies `op` to every pair of corresponding bits of `a` and `b`. */
  function Bitwise(op: Op, a: nat, b: nat): nat
    decreases a + b
  {
    if a == 0 && b == 0 then 0
    else 2 * Bitwise(op, a / 2, b / 2) + (if BitOp(op, a % 2 == 1, b % 2 == 1) then 1 else 0)
  }

  function Or(a: nat, b: nat): nat { Bitwise(OrOp, a, b) }
  function And(a: nat, b: nat): nat { Bitwise(AndOp, a, b) }
  function Xor(a: nat, b: nat): nat { Bitwise(XorOp, a, b) }

  function LowBit(op: Op, a: nat, b: nat): nat {
    if BitOp(op, a % 2 == 1, b % 2 == 1) then 1 else 0
  }

  lemma Unfold(op: Op, a: nat, b: nat)
    ensures Bitwise(op, a, b) == 2 * Bitwise(op, a / 2, b / 2) + LowBit(op, a, b)
  {
  }

  lemma Regroup(h: int, l: int, bit: int, p: int)
    ensures 2 * (h * p + l) + bit == h * (2 * p) + (2 * l + bit)
  {
  }

  /** Splitting both operands at bit k splits the result at bit k. */
  lemma {:induction false} Split(op: Op, a: nat, b: nat, k: nat)
    ensures Bitwise(op, a, b) == Bitwise(op, Hi(a, k), Hi(b, k)) * Pow2(k) + Bitwise(op, Lo(a, k), Lo(b, k))
  {
    if k > 0 {
      Split(op, a / 2, b / 2, k - 1);
      HalfHiLo(a, k);
      HalfHiLo(b, k);
      Unfold(op, a, b);
      Unfold(op, Lo(a, k), Lo(b, k));
      Regroup(Bitwise(op, Hi(a, k), Hi(b, k)), Bitwise(op, Lo(a, k) / 2, Lo(b, k) / 2),
              LowBit(op, a, b), Pow2(k - 1));
    }
  }

  /** Split, for operands whose parts above and below bit k are known. */
  lemma SplitAt(op: Op, a: nat, b: nat, k: nat, p: nat, ha: nat, la: nat, hb: nat, lb: nat)
    requires p == Pow2(k)
    requires a == ha * p + la && la < p
    requires b == hb * p + lb && lb < p
    ensures Bitwise(op, a, b) == Bitwise(op, ha, hb) * p + Bitwise(op, la, lb)
  {
    Split(op, a, b, k);
    HiLoUnique(a, k, ha, la);
    HiLoUnique(b, k, hb, lb);
  }

  /** Bitwise operations do not set bits above the operands' widest bit. */
  lemma {:induction false} Bound(op: Op, a: nat, b: nat, k: nat)
    requires a < Pow2(k) && b < Pow2(k)
    ensures Bitwise(op, a, b) < Pow2(k)
  {
    if k > 0 && !(a == 0 && b == 0) {
      Bound(op, a / 2, b / 2, k - 1);
    }
  }

  /** Bound, for a known value of 2^k. */
  lemma Below(op: Op, a: nat, b: nat, k: nat, p: nat)
    requires p == Pow2(k) && a < p && b < p
    ensures Bitwise(op, a, b) < p
  {
    Bound(op, a, b, k);
  }

  lemma {:induction false} OrZero(a: nat)
    ensures Or(a, 0) == a && Or(0, a) == a
  {
    if a > 0 {
      OrZero(a / 2);
    }
  }

  lemma {:induction false} XorZero(a: nat)
    ensures Xor(a, 0) == a && Xor(0, a) == a
  {
    if a > 0 {
      XorZero(a / 2);
    }
  }

  lemma {:induction false} AndZero(a: nat)
    ensures And(a, 0) == 0 && And(0, a) == 0
  {
    if a > 0 {
      AndZero(a / 2);
    }
  }

  lemma {:induction false} XorSelf(a: nat)
    ensures Xor(a, a) == 0
  {
    if a > 0 {
      XorSelf(a / 2);
    }
  }

  lemma {:induction false} AndOnes(a: nat, k: nat)
    requires a < Pow2(k)
    ensures And(a, Pow2(k) - 1) == a
  {
    if k > 0 {
      AndOnes(a / 2, k - 1);
      assert (Pow2(k) - 1) / 2 == Pow2(k - 1) - 1;
    }
  }

  /** Or-ing in an odd value gives an odd value. */
  lemma OrOdd(a: nat, b: nat)
    requires b % 2 == 1
    ensures Or(a, b) % 2 == 1
  {
    Unfold(OrOp, a, b);
  }

  /** Or-ing 1 into an odd value changes nothing. */
  lemma OrOne(a: nat)
    requires a % 2 == 1
    ensures Or(a, 1) == a
  {
    Unfold(OrOp, a, 1);
    OrZero(a / 2);
  }

  /** Masking with k one-bits keeps the value modulo 2^k. */
  lemma AndLowMask(x: nat, k: nat)
    ensures And(x, Pow2(k) - 1) == x % Pow2(k)
  {
    var p := Pow2(k);
    HiLo(x, k);
    SplitAt(AndOp, x, p - 1, k, p, Hi(x, k), Lo(x, k), 0, p - 1);
    AndZero(Hi(x, k));
    AndOnes(Lo(x, k), k);
  }

  /** A value placed above bit k is untouched by or-ing in bits below k. */
  lemma OrHigh(h: nat, b: nat, c: nat, k: nat, p: nat)
    requires p == Pow2(k) && b < p && c < p
    ensures Or(h * p + b, c) == h * p + Or(b, c)
  {
    var a := h * p + b;
    assert Bitwise(OrOp, h, 0) == h by {
      OrZero(h);
    }
    assert Bitwise(OrOp, a, c) == Bitwise(OrOp, h, 0) * p + Bitwise(OrOp, b, c) by {
      SplitAt(OrOp, a, c, k, p, h, b, 0, c);
    }
  }

  lemma MulPred(q: int, p: int)
    requires q >= 1 && p >= 0
    ensures (q - 1) * p == q * p - p && (q - 1) * p >= 0
  {
  }

  /** Shifting the all-ones pattern left by k clears exactly its k lowest bits. */
  lemma ShlOnes(k: nat)
    requires k <= 64
    ensures Shl(Two64 - 1, k) == Two64 - Pow2(k)
    ensures Two64 - Pow2(k) == (Pow2(64 - k) - 1) * Pow2(k)
  {
    var p, q := Pow2(k), Pow2(64 - k);
    Pow2Add(64 - k, k);
    Pow2Values();
    MulPred(q, p);
    DivModUnique((Two64 - 1) * p, Two64, p - 1, Two64 - p);
  }

  /** `int64(-1) ^ (int64(-1) << k)` has exactly the k lowest bits set. */
  lemma LowMask(k: nat, ones: nat)
    requires k <= 64 && ones == ToUint64(-1)
    ensures Xor(ones, Shl(ones, k)) == Pow2(k) - 1
  {
    var p, m := Pow2(k), Pow2(64 - k) - 1;
    var cleared := Shl(ones, k);
    var x := Bitwise(XorOp, m, m) * p + Bitwise(XorOp, p - 1, 0);
    assert Xor(ones, cleared) == x by {
      ShlOnes(k);
      SplitAt(XorOp, ones, cleared, k, p, m, p - 1, m, 0);
    }
    XorHighCancels(m, p);
  }

  lemma XorHighCancels(m: nat, p: nat)
    requires p >= 1
    ensures Bitwise(XorOp, m, m) * p + Bitwise(XorOp, p - 1, 0) == p - 1
  {
    XorSelf(m);
    XorZero(p - 1);
  }
}
