/**
 * The parts of JavaScript number semantics the colour code relies on: the
 * ToInt32 / ToUint32 conversions, the bitwise operators on 32-bit patterns,
 * and NaN, which the bitwise operators read as 0.
 */
module JsNumbers {
  /** A JavaScript number as the colour code uses it: an integer, or NaN. */
  datatype Num = Int(value: int) | NaN

  const TwoTo24: int := 0x100_0000
  const TwoTo31: int := 0x8000_0000
  const TwoTo32: int := 0x1_0000_0000

  function Pow2(n: nat): (r: nat)
    ensures r >= 1
  {
    if n == 0 then 1 else 2 * Pow2(n - 1)
  }

  /** ToUint32: the integer modulo 2^32. */
  function Uint32(x: int): (r: int)
    ensures 0 <= r < TwoTo32
    ensures 0 <= x < TwoTo32 ==> r == x
    ensures (x - r) % TwoTo32 == 0
  {
    x % TwoTo32
  }

  /** ToInt32: the same 32 bits read as a two's-complement integer. */
  function Int32(x: int): (r: int)
    ensures -TwoTo31 <= r < TwoTo31
    ensures Uint32(r) == Uint32(x)
    ensures -TwoTo31 <= x < TwoTo31 ==> r == x
  {
    var u := Uint32(x);
    if u >= TwoTo31 then u - TwoTo32 else u
  }

  /** ToInt32 of a number that may be NaN. */
  function NumInt32(n: Num): int
  {
    match n
    case NaN => 0
    case Int(v) => Int32(v)
  }

  /** Bitwise and of two naturals, lowest bit first. */
  function And(a: nat, b: nat): nat
    decreases a
  {
    if a == 0 || b == 0 then 0
    else 2 * And(a / 2, b / 2) + (if a % 2 == 1 && b % 2 == 1 then 1 else 0)
  }

  /** Bitwise or of two naturals, lowest bit first. */
  function Or(a: nat, b: nat): nat
    decreases a + b
  {
    if a == 0 then b
    else if b == 0 then a
    else 2 * Or(a / 2, b / 2) + (if a % 2 == 1 || b % 2 == 1 then 1 else 0)
  }

  /** `a & b`: both operands as 32-bit patterns, the result read back as a signed integer. */
  function BitAnd(a: int, b: int): int
  {
    Int32(And(Uint32(a), Uint32(b)))
  }

  /** `a | b`. */
  function BitOr(a: int, b: int): int
  {
    Int32(Or(Uint32(a), Uint32(b)))
  }

  /** c shifted left by n bits: doubled n times. */
  function Shift(c: nat, n: nat): nat
  {
    if n == 0 then c else 2 * Shift(c, n - 1)
  }

  /** `a << n`: the 32-bit pattern shifted left, the shift count taken modulo 32. */
  function Shl(a: int, n: nat): int
  {
    Int32(Shift(Uint32(a), n % 32))
  }

  /** `a >>> n`: an unsigned shift of the 32-bit pattern. */
  function UShr(a: int, n: nat): int
  {
    Uint32(a) / Pow2(n % 32)
  }

  // ---------------------------------------------------------------------------
  // Arithmetic helpers

  /** `a >>> 0` is ToUint32. */
  lemma UShrZero(a: int)
    ensures UShr(a, 0) == Uint32(a)
  {
  }

  /** The quotient of floor division is fixed by any remainder in [0, d). */
  lemma DivUnique(m: int, d: int, q: int, r: int)
    requires d > 0 && 0 <= r < d && m == q * d + r
    ensures m / d == q
  {
    var q', r' := m / d, m % d;
    assert (q' - q) * d == r - r' by {
      assert m == q' * d + r';
      assert (q' - q) * d == q' * d - q * d;
    }
    MulBound(q' - q, d);
  }

  /** A multiple of d strictly between -d and d is zero. */
  lemma MulBound(t: int, d: int)
    requires d > 0 && -d < t * d < d
    ensures t == 0
  {
    if t >= 1 {
      MulAtLeast(t, d);
    } else if t <= -1 {
      assert t * d == -((-t) * d);
      MulAtLeast(-t, d);
    }
  }

  lemma {:induction false} MulAtLeast(t: int, d: int)
    requires t >= 1 && d >= 0
    ensures t * d >= d
    decreases t
  {
    if t > 1 {
      MulAtLeast(t - 1, d);
      assert t * d == (t - 1) * d + d;
    }
  }

  lemma MulSucc(a: int, b: int)
    ensures (a + 1) * b == a * b + b
  {
  }

  lemma Pow2Values()
    ensures Pow2(8) == 0x100 && Pow2(16) == 0x1_0000 && Pow2(24) == TwoTo24
  {
    assert Pow2(4) == 16;
    assert Pow2(8) == 2 * 2 * 2 * 2 * Pow2(4);
    assert Pow2(16) == 2 * 2 * 2 * 2 * 2 * 2 * 2 * 2 * Pow2(8) by {
      assert Pow2(12) == 2 * 2 * 2 * 2 * Pow2(8);
    }
    assert Pow2(24) == 2 * 2 * 2 * 2 * 2 * 2 * 2 * 2 * Pow2(16) by {
      assert Pow2(20) == 2 * 2 * 2 * 2 * Pow2(16);
    }
  }

  /** 2^n grows with n. */
  lemma {:induction false} Pow2Grows(m: nat, n: nat)
    requires m <= n
    ensures Pow2(m) <= Pow2(n)
    decreases n - m
  {
    if m < n {
      Pow2Grows(m + 1, n);
    }
  }

  /** Shifting left by n multiplies by 2^n. */
  lemma {:induction false} ShiftMul(c: nat, n: nat)
    ensures Shift(c, n) == c * Pow2(n)
    decreases n
  {
    if n > 0 {
      ShiftMul(c, n - 1);
      assert c * Pow2(n) == 2 * (c * Pow2(n - 1));
    }
  }

  /** Halving a number made of a low part and a shifted high part. */
  lemma HalveSplit(x: nat, a: nat, c: nat, n: nat)
    requires n >= 1 && a < Pow2(n) && x == a + Shift(c, n)
    ensures x / 2 == a / 2 + Shift(c, n - 1) && x % 2 == a % 2
    ensures a / 2 < Pow2(n - 1)
  {
  }

  lemma Recombine(whole: int, high: int, low: int, lowHigh: int, shifted: int, shiftedHalf: int, bit: int)
    requires whole == 2 * high + bit && high == lowHigh + shiftedHalf
    requires low == 2 * lowHigh + bit && shifted == 2 * shiftedHalf
    ensures whole == low + shifted
  {
  }

  // ---------------------------------------------------------------------------
  // Bit-level properties

  /**
   * Or works independently on the low n bits and on the rest: two numbers cut
   * at bit n are or-ed part by part.
   */
  lemma {:induction false} OrSplit(x: nat, y: nat, a: nat, c: nat, e: nat, d: nat, n: nat)
    requires a < Pow2(n) && e < Pow2(n) && x == a + Shift(c, n) && y == e + Shift(d, n)
    ensures Or(x, y) == Or(a, e) + Shift(Or(c, d), n)
    decreases n
  {
    if n > 0 {
      HalveSplit(x, a, c, n);
      HalveSplit(y, e, d, n);
      OrSplit(x / 2, y / 2, a / 2, c, e / 2, d, n - 1);
      var bit := if a % 2 == 1 || e % 2 == 1 then 1 else 0;
      OrHalf(x, y);
      OrHalf(a, e);
      Recombine(Or(x, y), Or(x / 2, y / 2), Or(a, e), Or(a / 2, e / 2), Shift(Or(c, d), n), Shift(Or(c, d), n - 1), bit);
    } else {
      assert a == 0 && e == 0 && x == c && y == d && Shift(Or(c, d), 0) == Or(c, d);
      OrZero(0);
    }
  }

  lemma OrZero(e: nat)
    ensures Or(0, e) == e && Or(e, 0) == e
  {
  }

  /** Or, as its definition reads when either operand is zero as well. */
  lemma OrHalf(a: nat, e: nat)
    ensures Or(a, e) == 2 * Or(a / 2, e / 2) + (if a % 2 == 1 || e % 2 == 1 then 1 else 0)
  {
    if a == 0 {
      OrZero(e / 2);
    } else if e == 0 {
      OrZero(a / 2);
    }
  }

  /** And works independently on the low n bits and on the rest. */
  lemma {:induction false} AndSplit(x: nat, y: nat, a: nat, c: nat, e: nat, d: nat, n: nat)
    requires a < Pow2(n) && e < Pow2(n) && x == a + Shift(c, n) && y == e + Shift(d, n)
    ensures And(x, y) == And(a, e) + Shift(And(c, d), n)
    decreases n
  {
    if n > 0 {
      HalveSplit(x, a, c, n);
      HalveSplit(y, e, d, n);
      AndSplit(x / 2, y / 2, a / 2, c, e / 2, d, n - 1);
      var bit := if a % 2 == 1 && e % 2 == 1 then 1 else 0;
      AndHalf(x, y);
      AndHalf(a, e);
      Recombine(And(x, y), And(x / 2, y / 2), And(a, e), And(a / 2, e / 2), Shift(And(c, d), n), Shift(And(c, d), n - 1), bit);
    } else {
      assert a == 0 && e == 0 && x == c && y == d && Shift(And(c, d), 0) == And(c, d);
      AndZero(0, 0);
    }
  }

  /** And, as its definition reads when either operand is zero as well. */
  lemma AndHalf(a: nat, e: nat)
    ensures And(a, e) == 2 * And(a / 2, e / 2) + (if a % 2 == 1 && e % 2 == 1 then 1 else 0)
  {
    if a == 0 || e == 0 {
      AndZero(a / 2, e / 2);
    }
  }

  lemma AndZero(a: nat, e: nat)
    requires a == 0 || e == 0
    ensures And(a, e) == 0
  {
  }

  /** And never exceeds either operand. */
  lemma {:induction false} AndAtMost(a: nat, b: nat)
    ensures And(a, b) <= a && And(a, b) <= b
    decreases a
  {
    if a != 0 && b != 0 {
      AndAtMost(a / 2, b / 2);
    }
  }

  /** And with n one-bits keeps a number below 2^n. */
  lemma {:induction false} AndOnes(a: nat, n: nat)
    requires a < Pow2(n)
    ensures And(a, Pow2(n) - 1) == a
    decreases n
  {
    if n > 0 && a > 0 {
      assert Pow2(n) - 1 == 1 + 2 * (Pow2(n - 1) - 1);
      AndOnes(a / 2, n - 1);
    }
  }

  /** Or with n one-bits gives the n one-bits, for a number below 2^n. */
  lemma {:induction false} OrOnes(a: nat, n: nat)
    requires a < Pow2(n)
    ensures Or(a, Pow2(n) - 1) == Pow2(n) - 1
    decreases n
  {
    if n > 0 && a > 0 {
      assert Pow2(n) - 1 == 1 + 2 * (Pow2(n - 1) - 1);
      OrOnes(a / 2, n - 1);
    }
  }

  /** `x & mask`, with a mask of n low one-bits, keeps the low n bits of x. */
  lemma AndLowMask(x: nat, lo: nat, hi: nat, n: nat)
    requires lo < Pow2(n) && x == lo + Shift(hi, n)
    ensures And(x, Pow2(n) - 1) == lo
  {
    ShiftMul(0, n);
    AndSplit(x, Pow2(n) - 1, lo, hi, Pow2(n) - 1, 0, n);
    AndOnes(lo, n);
    AndZero(hi, 0);
  }

  /** Or of a number below 2^n with a number shifted left by n is their sum. */
  lemma OrDisjoint(a: nat, c: nat, n: nat)
    requires a < Pow2(n)
    ensures Or(a, Shift(c, n)) == a + Shift(c, n)
  {
    ShiftMul(0, n);
    OrSplit(a, Shift(c, n), a, 0, 0, c, n);
    OrZero(a);
    OrZero(c);
  }
}
