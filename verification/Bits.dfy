/** Machine words and the bit tricks the drivers use, on natural numbers.

    `And`, `Or` and `Shr` follow the binary digits; the lemmas say what each
    trick computes: a mask is a remainder, a cleared low mask is a rounding,
    fields joined with `|` add up, and smearing right finds the top bit. */
module Bits {

  type u8 = x: int | 0 <= x < 0x100
  type u32 = x: int | 0 <= x < 0x1_0000_0000
  type u64 = x: int | 0 <= x < 0x1_0000_0000_0000_0000

  const U32: int := 0x1_0000_0000
  const U64: int := 0x1_0000_0000_0000_0000

  function Pow2(k: nat): (p: nat)
    ensures p >= 1
  {
    if k == 0 then 1 else 2 * Pow2(k - 1)
  }

  function And(x: nat, y: nat): nat {
    if x == 0 || y == 0 then 0
    else (if x % 2 == 1 && y % 2 == 1 then 1 else 0) + 2 * And(x / 2, y / 2)
  }

  function Or(x: nat, y: nat): nat
    decreases x + y
  {
    if x == 0 then y else if y == 0 then x
    else (if x % 2 == 1 || y % 2 == 1 then 1 else 0) + 2 * Or(x / 2, y / 2)
  }

  function Shr(x: nat, k: nat): nat {
    if k == 0 then x else Shr(x / 2, k - 1)
  }

  function Shl(x: nat, k: nat): nat {
    if k == 0 then x else 2 * Shl(x, k - 1)
  }

  /** 32-bit subtraction, which wraps. */
  function Sub32(a: int, b: int): u32 { (a - b) % U32 }

  ghost predicate IsPow2(n: nat) { exists k: nat :: n == Pow2(k) }

  lemma {:induction false} Pow2Add(a: nat, b: nat)
    ensures Pow2(a + b) == Pow2(a) * Pow2(b)
  {
    if a == 0 {
    } else {
      Pow2Add(a - 1, b);
      var p, q := Pow2(a - 1), Pow2(b);
      assert 2 * (p * q) == (2 * p) * q;
    }
  }

  lemma {:induction false} Pow2Monotone(a: nat, b: nat)
    requires a <= b
    ensures Pow2(a) <= Pow2(b)
    decreases b
  {
    if a < b { Pow2Monotone(a, b - 1); }
  }

  lemma Pow2StrictMonotone(a: nat, b: nat)
    requires a < b
    ensures 2 * Pow2(a) <= Pow2(b)
  {
    Pow2Monotone(a + 1, b);
  }

  lemma Pow2Values()
    ensures Pow2(8) == 0x100 && Pow2(12) == 0x1000 && Pow2(16) == 0x1_0000
    ensures Pow2(31) == 0x8000_0000 && Pow2(32) == U32 && Pow2(64) == U64
  {
    assert Pow2(4) == 16;
    Pow2Add(4, 4);
    Pow2Add(8, 4);
    Pow2Add(8, 8);
    Pow2Add(16, 16);
    Pow2Add(32, 32);
    assert Pow2(32) == 2 * Pow2(31);
  }

  /** A power of two divides every larger one. */
  lemma Pow2Divides(a: nat, b: nat)
    requires a <= b
    ensures Pow2(b) == Pow2(b - a) * Pow2(a)
  {
    Pow2Add(b - a, a);
  }

  // ---- remainders ------------------------------------------------------

  lemma MulSub(a: int, b: int, m: int)
    ensures (a - b) * m == a * m - b * m
  {}

  lemma MulAssoc(a: int, b: int, c: int)
    ensures (a * b) * c == a * (b * c)
  {}

  lemma MulAtLeast(a: int, m: nat)
    requires a >= 0
    ensures a * m >= 0
    ensures a >= 1 ==> a * m >= m
  {}

  lemma SmallMultiple(d: int, m: int)
    requires m > 0 && -m < d * m < m
    ensures d == 0
  {
    if d > 0 { MulSub(d, 1, m); }
    if d < 0 { MulSub(-1, d, m); }
  }

  lemma DivModUnique(x: int, m: int, q: int, r: int)
    requires m > 0 && 0 <= r < m && x == q * m + r
    ensures x / m == q && x % m == r
  {
    MulSub(q, x / m, m);
    SmallMultiple(q - x / m, m);
  }

  /** A remainder modulo a multiple keeps the remainder. */
  lemma ModOfMod(x: int, c: int, m: int)
    requires m > 0 && c > 0
    ensures c * m > 0 && (x % (c * m)) % m == x % m
  {
    MulAtLeast(c, m);
    var k := c * m;
    var y, t := x % k, x / k;
    assert x == t * k + y;
    MulAssoc(t, c, m);
    CombineQuotients(x, m, t * c, y / m, y % m, y);
  }

  lemma CombineQuotients(x: int, m: int, a: int, q: int, r: int, y: int)
    requires m > 0 && 0 <= r < m && y == q * m + r && x == a * m + y
    ensures x % m == r
  {
    MulSub(a, -q, m);
    DivModUnique(x, m, a + q, r);
  }

  lemma ModShift(x: int, m: int, d: int)
    requires m > 0
    ensures (x + d * m) % m == x % m
  {
    DivModUnique(x + d * m, m, x / m + d, x % m);
  }

  /** Two numbers less than m apart share a remainder only if they are equal. */
  lemma ModInjective(a: int, b: int, m: int)
    requires m > 0 && a <= b < a + m && a % m == b % m
    ensures a == b
  {
    MulSub(b / m, a / m, m);
    SmallMultiple(b / m - a / m, m);
  }

  lemma ModAdd(x: int, y: int, m: int)
    requires m > 0
    ensures (x % m + y) % m == (x + y) % m
  {
    assert x == (x / m) * m + x % m;
    ModShift(x % m + y, m, x / m);
  }

  // ---- masks -----------------------------------------------------------

  lemma {:induction false} ShlIsProduct(x: nat, k: nat)
    ensures Shl(x, k) == x * Pow2(k)
    decreases k
  {
    if k > 0 {
      ShlIsProduct(x, k - 1);
      DoubleProduct(x, Pow2(k - 1));
    }
  }

  lemma DoubleProduct(q: nat, p: nat)
    ensures q * (2 * p) == 2 * (q * p)
  {}

  /** Shifting out and back loses the lowest k digits. */
  lemma {:induction false} LowDigits(x: nat, k: nat)
    ensures 0 <= x - Shl(Shr(x, k), k) < Pow2(k)
    decreases k
  {
    if k > 0 { LowDigits(x / 2, k - 1); }
  }

  /** Shifting right divides, and the digits shifted out are the remainder. */
  lemma SplitAt(x: nat, k: nat)
    ensures x / Pow2(k) == Shr(x, k) && x % Pow2(k) == x - Shl(Shr(x, k), k)
  {
    LowDigits(x, k);
    ShlIsProduct(Shr(x, k), k);
    DivModUnique(x, Pow2(k), Shr(x, k), x - Shl(Shr(x, k), k));
  }

  lemma {:induction false} AndLowOnes(x: nat, k: nat)
    ensures And(x, Pow2(k) - 1) == x - Shl(Shr(x, k), k)
    decreases k
  {
    if k > 0 {
      AndLowOnes(x / 2, k - 1);
      AndOdd(x, Pow2(k - 1) - 1);
    }
  }

  lemma AndOdd(x: nat, m: nat)
    ensures And(x, 2 * m + 1) == x % 2 + 2 * And(x / 2, m)
  {
    assert (2 * m + 1) / 2 == m && (2 * m + 1) % 2 == 1;
  }

  lemma {:induction false} AndHighOnes(x: nat, k: nat, w: nat)
    requires k <= w && x < Pow2(w)
    ensures Pow2(w) >= Pow2(k) && And(x, Pow2(w) - Pow2(k)) == Shl(Shr(x, k), k)
    decreases k
  {
    Pow2Monotone(k, w);
    if k == 0 {
      AndLowOnes(x, w);
      ShrSmall(x, w);
      ShlIsProduct(0, w);
    } else {
      AndHighOnes(x / 2, k - 1, w - 1);
      AndEven(x, Pow2(w - 1) - Pow2(k - 1));
    }
  }

  /** `x & (2^k - 1)` is the remainder modulo 2^k. */
  lemma AndMask(x: nat, k: nat)
    ensures And(x, Pow2(k) - 1) == x % Pow2(k)
  {
    AndLowOnes(x, k);
    SplitAt(x, k);
  }

  /** `x & ~(2^k - 1)` in a w-bit word rounds down to a multiple of 2^k. */
  lemma AndClearLow(x: nat, k: nat, w: nat)
    requires k <= w && x < Pow2(w)
    ensures Pow2(w) >= Pow2(k) && And(x, Pow2(w) - Pow2(k)) == x - x % Pow2(k)
  {
    AndHighOnes(x, k, w);
    SplitAt(x, k);
  }

  lemma SmallMod(x: nat, m: nat)
    requires x < m
    ensures x % m == x && x / m == 0
  {
    DivModUnique(x, m, 0, x);
  }

  lemma AndEven(x: nat, m: nat)
    ensures And(x, 2 * m) == 2 * And(x / 2, m)
  {}

  lemma {:induction false} AndAtMost(x: nat, y: nat)
    ensures And(x, y) <= x
  {
    if x > 0 { AndAtMost(x / 2, y / 2); }
  }

  lemma {:induction false} AndSelf(x: nat)
    ensures And(x, x) == x
  {
    if x > 0 { AndSelf(x / 2); }
  }

  /** `v & (v - 1)` is zero exactly when v is a power of two. */
  lemma {:induction false} ClearLowestBit(v: nat)
    requires v > 0
    ensures And(v, v - 1) == 0 <==> IsPow2(v)
  {
    if v == 1 {
      assert v == Pow2(0);
    } else if v % 2 == 1 {
      assert (v - 1) / 2 == v / 2;
      AndSelf(v / 2);
      forall k: nat
        ensures v != Pow2(k)
      {
        if k > 0 { assert Pow2(k) == 2 * Pow2(k - 1); }
      }
    } else {
      assert (v - 1) / 2 == v / 2 - 1 && (v - 1) % 2 == 1;
      ClearLowestBit(v / 2);
      if IsPow2(v / 2) {
        var k: nat :| v / 2 == Pow2(k);
        assert v == Pow2(k + 1);
      }
      if IsPow2(v) {
        var k: nat :| v == Pow2(k);
        assert v / 2 == Pow2(k - 1);
      }
    }
  }

  /** Fields packed with shifts and `|` add up when they do not overlap. */
  lemma {:induction false} OrDisjoint(a: nat, k: nat, b: nat)
    requires b < Pow2(k)
    ensures Or(Shl(a, k), b) == Shl(a, k) + b
    decreases k
  {
    if k > 0 {
      OrDisjoint(a, k - 1, b / 2);
      assert Shl(a, k) / 2 == Shl(a, k - 1) && Shl(a, k) % 2 == 0;
    }
  }

  // ---- largest power of two below a number -------------------------------

  lemma {:induction false} OrShr(x: nat, y: nat, k: nat)
    ensures Shr(Or(x, y), k) == Or(Shr(x, k), Shr(y, k))
    decreases k
  {
    if k > 0 {
      OrHalf(x, y);
      OrShr(x / 2, y / 2, k - 1);
    }
  }

  lemma OrHalf(x: nat, y: nat)
    ensures Or(x, y) / 2 == Or(x / 2, y / 2)
  {}

  lemma {:induction false} ShrShr(x: nat, a: nat, b: nat)
    ensures Shr(Shr(x, a), b) == Shr(x, a + b)
    decreases a
  {
    if a > 0 { ShrShr(x / 2, a - 1, b); }
  }

  lemma {:induction false} ShrSmall(x: nat, k: nat)
    requires x < Pow2(k)
    ensures Shr(x, k) == 0
    decreases k
  {
    if k > 0 { ShrSmall(x / 2, k - 1); }
  }

  /** A number with exactly k + 1 digits has top digit one. */
  lemma {:induction false} ShrTop(x: nat, k: nat)
    requires Pow2(k) <= x < Pow2(k + 1)
    ensures Shr(x, k) == 1
    decreases k
  {
    if k > 0 { ShrTop(x / 2, k - 1); }
  }

  /** Or-ing in s low ones sets the s low digits and keeps the rest. */
  lemma {:induction false} OrLowOnes(x: nat, s: nat)
    ensures Or(x, Pow2(s) - 1) == Shl(Shr(x, s), s) + Pow2(s) - 1
    decreases s
  {
    if s > 0 {
      OrLowOnes(x / 2, s - 1);
      OrOdd(x, Pow2(s - 1) - 1);
    }
  }

  lemma OrOdd(x: nat, m: nat)
    ensures Or(x, 2 * m + 1) == 1 + 2 * Or(x / 2, m)
  {
    assert (2 * m + 1) / 2 == m && (2 * m + 1) % 2 == 1;
  }

  /** Digits t to h of x are ones, and there is none above. */
  ghost predicate OnesFrom(x: nat, h: nat, t: nat)
    requires t <= h + 1
  {
    Shr(x, t) == Pow2(h + 1 - t) - 1
  }

  lemma {:induction false} OnesShr(a: nat, b: nat)
    requires b <= a
    ensures Shr(Pow2(a) - 1, b) == Pow2(a - b) - 1
    decreases b
  {
    if b > 0 {
      assert (Pow2(a) - 1) / 2 == Pow2(a - 1) - 1;
      OnesShr(a - 1, b - 1);
    }
  }

  /** The digits of x from position t up are s ones followed by u others;
      or-ing in x shifted by s makes them all ones. */
  lemma SmearDigits(x: nat, s: nat, t: nat, u: nat)
    requires u <= s && Shr(x, t + u) == Pow2(s) - 1
    ensures Shr(Or(x, Shr(x, s)), t) == Pow2(s + u) - 1
  {
    var z, p := Shr(x, t), Pow2(u);
    assert Shr(z, u) == Pow2(s) - 1 by { ShrShr(x, t, u); }
    assert Shr(Shr(x, s), t) == p - 1 by {
      ShrShr(x, s, t);
      ShrShr(x, t + u, s - u);
      OnesShr(s, s - u);
    }
    OrShr(x, Shr(x, s), t);
    OrLowOnes(z, u);
    ShlIsProduct(Pow2(s) - 1, u);
    MulSub(Pow2(s), 1, p);
    Pow2Add(s, u);
  }

  /** `x |= x >> s` */
  function Smear(x: nat, s: nat): nat { Or(x, Shr(x, s)) }

  /** How far down the ones reach when the run of ones is s long. */
  function Reach(h: nat, s: nat): nat { if s <= h + 1 then h + 1 - s else 0 }

  /** One smearing step doubles the run of ones below the top digit. */
  lemma SmearStep(x: nat, h: nat, s: nat)
    requires s > 0 && OnesFrom(x, h, Reach(h, s))
    ensures OnesFrom(Smear(x, s), h, Reach(h, 2 * s))
  {
    if s > h {
      Pow2Monotone(h + 1, s);
      ShrSmall(x, s);
    } else {
      var t := Reach(h, 2 * s);
      SmearDigits(x, s, t, h + 1 - s - t);
    }
  }

  lemma {:induction false} ShrAtMost(x: nat, k: nat)
    ensures Shr(x, k) <= x
    decreases k
  {
    if k > 0 { ShrAtMost(x / 2, k - 1); }
  }

  /** venus_prev_pow2 on a 32-bit word. */
  function PrevPow2(n: u32): nat {
    var m := Smear(Smear(Smear(Smear(Smear(n, 1), 2), 4), 8), 16);
    ShrAtMost(m, 1);
    if n == 0 then 0 else m - Shr(m, 1)
  }

  lemma {:induction false} TopBit(n: nat) returns (h: nat)
    requires n > 0
    ensures Pow2(h) <= n < Pow2(h + 1)
  {
    if n == 1 {
      h := 0;
    } else {
      h := TopBit(n / 2);
      h := h + 1;
    }
  }

  /** All five smearing steps: every digit below the top one is set. */
  lemma SmearAll(n: nat, h: nat)
    requires Shr(n, h) == 1 && h <= 31
    ensures OnesFrom(Smear(Smear(Smear(Smear(Smear(n, 1), 2), 4), 8), 16), h, 0)
  {
    var n1 := Smear(n, 1);
    var n2 := Smear(n1, 2);
    var n3 := Smear(n2, 4);
    var n4 := Smear(n3, 8);
    assert OnesFrom(n, h, Reach(h, 1));
    hide Smear, OnesFrom, Shr;
    SmearStep(n, h, 1);
    SmearStep(n1, h, 2);
    SmearStep(n2, h, 4);
    SmearStep(n3, h, 8);
    SmearStep(n4, h, 16);
  }

  lemma TopBitOfWord(n: u32, h: nat)
    requires Pow2(h) <= n
    ensures h <= 31
  {
    Pow2Values();
    Pow2Monotone(if h < 32 then h else 32, h);
  }

  lemma PrevPow2Exact(n: u32, h: nat)
    requires Pow2(h) <= n < Pow2(h + 1)
    ensures PrevPow2(n) == Pow2(h) && h <= 31
  {
    TopBitOfWord(n, h);
    ShrTop(n, h);
    SmearAll(n, h);
    OnesShr(h + 1, 1);
    hide Smear;
  }

  ghost predicate IsLargestPow2(p: nat, n: nat) {
    IsPow2(p) && p <= n && forall k: nat :: Pow2(k) <= n ==> Pow2(k) <= p
  }

  /** The five shifts find the largest power of two that is at most n. */
  lemma PrevPow2IsLargest(n: u32)
    requires n > 0
    ensures IsLargestPow2(PrevPow2(n), n) && PrevPow2(n) <= 0x8000_0000
  {
    var h := TopBit(n);
    PrevPow2Exact(n, h);
    Pow2Values();
    Pow2Monotone(h, 31);
    forall k: nat | Pow2(k) <= n
      ensures Pow2(k) <= PrevPow2(n)
    {
      if k > h { Pow2Monotone(h + 1, k); }
      else { Pow2Monotone(k, h); }
    }
  }

  /** venus_prev_pow2 as the driver calls it. */
  method LargestPow2(n: u32) returns (p: u32)
    ensures n == 0 ==> p == 0
    ensures n > 0 ==> IsLargestPow2(p, n) && 0 < p <= 0x8000_0000
  {
    if n > 0 { PrevPow2IsLargest(n); }
    p := PrevPow2(n);
  }
}
