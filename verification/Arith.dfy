/** Powers of two, Euclidean division and bit operations on natural numbers.
    Machine words are modelled as naturals below a power of two. */
module Arith {

  function Pow2(n: nat): (p: nat)
    ensures p > 0
  {
    if n == 0 then 1 else 2 * Pow2(n - 1)
  }

  lemma {:induction false} Pow2Add(a: nat, b: nat)
    ensures Pow2(a + b) == Pow2(a) * Pow2(b)
  {
    if a > 0 {
      Pow2Add(a - 1, b);
      assert Pow2(a + b) == 2 * Pow2(a - 1 + b);
      MulAssoc(2, Pow2(a - 1), Pow2(b));
    }
  }

  lemma {:induction false} Pow2Mono(a: nat, b: nat)
    requires a <= b
    ensures Pow2(a) <= Pow2(b)
    decreases b
  {
    if a < b { Pow2Mono(a, b - 1); }
  }

  lemma Pow2Strict(a: nat, b: nat)
    requires a < b
    ensures 2 * Pow2(a) <= Pow2(b)
  {
    Pow2Mono(a + 1, b);
  }

  lemma Pow2Values()
    ensures Pow2(0) == 1 && Pow2(1) == 2 && Pow2(2) == 4 && Pow2(3) == 8 && Pow2(8) == 256
    ensures Pow2(7) == 128 && Pow2(16) == 0x1_0000
    ensures Pow2(22) == 0x40_0000 && Pow2(23) == 0x80_0000 && Pow2(24) == 0x100_0000
    ensures Pow2(31) == 0x8000_0000 && Pow2(32) == 0x1_0000_0000
  {
    assert Pow2(8) == 256;
    assert Pow2(16) == 0x1_0000 by { Pow2Add(8, 8); }
    assert Pow2(23) == 0x80_0000 by { Pow2Add(16, 7); }
    assert Pow2(31) == 0x8000_0000 by { Pow2Add(23, 8); }
  }

  lemma MulAssoc(a: int, b: int, c: int)
    ensures (a * b) * c == a * (b * c)
  {}

  lemma Distribute(a: int, b: int, c: int)
    ensures (a + b) * c == a * c + b * c
  {}

  lemma MulMono(a: int, b: int, c: int)
    requires a <= b && 0 <= c
    ensures a * c <= b * c
  {}

  lemma MulMonoStrict(a: int, b: int, c: int)
    requires a < b && 0 < c
    ensures a * c < b * c
  {}

  lemma MulAway(k: int, d: int)
    requires 0 < d && k != 0
    ensures k * d >= d || k * d <= -d
  {
    if k > 0 { MulMono(1, k, d); } else { MulMono(k, -1, d); }
  }

  lemma MulCancel(a: int, b: int, c: int)
    requires 0 < c && a * c <= b * c
    ensures a <= b
  {
    if b < a { MulMonoStrict(b, a, c); }
  }

  lemma MulCancelStrict(a: int, b: int, c: int)
    requires 0 < c && a * c < b * c
    ensures a < b
  {
    if b <= a { MulMono(b, a, c); }
  }

  lemma MulCancelEq(a: int, b: int, c: int)
    requires 0 < c && a * c == b * c
    ensures a == b
  {
    MulCancel(a, b, c);
    MulCancel(b, a, c);
  }

  /** Euclidean division is characterised by its defining equation. */
  lemma DivModUnique(a: int, d: int, q: int, r: int)
    requires 0 <= r < d && a == q * d + r
    ensures a / d == q && a % d == r
  {
    var q', r' := a / d, a % d;
    assert a == q' * d + r' && 0 <= r' < d;
    assert (q - q') * d == r' - r;
    if q != q' { MulAway(q - q', d); }
  }

  lemma DivBounds(a: int, d: int)
    requires 0 < d
    ensures (a / d) * d <= a < (a / d) * d + d
    ensures a == (a / d) * d + a % d
  {}

  lemma DivNonNeg(a: nat, d: int)
    requires 0 < d
    ensures 0 <= a / d
  {
    DivBounds(a, d);
    if a / d < 0 { MulMono(a / d, -1, d); }
  }

  lemma DivLess(a: nat, d: int, k: int)
    requires 0 < d && a < k * d
    ensures 0 <= a / d < k
  {
    DivBounds(a, d);
    MulCancelStrict(a / d, k, d);
    DivNonNeg(a, d);
  }

  lemma DivDiv(a: nat, x: nat, y: nat)
    requires 0 < x && 0 < y
    ensures 0 < x * y
    ensures a / (x * y) == (a / x) / y
    ensures a % (x * y) == (a % x) + x * ((a / x) % y)
  {
    MulMonoStrict(0, x, y);
    var q, r := a / x, a % x;
    var q', r' := q / y, q % y;
    assert a == q * x + r;
    assert q == q' * y + r';
    assert q * x == q' * (x * y) + x * r' by {
      assert (q' * y + r') * x == (q' * y) * x + r' * x;
      assert (q' * y) * x == q' * (x * y) by { MulAssoc(q', y, x); }
    }
    MulMono(r', y - 1, x);
    assert (y - 1) * x == x * y - x;
    DivModUnique(a, x * y, q', x * r' + r);
  }

  lemma ModAddMul(a: int, k: int, d: int)
    requires 0 < d
    ensures (a + k * d) % d == a % d
    ensures (a + k * d) / d == a / d + k
  {
    assert a + k * d == (a / d + k) * d + a % d;
    DivModUnique(a + k * d, d, a / d + k, a % d);
  }

  lemma ModSmall(a: int, d: int)
    requires 0 <= a < d
    ensures a % d == a && a / d == 0
  {
    DivModUnique(a, d, 0, a);
  }

  lemma ModOfMod(a: int, d: int, b: int)
    requires 0 < d
    ensures (a % d + b) % d == (a + b) % d
    ensures (a % d * b) % d == (a * b) % d
    ensures (b - a % d) % d == (b - a) % d
  {
    var q := a / d;
    assert a == q * d + a % d;
    ModAddMul(a % d + b, q, d);
    assert a * b == a % d * b + (q * b) * d by {
      assert (q * d + a % d) * b == (q * d) * b + a % d * b;
      assert (q * d) * b == (q * b) * d;
    }
    ModAddMul(a % d * b, q * b, d);
    ModAddMul(b - a, q, d);
  }

  /** Left shift without a word bound. */
  function Shl(x: nat, k: nat): nat {
    MulMono(0, x, Pow2(k));
    x * Pow2(k)
  }

  function Shr(x: nat, k: nat): nat {
    DivNonNeg(x, Pow2(k));
    x / Pow2(k)
  }

  // ---------------------------------------------------------------- bit length

  /** Number of significant binary digits. */
  function BitLen(x: nat): (n: nat)
    ensures x == 0 <==> n == 0
    ensures x < Pow2(n)
    ensures x > 0 ==> Pow2(n - 1) <= x
  {
    if x == 0 then 0 else 1 + BitLen(x / 2)
  }

  lemma {:induction false} BitLenUnique(x: nat, n: nat)
    requires n > 0 && Pow2(n - 1) <= x < Pow2(n)
    ensures BitLen(x) == n
  {
    if BitLen(x) < n {
      Pow2Mono(BitLen(x), n - 1);
    } else if n < BitLen(x) {
      Pow2Mono(n, BitLen(x) - 1);
    }
  }

  lemma BitLenBound(x: nat, w: nat)
    requires x < Pow2(w)
    ensures BitLen(x) <= w
  {
    if x > 0 {
      var m := BitLen(x) - 1;
      if w <= m { Pow2Mono(w, m); }
    }
  }

  /** Leading zeros of a w-bit word, as __builtin_clz. */
  function Clz(w: nat, x: nat): (n: nat)
    requires 0 < x < Pow2(w)
    ensures n == w - BitLen(x) && n < w
  {
    BitLenBound(x, w);
    w - BitLen(x)
  }

  /** Trailing zeros of a non-zero word, as __builtin_ctz. */
  function Ctz(x: nat): (n: nat)
    requires x > 0
    ensures Pow2(n) <= x
  {
    if x % 2 == 1 then 0 else 1 + Ctz(x / 2)
  }

  // ---------------------------------------------------------------- bit operations

  function BitAnd(x: nat, y: nat): (z: nat)
    ensures z <= x && z <= y
  {
    if x == 0 || y == 0 then 0
    else (if x % 2 == 1 && y % 2 == 1 then 1 else 0) + 2 * BitAnd(x / 2, y / 2)
  }

  function BitOr(x: nat, y: nat): nat
    decreases x + y
  {
    if x == 0 then y else if y == 0 then x
    else (if x % 2 == 1 || y % 2 == 1 then 1 else 0) + 2 * BitOr(x / 2, y / 2)
  }

  function BitXor(x: nat, y: nat): nat
    decreases x + y
  {
    if x == 0 then y else if y == 0 then x
    else (if x % 2 != y % 2 then 1 else 0) + 2 * BitXor(x / 2, y / 2)
  }

  lemma BitAndMaskStep(x: nat, p: nat)
    requires x > 0 && p > 0
    ensures BitAnd(x, 2 * p - 1) == x % 2 + 2 * BitAnd(x / 2, p - 1)
  {
    var m: nat := 2 * p - 1;
    assert m % 2 == 1 && m / 2 == p - 1;
  }

  /** Masking with 2^k - 1 is the remainder modulo 2^k. */
  lemma {:induction false} BitAndMask(x: nat, k: nat)
    ensures BitAnd(x, Pow2(k) - 1) == x % Pow2(k)
    decreases k
  {
    if x == 0 {
      ModSmall(0, Pow2(k));
    } else if k > 0 {
      var p := Pow2(k - 1);
      BitAndMask(x / 2, k - 1);
      BitAndMaskStep(x, p);
      DivDiv(x, 2, p);
    }
  }

  /** Or-ing a number below 2^k into a multiple of 2^k adds it. */
  lemma {:induction false} BitOrDisjoint(h: nat, k: nat, l: nat)
    requires l < Pow2(k)
    ensures BitOr(h * Pow2(k), l) == h * Pow2(k) + l
    ensures BitOr(l, h * Pow2(k)) == h * Pow2(k) + l
    decreases k
  {
    var x := h * Pow2(k);
    if k > 0 && x > 0 && l > 0 {
      assert x == 2 * (h * Pow2(k - 1));
      BitOrDisjoint(h, k - 1, l / 2);
    } else if k == 0 {
      assert l == 0;
    }
  }

  /** The usual power-of-two test: for positive x, x & (x - 1) is zero only for powers of two. */
  lemma {:induction false} PowerOfTwoTest(x: nat)
    requires x > 0 && BitAnd(x, x - 1) == 0
    ensures x == Pow2(Ctz(x))
  {
    if x % 2 == 1 {
      if x > 1 {
        assert (x - 1) / 2 == x / 2;
        assert BitAnd(x / 2, x / 2) == 0;
        AndSelf(x / 2);
      }
    } else {
      assert (x - 1) / 2 == x / 2 - 1;
      assert x > 1 && (x - 1) % 2 == 1;
      PowerOfTwoTest(x / 2);
    }
  }

  lemma {:induction false} AndSelf(x: nat)
    ensures BitAnd(x, x) == x
  {
    if x > 0 { AndSelf(x / 2); }
  }

  lemma {:induction false} BitOpsCommute(x: nat, y: nat)
    ensures BitAnd(x, y) == BitAnd(y, x)
    ensures BitOr(x, y) == BitOr(y, x)
    ensures BitXor(x, y) == BitXor(y, x)
    decreases x + y
  {
    if x > 0 && y > 0 { BitOpsCommute(x / 2, y / 2); }
  }

  /** Or-ing the lowest bit in. */
  lemma BitOrOne(x: nat)
    ensures BitOr(x, 1) == x - x % 2 + 1
  {
    assert BitOr(x / 2, 0) == x / 2;
  }

  /** x & 2^k isolates bit k of x. */
  lemma {:induction false} BitTest(x: nat, k: nat)
    ensures BitAnd(x, Pow2(k)) == if (x / Pow2(k)) % 2 == 1 then Pow2(k) else 0
    decreases k
  {
    if k > 0 {
      var p := Pow2(k - 1);
      BitTest(x / 2, k - 1);
      DivDiv(x, 2, p);
      assert (2 * p) / 2 == p && (2 * p) % 2 == 0;
      if x == 0 { ModSmall(0, p); }
    } else {
      assert BitAnd(x / 2, 0) == 0;
    }
  }

  lemma ShrStep(x: nat, k: nat)
    requires k > 0
    ensures Shr(x, k) == Shr(x / 2, k - 1)
  {
    DivDiv(x, 2, Pow2(k - 1));
  }

  lemma BitXorHalves(x: nat, y: nat)
    ensures BitXor(x, y) / 2 == BitXor(x / 2, y / 2)
  {}

  lemma {:induction false} BitXorHigh(x: nat, y: nat, k: nat)
    ensures Shr(BitXor(x, y), k) == BitXor(Shr(x, k), Shr(y, k))
    decreases k
  {
    if k == 0 {
      assert forall z: nat :: Shr(z, 0) == z;
    } else {
      BitXorHalves(x, y);
      BitXorHigh(x / 2, y / 2, k - 1);
      ShrStep(x, k);
      ShrStep(y, k);
      ShrStep(BitXor(x, y), k);
    }
  }

  /** Shifting an all-ones word right leaves an all-ones shorter word. */
  lemma AllOnesShift(n: nat, j: nat)
    requires j <= n
    ensures (Pow2(n) - 1) / Pow2(j) == Pow2(n - j) - 1
  {
    Pow2Add(n - j, j);
    var p, q := Pow2(n - j), Pow2(j);
    Distribute(p, -1, q);
    DivModUnique(p * q - 1, q, p - 1, q - 1);
  }

  /** Flipping a bit that is known to be set removes it. */
  lemma {:induction false} BitXorTop(k: nat, l: nat)
    requires l < Pow2(k)
    ensures BitXor(Pow2(k) + l, Pow2(k)) == l
  {
    if k > 0 {
      var p := Pow2(k - 1);
      assert (2 * p + l) / 2 == p + l / 2 && (2 * p + l) % 2 == l % 2;
      BitXorTop(k - 1, l / 2);
    }
  }

  /** Bits shifted out at the top of a w-bit word are lost. */
  lemma ShiftLeftKeepsLow(a: nat, i: nat, j: nat)
    ensures (a * Pow2(j)) % Pow2(i + j) == (a % Pow2(i)) * Pow2(j)
  {
    var g, c := Pow2(i), Pow2(j);
    Pow2Add(i, j);
    DivBounds(a, g);
    var t, w := a / g, a % g;
    MulAssoc(t, g, c);
    Distribute(t * g, w, c);
    MulMonoStrict(w, g, c);
    MulMono(0, w, c);
    DivModUnique(a * c, g * c, t, w * c);
  }
}
