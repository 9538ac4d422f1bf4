/** Single-precision division by Newton-Raphson reciprocal. Words are 32 bits; a number is given by
    its encoding. */
module DivSf3 {
  import opened Arith
  import opened FloatFormat

  const SIGN_BIT: nat := 0x8000_0000
  const IMPLICIT_BIT: nat := 0x80_0000
  const INF_REP: nat := 0x7F80_0000
  const QUIET_BIT: nat := 0x40_0000
  const QNAN_REP: nat := 0x7FC0_0000
  const TWO31: int := 0x8000_0000
  const TWO32: int := 0x1_0000_0000
  const TWO63: int := 0x8000_0000_0000_0000

  // ---------------------------------------------------------------- the reciprocal

  /** One step x * (2 - x * b), truncated as the 32-bit code truncates it. */
  function Refine(x: nat, b: nat): nat {
    var correction := (-(x * b / TWO32)) % TWO32;
    (x * correction / TWO31) % TWO32
  }

  /** Exact effect of one step on the error 2^63 - x*b, with both truncated parts t1, t2. */
  lemma NewtonIdentity(x: int, b: int, f: int, t1: int, y: int, t2: int)
    requires x * b == f * TWO32 + t1
    requires x * (TWO32 - f) == y * TWO31 + t2
    ensures TWO63 * (TWO63 - y * b)
         == (TWO63 - x * b) * (TWO63 - x * b) - (x * b) * t1 + TWO32 * (t2 * b)
  {
    var p := x * b;
    calc {
      TWO63 * (y * b);
      TWO32 * ((y * TWO31) * b);
      TWO32 * ((x * (TWO32 - f) - t2) * b);
      { assert (x * (TWO32 - f) - t2) * b == (x * (TWO32 - f)) * b - t2 * b; }
      TWO32 * ((x * (TWO32 - f)) * b) - TWO32 * (t2 * b);
      { assert (x * (TWO32 - f)) * b == p * (TWO32 - f); }
      TWO32 * (p * (TWO32 - f)) - TWO32 * (t2 * b);
      { assert TWO32 * (p * (TWO32 - f)) == p * (TWO32 * TWO32 - f * TWO32); }
      p * (TWO32 * TWO32 - (p - t1)) - TWO32 * (t2 * b);
    }
    assert p * (TWO32 * TWO32 - (p - t1)) == TWO32 * TWO32 * p - p * p + p * t1;
    assert (TWO63 - p) * (TWO63 - p) == TWO63 * TWO63 - 2 * TWO63 * p + p * p;
  }

  /** Bounds on the error after one step, from a bound on the square of the error before it. */
  lemma StepBounds(x: nat, b: nat, square: int)
    requires TWO31 + 256 <= b < TWO32
    requires TWO32 <= x * b < TWO32 * TWO32
    requires (TWO63 - x * b) * (TWO63 - x * b) <= square
    requires x * b <= TWO63 + 0x100_0000_0000_0000 * 16
    ensures
      var f := x * b / TWO32;
      var y := x * (TWO32 - f) / TWO31;
      && 0 < f < TWO32 && 0 <= y
      && TWO63 * (TWO63 - y * b) <= square + TWO63 * b
      && TWO63 * (TWO63 - y * b) >= -(x * b) * (TWO32 - 1)
  {
    var p := x * b;
    var f, t1 := p / TWO32, p % TWO32;
    var z := x * (TWO32 - f);
    assert z >= 0 by { MulMono(0, TWO32 - f, x); }
    var y, t2 := z / TWO31, z % TWO31;
    NewtonIdentity(x, b, f, t1, y, t2);
    var e := TWO63 - p;
    assert e * e >= 0;
    MulMono(0, t1, p);
    MulMono(t1, TWO32 - 1, p);
    MulMono(0, t2, b);
    MulMono(t2, TWO31, b);
  }

  /** Without overflow the step is the untruncated one. */
  lemma RefineBounds(x: nat, b: nat, square: int)
    requires TWO31 + 256 <= b < TWO32
    requires TWO63 - 800_000_000_000_000_000 <= x * b <= TWO63 + 800_000_000_000_000_000
    requires (TWO63 - x * b) * (TWO63 - x * b) <= square
    ensures
      var y := Refine(x, b);
      && TWO63 * (TWO63 - y * b) <= square + TWO63 * b
      && TWO63 * (TWO63 - y * b) >= -(x * b) * (TWO32 - 1)
  {
    StepBounds(x, b, square);
    var f := x * b / TWO32;
    var y := x * (TWO32 - f) / TWO31;
    assert -(x * b) * (TWO32 - 1) >= -TWO63 * (2 * TWO32);
    assert TWO63 - y * b >= -2 * TWO32;
    if y >= TWO32 {
      MulMono(TWO32, y, b);
    }
    ModSmall(TWO32 - f, TWO32);
    DivModUnique(-f, TWO32, -1, TWO32 - f);
    ModSmall(y, TWO32);
  }

  /** The linear starting guess 3/4 + 1/sqrt(2) - b/2 and its error. */
  lemma InitialError(b: nat)
    requires TWO31 <= b <= TWO32
    ensures
      var x := 0x7504_F333 + TWO32 - b;
      TWO63 - 800_000_000_000_000_000 <= x * b <= TWO63 + 800_000_000_000_000_000
  {
    var k := 0x7504_F333 + TWO32;
    var x := k - b;
    assert x * b == k * b - b * b;
    assert (b - TWO31) * (TWO32 - b) >= 0 by { MulMono(0, b - TWO31, TWO32 - b); }
    assert (b - TWO31) * (TWO32 - b) == (TWO31 + TWO32) * b - b * b - TWO31 * TWO32;
    assert (2 * b - k) * (2 * b - k) >= 0;
    assert (2 * b - k) * (2 * b - k) == 4 * (b * b) - 4 * (k * b) + k * k;
  }

  lemma SquareBound(e: int, m: int)
    requires -m <= e <= m
    ensures e * e <= m * m
  {
    if e >= 0 { MulMono(e, m, e); MulMono(e, m, m); } else { MulMono(-e, m, -e); MulMono(-e, m, m); }
  }

  /** 32-bit unsigned reciprocal of b, strictly below 2^63 / b. */
  function Reciprocal(b: nat): nat {
    var x0 := (0x7504_F333 - b) % TWO32;
    (Refine(Refine(Refine(x0, b), b), b) - 2) % TWO32
  }

  /** Three steps and the final bump leave the reciprocal strictly below the exact one, by less
      than 2^-27 of it. */
  lemma ReciprocalBelow(b: nat)
    requires TWO31 <= b < TWO32 && b % 256 == 0
    ensures 0 < TWO63 - Reciprocal(b) * b < 0x10_0000_0000
  {
    if b == TWO31 {
      ReciprocalOfOne(b);
    } else {
      var x0 := 0x7504_F333 + TWO32 - b;
      DivModUnique(0x7504_F333 - b, TWO32, -1, x0);
      InitialError(b);
      SquareBound(TWO63 - x0 * b, 800_000_000_000_000_000);
      RefineBounds(x0, b, 640_000_000_000_000_000_000_000_000_000_000_000);
      var x1 := Refine(x0, b);
      assert -2 * TWO32 <= TWO63 - x1 * b <= 0x100_0000_0000_0000;
      SquareBound(TWO63 - x1 * b, 0x100_0000_0000_0000);
      RefineBounds(x1, b, 0x100_0000_0000_0000 * 0x100_0000_0000_0000);
      var x2 := Refine(x1, b);
      assert -2 * TWO32 <= TWO63 - x2 * b <= 0x2_0002_0000_0000;
      SquareBound(TWO63 - x2 * b, 0x2_0002_0000_0000);
      RefineBounds(x2, b, 0x2_0002_0000_0000 * 0x2_0002_0000_0000);
      var x3 := Refine(x2, b);
      assert -TWO32 - 4 <= TWO63 - x3 * b <= 0xA_0000_0000;
      FinalBump(x3, b);
    }
  }

  lemma FinalBump(x: nat, b: nat)
    requires TWO31 + 256 <= b < TWO32 && x < TWO32
    requires -TWO32 - 4 <= TWO63 - x * b <= 0xA_0000_0000
    ensures 0 < TWO63 - ((x - 2) % TWO32) * b < 0x10_0000_0000
  {
    if x < 2 { MulMono(x, 1, b); }
    ModSmall(x - 2, TWO32);
    assert (x - 2) * b == x * b - 2 * b;
  }

  /** One step evaluated from its quotients and remainders. */
  lemma RefineValue(x: nat, b: nat, f: int, t1: nat, y: nat, t2: nat)
    requires x * b == f * TWO32 + t1 && t1 < TWO32 && 0 < f < TWO32
    requires x * (TWO32 - f) == y * TWO31 + t2 && t2 < TWO31
    ensures Refine(x, b) == y % TWO32
  {
    DivModUnique(x * b, TWO32, f, t1);
    DivModUnique(-f, TWO32, -1, TWO32 - f);
    DivModUnique(x * (TWO32 - f), TWO31, y, t2);
  }

  lemma ReciprocalOfOne(b: nat)
    requires b == TWO31
    ensures Reciprocal(b) == 0xFFFF_FFFE
  {
    var x0 := (0x7504_F333 - b) % TWO32;
    RefineValue(x0, b, 2055371161, 2147483648, 4287065294, 1798409093);
    var x1 := Refine(x0, b);
    RefineValue(x1, b, 2143532647, 0, 4294952757, 1446954270);
    var x2 := Refine(x1, b);
    RefineValue(x2, b, 2147476378, 2147483648, 4294967296, 2041785118);
    var x3 := Refine(x2, b);
    assert x3 == 0;
  }

  // ---------------------------------------------------------------- quotient and residual

  /** The truncated quotient is below the exact one, by less than one and a quarter units. */
  lemma QuotientBelow(a: nat, b: nat, x: nat)
    requires 0 < a < 0x100_0000 && 0x80_0000 <= b < 0x100_0000
    requires 0 < TWO63 - x * (256 * b) < 0x10_0000_0000
    ensures
      var residual := a * 0x100_0000 - (x * (2 * a) / TWO32) * b;
      0 < residual && 4 * residual < 5 * b
  {
    var g := 0x80_0000_0000_0000 - x * b;
    assert x * (256 * b) == 256 * (x * b);
    var w := x * (2 * a);
    var q, t := w / TWO32, w % TWO32;
    var residual := a * 0x100_0000 - q * b;
    calc {
      residual * TWO32;
      { assert (q * b) * TWO32 == (q * TWO32) * b; }
      a * 0x100_0000 * TWO32 - (w - t) * b;
      { assert (w - t) * b == w * b - t * b; assert w * b == (x * b) * (2 * a); }
      a * 0x100_0000_0000_0000 - (x * b) * (2 * a) + t * b;
      { assert g * (2 * a) == 0x80_0000_0000_0000 * (2 * a) - (x * b) * (2 * a); }
      g * (2 * a) + t * b;
    }
    MulMonoStrict(0, g, 2 * a);
    MulMono(0, t, b);
    MulMono(g, 0x1000_0000, 2 * a);
    MulMono(t, TWO32, b);
  }

  /** The quotient estimate passes 2^24 exactly when the significand of a exceeds that of b. */
  lemma QuotientRange(a: nat, b: nat, q: nat)
    requires 0x80_0000 <= a < 0x100_0000 && 0x80_0000 <= b < 0x100_0000
    requires 0 < a * 0x100_0000 - q * b && 4 * (a * 0x100_0000 - q * b) < 5 * b
    ensures q < 0x100_0000 <==> a <= b
    ensures 0x80_0000 <= q < 0x200_0000
  {
    if q >= 0x100_0000 { MulMono(0x100_0000, q, b); } else { MulMono(q, 0xFF_FFFF, b); }
    if q < 0x80_0000 { MulMono(q, 0x7F_FFFF, b); }
    if q >= 0x200_0000 { MulMono(0x200_0000, q, b); }
  }

  lemma HalveEven(p: nat, b: nat, y: nat)
    requires p % 2 == 1 && p * b == 2 * y
    ensures b % 2 == 0 && p * (b / 2) == y
  {
    var h := b / 2;
    var c := b % 2;
    assert p * b == 2 * (p * h) + p * c;
    assert p * c == if c == 0 then 0 else p;
  }

  /** An odd factor contributes no factor of two. */
  lemma {:induction false} OddFactor(p: nat, b: nat, z: nat, k: nat) returns (c: nat)
    requires p % 2 == 1 && p * b == z * Pow2(k)
    ensures b == c * Pow2(k)
    decreases k
  {
    if k == 0 {
      c := b;
    } else {
      var h := Pow2(k - 1);
      assert z * (2 * h) == 2 * (z * h);
      HalveEven(p, b, z * h);
      c := OddFactor(p, b / 2, z, k - 1);
      assert c * (2 * h) == 2 * (c * h);
    }
  }

  /** A quotient of two 24-bit significands is never half way between two candidates. */
  lemma NoTie(b: nat, q: nat, z: nat)
    requires 0 < b < 0x100_0000
    ensures (2 * q + 1) * b != z * 0x100_0000
  {
    if (2 * q + 1) * b == z * 0x100_0000 {
      Pow2Values();
      var c := OddFactor(2 * q + 1, b, z, 24);
      if c > 0 { MulMono(1, c, 0x100_0000); }
    }
  }

  /** Rounding up when twice the residual exceeds b gives the nearest integer to n / b. */
  lemma RoundResidual(n: nat, b: nat, q: nat, z: nat)
    requires 0 < b < 0x100_0000 && 2 * n == z * 0x100_0000
    requires 0 < n - q * b && 2 * (n - q * b) < 3 * b
    ensures
      var m := q + (if 2 * (n - q * b) > b then 1 else 0);
      0 < 2 * (n - m * b) + b < 2 * b
  {
    NoTie(b, q, z);
    assert (2 * q + 1) * b == 2 * (q * b) + b;
    assert (q + 1) * b == q * b + b;
  }

  // ---------------------------------------------------------------- from the significand to the encoding

  /** r nearest to num / den when num / den = (n / b) * 2^(we-1) and m is the nearest integer to n / b. */
  lemma NearestFromSignificand(r: nat, m: nat, we: nat, num: nat, den: nat, n: nat, b: nat)
    requires 0x80_0000 <= m <= 0x100_0000 && 1 <= we <= 254 && b > 0 && den > 0
    requires r == we * 0x80_0000 + (m - 0x80_0000)
    requires num * b == n * (den * Pow2(we - 1))
    requires 0 < 2 * (n - m * b) + b < 2 * b && n >= 0x80_0000 * b
    ensures IsNearestEven(24, INF_REP, r, num, den)
  {
    var u := Pow2(we - 1);
    MulMonoStrict(0, den, u);
    Squeeze(num, b, n, den * u, m);
    BelowSpacing(r, m, we, num, den);
    AboveSpacing(r, m, we, num, den);
    NearestByNeighbours(24, INF_REP, r, num, den);
  }

  lemma BelowSpacing(r: nat, m: nat, we: nat, num: nat, den: nat)
    requires 0x80_0000 <= m <= 0x100_0000 && 1 <= we && den > 0
    requires r == we * 0x80_0000 + (m - 0x80_0000)
    requires (m - 1) * (den * Pow2(we - 1)) + m * (den * Pow2(we - 1)) < 2 * num
    requires 0x80_0000 * (den * Pow2(we - 1)) <= num
    ensures (Value(24, r - 1) + Value(24, r)) * den < 2 * num
  {
    Pow2Values();
    var u := Pow2(we - 1);
    ValueOfParts(24, we, m);
    ScaleBoth(m, u, den);
    Distribute(Value(24, r - 1), Value(24, r), den);
    if m > 0x80_0000 {
      ValueOfParts(24, we, m - 1);
      ScaleBoth(m - 1, u, den);
    } else {
      ValueMono(24, r - 1, r);
      MulMonoStrict(Value(24, r - 1), Value(24, r), den);
    }
  }

  lemma AboveSpacing(r: nat, m: nat, we: nat, num: nat, den: nat)
    requires 0x80_0000 <= m <= 0x100_0000 && 1 <= we && den > 0
    requires r == we * 0x80_0000 + (m - 0x80_0000)
    requires 2 * num < m * (den * Pow2(we - 1)) + (m + 1) * (den * Pow2(we - 1))
    ensures 2 * num < (Value(24, r) + Value(24, r + 1)) * den
  {
    Pow2Values();
    var u := Pow2(we - 1);
    ValueOfParts(24, we, m);
    ScaleBoth(m, u, den);
    Distribute(Value(24, r), Value(24, r + 1), den);
    if m < 0x100_0000 {
      ValueOfParts(24, we, m + 1);
      ScaleBoth(m + 1, u, den);
    } else {
      ValueOfParts(24, we + 1, 0x80_0001);
      assert 0x80_0001 * Pow2(we) == 0x100_0002 * u;
      ScaleBoth(0x100_0002, u, den);
      MulMono(0, den, u);
      MulMono(m + 1, 0x100_0002, den * u);
    }
  }

  lemma ScaleBoth(m: nat, u: nat, den: nat)
    ensures (m * u) * den == m * (den * u)
  {}

  /** Multiplying out: the bounds on n / b become bounds on num / den. */
  lemma Squeeze(num: nat, b: nat, n: nat, du: nat, m: nat)
    requires b > 0 && du > 0 && m > 0 && num * b == n * du
    requires 0 < 2 * (n - m * b) + b < 2 * b && n >= 0x80_0000 * b
    ensures (m - 1) * du + m * du < 2 * num < m * du + (m + 1) * du
    ensures 0x80_0000 * du <= num
  {
    TwoTimes(m, du);
    TwoTimes(m, b);
    assert (2 * m - 1) * b < 2 * n < (2 * m + 1) * b;
    assert (2 * num) * b == (2 * n) * du;
    ScaleStrict(2 * m - 1, b, 2 * n, du, 2 * num);
    ScaleStrictUp(2 * m + 1, b, 2 * n, du, 2 * num);
    ScaleDown(0x80_0000, b, n, du, num);
  }

  lemma TwoTimes(m: int, b: int)
    ensures (m - 1) * b + m * b == (2 * m - 1) * b == 2 * (m * b) - b
    ensures m * b + (m + 1) * b == (2 * m + 1) * b == 2 * (m * b) + b
  {
    Distribute(m, -1, b);
    Distribute(m, 1, b);
    Distribute(2 * m, -1, b);
    Distribute(2 * m, 1, b);
    Distribute(m, m, b);
  }

  lemma ScaleDown(k: int, b: int, n: int, du: int, num: int)
    requires b > 0 && du > 0 && num * b == n * du && k * b <= n
    ensures k * du <= num
  {
    MulMono(k * b, n, du);
    assert (k * b) * du == (k * du) * b;
    MulCancel(k * du, num, b);
  }

  lemma ScaleStrict(k: int, b: int, n: int, du: int, num: int)
    requires b > 0 && du > 0 && num * b == n * du && k * b < n
    ensures k * du < num
  {
    MulMonoStrict(k * b, n, du);
    assert (k * b) * du == (k * du) * b;
    MulCancelStrict(k * du, num, b);
  }

  lemma ScaleStrictUp(k: int, b: int, n: int, du: int, num: int)
    requires b > 0 && du > 0 && num * b == n * du && n < k * b
    ensures num < k * du
  {
    MulMonoStrict(n, k * b, du);
    assert (k * b) * du == (k * du) * b;
    MulCancelStrict(num, k * du, b);
  }

  // ---------------------------------------------------------------- exponents

  /** A finite non-zero encoding as normalised significand and exponent: the value is
      sig * 2^(exp-1) smallest subnormals, scaled by 2^32 so that exp - 1 may be negative. */
  ghost predicate Normalised(abs: nat, sig: nat, exp: int) {
    && 0x80_0000 <= sig < 0x100_0000
    && -22 <= exp <= 254
    && Value(24, abs) * TWO32 == sig * Pow2(exp + 31)
  }

  lemma NormalIsNormalised(abs: nat)
    requires IMPLICIT_BIT <= abs < INF_REP
    ensures Normalised(abs, IMPLICIT_BIT + abs % IMPLICIT_BIT, abs / IMPLICIT_BIT)
  {
    Pow2Values();
    var e := abs / IMPLICIT_BIT;
    var sig := IMPLICIT_BIT + abs % IMPLICIT_BIT;
    ValueOfParts(24, e, sig);
    Pow2Add(e - 1, 32);
    MulAssoc(sig, Pow2(e - 1), Pow2(32));
  }

  lemma SubnormalIsNormalised(abs: nat, shift: nat)
    requires 0 < abs < IMPLICIT_BIT && shift == 24 - BitLen(abs)
    ensures 1 <= shift <= 23
    ensures Normalised(abs, Shl(abs, shift), 1 - shift)
  {
    Pow2Values();
    BitLenBound(abs, 23);
    var l := BitLen(abs);
    Pow2Add(l - 1, shift);
    Pow2Add(l, shift);
    MulMono(Pow2(l - 1), abs, Pow2(shift));
    MulMonoStrict(abs, Pow2(l), Pow2(shift));
    Pow2Add(shift, 32 - shift);
    MulAssoc(abs, Pow2(shift), Pow2(32 - shift));
  }

  /** Smallest subnormals in 1.0. */
  const UNIT: nat := 149

  /** The exact quotient, in smallest subnormals, is (a / b) * 2^(ea - eb + 149). */
  lemma ScaledQuotient(va: nat, vb: nat, a: nat, b: nat, ea: int, eb: int, s: nat, we: nat)
    requires ea >= -22 && eb >= -22 && we >= 1
    requires va * TWO32 == a * Pow2(ea + 31) && vb * TWO32 == b * Pow2(eb + 31)
    requires we - 1 == ea - eb + UNIT - s
    ensures Shl(va, UNIT) * b == Shl(a, s) * (vb * Pow2(we - 1))
  {
    var u := Pow2(we - 1);
    Pow2Add(ea + 31, UNIT);
    Pow2Add(eb + 31, s + (we - 1));
    Pow2Add(s, we - 1);
    var p, pa, pb, ps := Pow2(UNIT), Pow2(ea + 31), Pow2(eb + 31), Pow2(s);
    assert pa * p == pb * (ps * u);
    calc {
      (va * p) * b * TWO32;
      == { FourFactors(va, p, b, TWO32); }
      (va * TWO32) * (p * b);
      == { FourFactors(a, pa, p, b); }
      (a * b) * (pa * p);
      (a * b) * (pb * (ps * u));
      == { FiveFactors(a, b, pb, ps, u); }
      (a * ps) * ((b * pb) * u);
      (a * ps) * ((vb * TWO32) * u);
      == { FourFactors(vb, TWO32, u, a * ps); }
      (a * ps) * (vb * u) * TWO32;
    }
    MulCancelEq((va * p) * b, (a * ps) * (vb * u), TWO32);
  }

  lemma FourFactors(a: int, b: int, c: int, d: int)
    ensures ((a * b) * c) * d == (a * d) * (b * c)
    ensures (a * b) * (c * d) == (a * d) * (b * c)
    ensures d * ((a * b) * c) == (d * (a * c)) * b
  {}

  lemma FiveFactors(a: int, b: int, c: int, d: int, e: int)
    ensures (a * b) * (c * (d * e)) == (a * d) * ((b * c) * e)
  {}

  lemma MoveTwo(a: int, p: int)
    ensures (2 * a) * p == a * (2 * p) == (2 * p) * a
  {}

  lemma ComparePowers(a: nat, b: nat, x: nat, y: nat)
    requires 0x80_0000 <= a < 0x100_0000 && 0x80_0000 <= b < 0x100_0000
    ensures a * Pow2(x) <= b * Pow2(y) <==> x < y || (x == y && a <= b)
  {
    var p, q := Pow2(x), Pow2(y);
    if x < y {
      Pow2Strict(x, y);
      MulMono(a, 2 * b, p);
      MoveTwo(b, p);
      MulMono(2 * p, q, b);
    } else if y < x {
      Pow2Strict(y, x);
      MulMonoStrict(b, 2 * a, q);
      MoveTwo(a, q);
      MulMono(2 * q, p, a);
    } else if a > b {
      MulMonoStrict(b, a, p);
    } else {
      MulMono(a, b, p);
    }
  }

  /** The written exponent falls below one exactly for quotients of at most 2^-126. */
  lemma FlushCondition(va: nat, vb: nat, a: nat, b: nat, ea: int, eb: int, we: int)
    requires 0x80_0000 <= a < 0x100_0000 && 0x80_0000 <= b < 0x100_0000
    requires -22 <= ea && -22 <= eb
    requires va * TWO32 == a * Pow2(ea + 31) && vb * TWO32 == b * Pow2(eb + 31)
    requires we == ea - eb + 127 - (if a <= b then 1 else 0)
    ensures we < 1 <==> Shl(va, UNIT) <= 0x80_0000 * vb
  {
    var p, pa, pb := Pow2(UNIT), Pow2(ea + 31), Pow2(eb + 31);
    ComparePowers(a, b, ea + 31 + UNIT, eb + 31 + 23);
    Pow2Add(ea + 31, UNIT);
    Pow2Add(eb + 31, 23);
    Pow2Values();
    assert (va * p) * TWO32 == a * (pa * p) by { FourFactors(va, p, 1, TWO32); MulAssoc(a, pa, p); }
    assert (0x80_0000 * vb) * TWO32 == b * (pb * 0x80_0000) by { MulAssoc(b, pb, 0x80_0000); }
    if va * p <= 0x80_0000 * vb {
      MulMono(va * p, 0x80_0000 * vb, TWO32);
    } else {
      MulMonoStrict(0x80_0000 * vb, va * p, TWO32);
    }
  }

  /** From exponent field 255 up the quotient is at least 2^128 and rounds to infinity. */
  lemma OverflowIsNearest(we: nat, num: nat, den: nat, n: nat, b: nat)
    requires we >= 255 && b > 0 && den > 0
    requires num * b == n * (den * Pow2(we - 1)) && n >= 0x80_0000 * b
    ensures IsNearestEven(24, INF_REP, INF_REP, num, den)
  {
    var u := Pow2(we - 1);
    var du := den * u;
    MulMono(0, den, u);
    MulMono(0x80_0000 * b, n, du);
    assert (0x80_0000 * b) * du == (0x80_0000 * du) * b;
    MulCancel(0x80_0000 * du, num, b);
    LargestEncoding(we, INF_REP, den, num);
  }

  lemma LargestEncoding(we: nat, inf: nat, den: nat, num: nat)
    requires inf == INF_REP
    requires we >= 255 && den > 0 && 0x80_0000 * (den * Pow2(we - 1)) <= num
    ensures IsNearestEven(24, inf, inf, num, den)
  {
    Pow2Values();
    var top: nat := 254;
    var u := Pow2(top);
    Pow2Mono(top, we - 1);
    ValueOfParts(24, top + 1, 0x80_0000);
    assert Value(24, inf) == 0x80_0000 * u;
    ScaledBelow(u, Pow2(we - 1), den, num);
    NearestAtTop(24, inf, num, den);
  }

  lemma ScaledBelow(u: nat, p: nat, den: nat, num: nat)
    requires u <= p && 0x80_0000 * (den * p) <= num
    ensures (0x80_0000 * u) * den <= num
  {
    MulMono(u, p, den);
    ScaleBoth(0x80_0000, u, den);
  }

  /** Returning zero is correct only up to half the smallest subnormal. */
  lemma ZeroIsNearest(num: nat, den: nat)
    requires den > 0
    ensures IsNearestEven(24, INF_REP, 0, num, den) <==> 2 * num <= den
  {
    Pow2Values();
    assert Value(24, 0) == 0 && Value(24, 1) == 1;
    if 2 * num <= den {
      NearestByNeighbours(24, INF_REP, 0, num, den);
    } else {
      assert Distance(0 * den, num) > Distance(1 * den, num);
    }
  }

  // ---------------------------------------------------------------- the routine

  /** Three Newton-Raphson steps from the linear guess, each truncated to 32 bits. */
  method Invert(q31b: nat) returns (reciprocal: nat)
    requires TWO31 <= q31b < TWO32 && q31b % 256 == 0
    ensures 0 < TWO63 - reciprocal * q31b < 0x10_0000_0000
  {
    reciprocal := (0x7504_F333 - q31b) % TWO32;
    var correction := (-(reciprocal * q31b / TWO32)) % TWO32;
    reciprocal := (reciprocal * correction / TWO31) % TWO32;
    correction := (-(reciprocal * q31b / TWO32)) % TWO32;
    reciprocal := (reciprocal * correction / TWO31) % TWO32;
    correction := (-(reciprocal * q31b / TWO32)) % TWO32;
    reciprocal := (reciprocal * correction / TWO31) % TWO32;
    reciprocal := (reciprocal - 2) % TWO32;
    ReciprocalBelow(q31b);
  }

  /** Quotient in [2^23, 2^24), its rounding bit, and whether it was shifted right. */
  method RoundedQuotient(aSignificand: nat, bSignificand: nat)
    returns (quotient: nat, round: nat, shifted: bool)
    requires 0x80_0000 <= aSignificand < 0x100_0000 && 0x80_0000 <= bSignificand < 0x100_0000
    ensures 0x80_0000 <= quotient < 0x100_0000 && round <= 1
    ensures shifted <==> aSignificand > bSignificand
    ensures
      var n := aSignificand * (if shifted then 0x80_0000 else 0x100_0000);
      0 < 2 * (n - (quotient + round) * bSignificand) + bSignificand < 2 * bSignificand
  {
    var reciprocal := Invert(bSignificand * 256);
    QuotientBelow(aSignificand, bSignificand, reciprocal);
    quotient := reciprocal * (aSignificand * 2) / TWO32;
    QuotientRange(aSignificand, bSignificand, quotient);
    shifted := quotient >= 0x100_0000;
    var residual: int;
    if !shifted {
      WrappedResidual(aSignificand, bSignificand, quotient, 0x100_0000);
      residual := (aSignificand * 0x100_0000 % TWO32 - quotient * bSignificand % TWO32) % TWO32;
      RoundResidual(aSignificand * 0x100_0000, bSignificand, quotient, 2 * aSignificand);
    } else {
      HalvedQuotient(aSignificand, bSignificand, quotient);
      quotient := quotient / 2;
      WrappedResidual(aSignificand, bSignificand, quotient, 0x80_0000);
      residual := (aSignificand * 0x80_0000 % TWO32 - quotient * bSignificand % TWO32) % TWO32;
      RoundResidual(aSignificand * 0x80_0000, bSignificand, quotient, aSignificand);
    }
    round := if residual * 2 > bSignificand then 1 else 0;
  }

  /** Exponent and fraction packed, then incremented: a carry moves into the exponent. */
  lemma PackQuotient(quotient: nat, we: nat)
    requires 0x80_0000 <= quotient < 0x100_0000
    ensures BitOr(BitAnd(quotient, 0x7F_FFFF), Shl(we, 23)) == we * 0x80_0000 + (quotient - 0x80_0000)
  {
    Pow2Values();
    BitAndMask(quotient, 23);
    DivModUnique(quotient, 0x80_0000, 1, quotient - 0x80_0000);
    BitOrDisjoint(we, 23, quotient - 0x80_0000);
  }

  /** The 32-bit difference of the two wrapped products is the exact residual. */
  lemma WrappedResidual(a: nat, b: nat, q: nat, k: nat)
    requires 0 < a * k - q * b < TWO32
    ensures (a * k % TWO32 - q * b % TWO32) % TWO32 == a * k - q * b
  {
    var x, y := a * k, q * b;
    ModOfMod(y, TWO32, x % TWO32);
    ModOfMod(x, TWO32, -y);
    ModSmall(x - y, TWO32);
  }

  lemma HalvedQuotient(a: nat, b: nat, q: nat)
    requires 0 < a * 0x100_0000 - q * b && 4 * (a * 0x100_0000 - q * b) < 5 * b
    ensures 0 < a * 0x80_0000 - (q / 2) * b && 2 * (a * 0x80_0000 - (q / 2) * b) < 3 * b
  {
    var h, c := q / 2, q % 2;
    Distribute(2 * h, c, b);
    MulAssoc(2, h, b);
    assert c == 0 || c == 1;
  }

  /** The exact quotient of two finite magnitudes rounds to encoding r. */
  ghost predicate RoundsQuotient(r: nat, aAbs: nat, bAbs: nat) {
    IsNearestEven(24, INF_REP, r, Shl(Value(24, aAbs), UNIT), Value(24, bAbs))
  }

  /** The exact quotient is above 2^-126, the smallest normal number. */
  ghost predicate AboveMinNormal(aAbs: nat, bAbs: nat) {
    Shl(Value(24, aAbs), UNIT) > 0x80_0000 * Value(24, bAbs)
  }

  /** The exact quotient is at most 2^-150, half the smallest subnormal. */
  ghost predicate RoundsToZero(aAbs: nat, bAbs: nat) {
    2 * Shl(Value(24, aAbs), UNIT) <= Value(24, bAbs)
  }

  /** The magnitude r is correctly rounded exactly when the quotient is above 2^-126 or rounds to
      zero; in between it is flushed to zero. */
  ghost predicate RoundedOrFlushed(aAbs: nat, bAbs: nat, r: nat) {
    && r <= INF_REP
    && (!AboveMinNormal(aAbs, bAbs) ==> r == 0)
    && (RoundsQuotient(r, aAbs, bAbs) <==> AboveMinNormal(aAbs, bAbs) || RoundsToZero(aAbs, bAbs))
  }

  /** All cases of the written exponent, from normalised operands. */
  lemma QuotientIsRounded(aAbs: nat, bAbs: nat, a: nat, b: nat, ea: int, eb: int, m: nat, we: int, r: nat)
    requires Normalised(aAbs, a, ea) && Normalised(bAbs, b, eb)
    requires we == ea - eb + 127 - (if a <= b then 1 else 0)
    requires
      var n := a * (if a > b then 0x80_0000 else 0x100_0000);
      0 < 2 * (n - m * b) + b < 2 * b
    requires 0x80_0000 <= m <= 0x100_0000
    requires we >= 255 ==> r == INF_REP
    requires we < 1 ==> r == 0
    requires 1 <= we <= 254 ==> r == we * 0x80_0000 + (m - 0x80_0000)
    ensures RoundedOrFlushed(aAbs, bAbs, r)
  {
    var va, vb := Value(24, aAbs), Value(24, bAbs);
    FlushCondition(va, vb, a, b, ea, eb, we);
    PositiveValue(vb, b, eb);
    var s := if a > b then 23 else 24;
    var n := Shl(a, s);
    Pow2Values();
    if we < 1 {
      ZeroIsNearest(Shl(va, UNIT), vb);
    } else {
      ScaledQuotient(va, vb, a, b, ea, eb, s, we);
      MulMono(0x80_0000, a, 0x100_0000);
      if we >= 255 {
        OverflowIsNearest(we, Shl(va, UNIT), vb, n, b);
      } else {
        NearestFromSignificand(r, m, we, Shl(va, UNIT), vb, n, b);
      }
    }
  }

  lemma PositiveValue(v: nat, sig: nat, exp: int)
    requires exp >= -31 && sig > 0 && v * TWO32 == sig * Pow2(exp + 31)
    ensures v > 0
  {
    MulMonoStrict(0, sig, Pow2(exp + 31));
  }

  /** Moves the leading digit of a subnormal significand to the implicit bit. */
  method Normalize(significand: nat) returns (shifted: nat, exponent: int)
    requires 0 < significand < IMPLICIT_BIT
    ensures Normalised(significand, shifted, exponent)
  {
    Pow2Values();
    BitLenBound(significand, 23);
    assert BitLen(IMPLICIT_BIT) == 24 by { BitLenUnique(IMPLICIT_BIT, 24); }
    var shift := Clz(32, significand) - Clz(32, IMPLICIT_BIT);
    SubnormalIsNormalised(significand, shift);
    shifted := Shl(significand, shift);
    exponent := 1 - shift;
  }

  /** Or-ing the implicit bit into a significand that already has it, or does not have it yet. */
  lemma OrImplicit(x: nat)
    requires x < 0x100_0000
    ensures BitOr(x, IMPLICIT_BIT) == if x < IMPLICIT_BIT then x + IMPLICIT_BIT else x
  {
    Pow2Values();
    if x < IMPLICIT_BIT {
      BitOrDisjoint(1, 23, x);
    } else {
      OrIdempotentTop(23, x - IMPLICIT_BIT);
    }
  }

  lemma {:induction false} OrIdempotentTop(k: nat, l: nat)
    requires l < Pow2(k)
    ensures BitOr(Pow2(k) + l, Pow2(k)) == Pow2(k) + l
  {
    if k > 0 {
      var p := Pow2(k - 1);
      assert (2 * p + l) / 2 == p + l / 2 && (2 * p + l) % 2 == l % 2;
      OrIdempotentTop(k - 1, l / 2);
    }
  }

  /** (a ^ b) & signBit: set exactly when the signs differ. */
  lemma SignOfQuotient(a: nat, b: nat)
    requires a < TWO32 && b < TWO32
    ensures BitAnd(BitXor(a, b), SIGN_BIT) == if (a < SIGN_BIT) == (b < SIGN_BIT) then 0 else SIGN_BIT
  {
    Pow2Values();
    var z := BitXor(a, b);
    BitTest(z, 31);
    BitXorHigh(a, b, 31);
    assert Shr(a, 31) == if a < SIGN_BIT then 0 else 1;
    assert Shr(b, 31) == if b < SIGN_BIT then 0 else 1;
  }

  /** Exponent and fraction fields do not see the sign bit. */
  lemma Fields(rep: nat)
    requires rep < TWO32
    ensures
      var abs, field := rep % SIGN_BIT, rep / 0x80_0000 % 256;
      && field == abs / 0x80_0000
      && rep % 0x80_0000 == abs % 0x80_0000
      && ((field - 1) % TWO32 >= 254 <==> abs < IMPLICIT_BIT || abs >= INF_REP)
  {
    var field := rep / 0x80_0000 % 256;
    if field == 0 { DivModUnique(-1, TWO32, -1, TWO32 - 1); } else { ModSmall(field - 1, TWO32); }
  }

  /** The magnitude of a finite non-zero operand, unpacked and renormalised when subnormal. */
  method Unpack(rep: nat) returns (significand: nat, exponent: int)
    requires rep < TWO32 && 0 < rep % SIGN_BIT < INF_REP
    ensures Normalised(rep % SIGN_BIT, significand, exponent)
  {
    Fields(rep);
    var abs := rep % SIGN_BIT;
    significand := rep % 0x80_0000;
    exponent := rep / 0x80_0000 % 256;
    if abs < IMPLICIT_BIT {
      var scale;
      significand, scale := Normalize(significand);
      exponent := exponent + scale;
    } else {
      NormalIsNormalised(abs);
      assert Normalised(abs, IMPLICIT_BIT + significand, exponent);
    }
    OrImplicit(significand);
    significand := BitOr(significand, IMPLICIT_BIT);
  }

  predicate IsNaN(rep: nat) { rep % 0x8000_0000 > 0x7F80_0000 }

  predicate IsInf(rep: nat) { rep % 0x8000_0000 == 0x7F80_0000 }

  predicate IsZero(rep: nat) { rep % 0x8000_0000 == 0 }

  predicate IsFiniteNonZero(rep: nat) { 0 < rep % 0x8000_0000 < 0x7F80_0000 }

  function QuotientSign(a: nat, b: nat): nat {
    if (a < 0x8000_0000) == (b < 0x8000_0000) then 0 else 0x8000_0000
  }

  /** A NaN made quiet: the first bit of the fraction is on, the rest is kept. */
  predicate IsQuieted(rep: nat, r: nat) {
    r == if rep / 0x40_0000 % 2 == 1 then rep else rep + 0x40_0000
  }

  lemma {:induction false} OrBit(x: nat, k: nat)
    ensures BitOr(x, Pow2(k)) == if Shr(x, k) % 2 == 1 then x else x + Pow2(k)
    decreases k
  {
    if k == 0 {
      BitOrOne(x);
    } else if x > 0 {
      OrBit(x / 2, k - 1);
      ShrStep(x, k);
      assert Pow2(k) == 2 * Pow2(k - 1);
    }
  }

  lemma OrQuiet(rep: nat)
    ensures IsQuieted(rep, BitOr(rep, QUIET_BIT))
  {
    Pow2Values();
    OrBit(rep, 22);
  }

  lemma OrSign(r: nat, sign: nat)
    requires r <= INF_REP && (sign == 0 || sign == SIGN_BIT)
    ensures BitOr(r, sign) == r + sign
  {
    Pow2Values();
    BitOrDisjoint(if sign == 0 then 0 else 1, 31, r);
  }

  /** What section 6 of IEEE 754-2008 asks when an operand is NaN, infinite or zero. */
  predicate IsSpecialQuotient(a: nat, b: nat, r: nat) {
    && (IsNaN(a) ==> IsQuieted(a, r))
    && (!IsNaN(a) && IsNaN(b) ==> IsQuieted(b, r))
    && ((IsInf(a) && IsInf(b)) || (IsZero(a) && IsZero(b)) ==> r == 0x7FC0_0000)
    && (IsInf(a) && !IsNaN(b) && !IsInf(b) ==> r == QuotientSign(a, b) + 0x7F80_0000)
    && (IsFiniteNonZero(a) && IsZero(b) ==> r == QuotientSign(a, b) + 0x7F80_0000)
    && (!IsNaN(a) && !IsInf(a) && IsInf(b) ==> r == QuotientSign(a, b))
    && (IsZero(a) && IsFiniteNonZero(b) ==> r == QuotientSign(a, b))
  }

  /** The block for zero, infinite and NaN operands; done is false when it falls through. */
  method DivideSpecial(a: nat, b: nat, quotientSign: nat) returns (done: bool, r: nat)
    requires a < TWO32 && b < TWO32 && quotientSign == QuotientSign(a, b)
    ensures done <==> !(IsFiniteNonZero(a) && IsFiniteNonZero(b))
    ensures done ==> IsSpecialQuotient(a, b, r)
  {
    var aAbs, bAbs := a % SIGN_BIT, b % SIGN_BIT;
    OrSign(INF_REP, quotientSign);
    OrQuiet(a);
    OrQuiet(b);
    if aAbs > INF_REP { return true, BitOr(a, QUIET_BIT); }
    if bAbs > INF_REP { return true, BitOr(b, QUIET_BIT); }
    if aAbs == INF_REP {
      if bAbs == INF_REP { return true, QNAN_REP; }
      return true, BitOr(aAbs, quotientSign);
    }
    if bAbs == INF_REP { return true, quotientSign; }
    if aAbs == 0 {
      if bAbs == 0 { return true, QNAN_REP; }
      return true, quotientSign;
    }
    if bAbs == 0 { return true, BitOr(INF_REP, quotientSign); }
    return false, 0;
  }

  /** a / b on binary32 encodings. Finite non-zero operands, subnormal ones included, give the
      correctly rounded quotient exactly when it is above 2^-126 or rounds to zero anyway:
      everything up to and including 2^-126 is flushed to zero. */
  method Divide(a: nat, b: nat) returns (r: nat)
    requires a < TWO32 && b < TWO32
    ensures !(IsFiniteNonZero(a) && IsFiniteNonZero(b)) ==> IsSpecialQuotient(a, b, r)
    ensures IsFiniteNonZero(a) && IsFiniteNonZero(b) ==>
              && QuotientSign(a, b) <= r
              && RoundedOrFlushed(a % SIGN_BIT, b % SIGN_BIT, r - QuotientSign(a, b))
  {
    SignOfQuotient(a, b);
    Fields(a);
    Fields(b);
    var quotientSign := BitAnd(BitXor(a, b), SIGN_BIT);
    var aExponent := a / 0x80_0000 % 256;
    var bExponent := b / 0x80_0000 % 256;
    if (aExponent - 1) % TWO32 >= 254 || (bExponent - 1) % TWO32 >= 254 {
      var done;
      done, r := DivideSpecial(a, b, quotientSign);
      if done { return; }
    }
    var absResult := DivideFinite(a, b);
    OrSign(absResult, quotientSign);
    r := BitOr(absResult, quotientSign);
  }

  /** Writes exponent and fraction: infinity above the range, zero below it. */
  method Pack(quotient: nat, round: nat, writtenExponent: int) returns (absResult: nat)
    requires 0x80_0000 <= quotient < 0x100_0000 && round <= 1
    ensures absResult <= INF_REP
    ensures writtenExponent >= 255 ==> absResult == INF_REP
    ensures writtenExponent < 1 ==> absResult == 0
    ensures 1 <= writtenExponent <= 254 ==>
              absResult == writtenExponent * 0x80_0000 + (quotient + round - 0x80_0000)
  {
    if writtenExponent >= 255 {
      absResult := INF_REP;
    } else if writtenExponent < 1 {
      absResult := 0;
    } else {
      PackQuotient(quotient, writtenExponent);
      absResult := BitOr(BitAnd(quotient, 0x7F_FFFF), Shl(writtenExponent, 23));
      absResult := absResult + round;
    }
  }

  /** The main path: the magnitude of the quotient of finite non-zero operands. */
  method DivideFinite(a: nat, b: nat) returns (absResult: nat)
    requires a < TWO32 && b < TWO32 && IsFiniteNonZero(a) && IsFiniteNonZero(b)
    ensures RoundedOrFlushed(a % SIGN_BIT, b % SIGN_BIT, absResult)
  {
    var aSignificand, aExp := Unpack(a);
    var bSignificand, bExp := Unpack(b);
    var quotientExponent := aExp - bExp;
    var quotient, round, shifted := RoundedQuotient(aSignificand, bSignificand);
    if !shifted { quotientExponent := quotientExponent - 1; }
    absResult := Pack(quotient, round, quotientExponent + 127);
    QuotientIsRounded(a % SIGN_BIT, b % SIGN_BIT, aSignificand, bSignificand, aExp, bExp,
                      quotient + round, quotientExponent + 127, absResult);
  }

  /** The smallest normal number divided by one comes out as zero: its significands are equal, so
      the truncated quotient stays below 2^24 and the exponent drops out of the normal range. */
  method DivideMinNormalByOne() returns (r: nat)
    ensures r == 0 && !RoundsQuotient(r, 0x0080_0000, 0x3F80_0000)
  {
    r := Divide(0x0080_0000, 0x3F80_0000);
    MinNormalOverOne(0x0080_0000, 0x3F80_0000);
  }

  lemma MinNormalOverOne(a: nat, b: nat)
    requires a == 0x0080_0000 && b == 0x3F80_0000
    ensures !AboveMinNormal(a, b) && !RoundsToZero(a, b)
  {
    Pow2Values();
    ValueOfParts(24, 1, 0x80_0000);
    ValueOfParts(24, 127, 0x80_0000);
    Pow2Add(126, 23);
  }
}
