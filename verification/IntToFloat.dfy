/** Integer to floating-point conversion, convertFromInt of section 5.4.1 of IEEE 754-2008. */
module IntToFloat {
  import opened Arith
  import opened FloatFormat
  import opened Words

  const FLT_MANT_DIG: nat := 24
  const DBL_MANT_DIG: nat := 53

  // ---------------------------------------------------------------- rounding to m digits

  /** How a with more than m digits rounds: t is a cut to m digits, w the part cut off. */
  ghost predicate RoundsUp(t: nat, w: nat, g: nat) {
    2 * w > g || (2 * w == g && t % 2 == 1)
  }

  /** Significand s in [2^(m-1), 2^m] with exponent BitLen(a) - 1 before any renormalisation. */
  ghost predicate Rounded(m: nat, a: nat, s: nat)
    requires a > 0
  {
    var sd := BitLen(a);
    if sd <= m then s == a * Pow2(m - sd)
    else
      var g := Pow2(sd - m);
      s == a / g + (if RoundsUp(a / g, a % g, g) then 1 else 0)
  }

  lemma CutDigits(m: nat, a: nat)
    requires m >= 1 && BitLen(a) > m
    ensures Pow2(m - 1) <= a / Pow2(BitLen(a) - m) < 2 * Pow2(m - 1)
  {
    var sd := BitLen(a);
    Pow2Add(m - 1, sd - m);
    Pow2Add(m, sd - m);
    QuotientRange(a, Pow2(sd - m), Pow2(m - 1), Pow2(m));
  }

  lemma QuotientRange(a: nat, g: nat, lo: nat, hi: nat)
    requires 0 < g && lo * g <= a < hi * g
    ensures lo <= a / g < hi
  {
    DivBounds(a, g);
    var t := a / g;
    MulCancelStrict(t, hi, g);
    assert (t + 1) * g == t * g + g;
    MulCancelStrict(lo, t + 1, g);
  }

  lemma RoundedRange(m: nat, a: nat, s: nat)
    requires m >= 1 && a > 0 && Rounded(m, a, s)
    ensures Pow2(m - 1) <= s <= 2 * Pow2(m - 1)
  {
    var sd := BitLen(a);
    if sd <= m {
      Pow2Add(sd - 1, m - sd);
      Pow2Add(sd, m - sd);
      MulMono(Pow2(sd - 1), a, Pow2(m - sd));
      MulMono(a, Pow2(sd), Pow2(m - sd));
    } else {
      CutDigits(m, a);
    }
  }

  /** The rounded significand, placed under exponent field BitLen(a) - 1 + bias, is the correctly
      rounded encoding of a. The integer a is a * 2^(bias+m-2) smallest subnormals. */
  lemma RoundedIsNearest(m: nat, bias: nat, top: nat, a: nat, s: nat, r: nat)
    requires m >= 2 && bias >= 1 && a > 0 && Rounded(m, a, s)
    requires Pow2(m - 1) <= s <= 2 * Pow2(m - 1)
    requires r == (BitLen(a) - 1 + bias) * Pow2(m - 1) + (s - Pow2(m - 1)) <= top
    ensures RoundsInteger(m, bias, top, r, a)
  {
    var sd := BitLen(a);
    if sd <= m {
      ValueOfParts(m, sd - 1 + bias, s);
      ExactScale(a, m - sd, sd + bias - 2);
      NearestExact(m, top, r, a * Pow2(bias + m - 2));
    } else {
      InexactIsNearest(m, bias, top, a, s, r);
    }
  }

  lemma InexactIsNearest(m: nat, bias: nat, top: nat, a: nat, s: nat, r: nat)
    requires m >= 2 && bias >= 1 && BitLen(a) > m && Rounded(m, a, s)
    requires r == (BitLen(a) - 1 + bias) * Pow2(m - 1) + (s - Pow2(m - 1)) <= top
    ensures RoundsInteger(m, bias, top, r, a)
  {
    var sd := BitLen(a);
    var g, c := Pow2(sd - m), Pow2(bias + m - 2);
    ScaleParts(a, sd - m, bias + m - 2);
    CutDigits(m, a);
    HalfScaled(a % g, g, c);
    TieGoesToEven(a / g, a % g, g, s);
    NearestParts(m, sd - 1 + bias, top, a / g, s, r, (a % g) * c);
  }

  lemma TieGoesToEven(t: nat, w: nat, g: nat, s: nat)
    requires s == t + (if RoundsUp(t, w, g) then 1 else 0)
    ensures 2 * w == g ==> s % 2 == 0
  {}

  lemma NearestParts(m: nat, e: nat, top: nat, t: nat, s: nat, r: nat, cut: nat)
    requires m >= 2 && e >= 1 && Pow2(m - 1) <= t < 2 * Pow2(m - 1)
    requires r == e * Pow2(m - 1) + (s - Pow2(m - 1)) <= top
    requires s == t || s == t + 1
    requires s == t ==> 2 * cut <= Pow2(e - 1)
    requires s == t + 1 ==> cut <= Pow2(e - 1) <= 2 * cut
    requires 2 * cut == Pow2(e - 1) ==> s % 2 == 0
    ensures IsNearestEven(m, top, r, t * Pow2(e - 1) + cut, 1)
  {
    var u := Pow2(e - 1);
    ParityOfParts(m, e, s);
    ValueOfParts(m, e, t);
    ValueOfParts(m, e, t + 1);
    NextMultiple(t, u);
    if s == t {
      NearestDown(m, top, r, t * u, u, cut);
    } else {
      MulMono(1, e, Pow2(m - 1));
      NearestUp(m, top, r, t * u, u, cut);
    }
  }

  lemma ExactScale(a: nat, i: nat, j: nat)
    ensures (a * Pow2(i)) * Pow2(j) == a * Pow2(i + j)
  {
    Pow2Add(i, j);
    MulAssoc(a, Pow2(i), Pow2(j));
  }

  lemma ScaleParts(a: nat, i: nat, j: nat)
    ensures a * Pow2(j) == (a / Pow2(i)) * Pow2(i + j) + (a % Pow2(i)) * Pow2(j)
    ensures Pow2(i + j) == Pow2(i) * Pow2(j)
  {
    Pow2Add(i, j);
    var g, c := Pow2(i), Pow2(j);
    var t, w := a / g, a % g;
    DivBounds(a, g);
    Distribute(t * g, w, c);
    MulAssoc(t, g, c);
  }

  lemma NextMultiple(t: nat, u: nat)
    ensures (t + 1) * u == t * u + u
  {}

  lemma HalfScaled(w: nat, g: nat, c: nat)
    requires c > 0
    ensures 2 * w < g <==> 2 * (w * c) < g * c
    ensures 2 * w == g <==> 2 * (w * c) == g * c
    ensures w < g <==> w * c < g * c
  {
    MulAssoc(2, w, c);
    if 2 * w < g { MulMonoStrict(2 * w, g, c); }
    if 2 * w > g { MulMonoStrict(g, 2 * w, c); }
    if w < g { MulMonoStrict(w, g, c); } else { MulMono(g, w, c); }
  }

  lemma ParityOfParts(m: nat, e: nat, s: nat)
    requires m >= 2
    ensures (e * Pow2(m - 1) + (s - Pow2(m - 1))) % 2 == s % 2
  {
    var h := Pow2(m - 2);
    assert e * (2 * h) == 2 * (e * h);
  }

  lemma NearestExact(m: nat, top: nat, r: nat, num: nat)
    requires m >= 1 && r <= top && Value(m, r) == num
    ensures IsNearestEven(m, top, r, num, 1)
  {
    if r > 0 { ValueMono(m, r - 1, r); }
    ValueMono(m, r, r + 1);
    NearestByNeighbours(m, top, r, num, 1);
  }

  lemma NearestDown(m: nat, top: nat, r: nat, base: nat, u: nat, cut: nat)
    requires m >= 1 && r <= top
    requires Value(m, r) == base && Value(m, r + 1) == base + u
    requires 2 * cut <= u && (2 * cut == u ==> r % 2 == 0)
    ensures IsNearestEven(m, top, r, base + cut, 1)
  {
    if r > 0 { ValueMono(m, r - 1, r); }
    NearestByNeighbours(m, top, r, base + cut, 1);
  }

  lemma NearestUp(m: nat, top: nat, r: nat, base: nat, u: nat, cut: nat)
    requires m >= 1 && 0 < r <= top
    requires Value(m, r - 1) == base && Value(m, r) == base + u
    requires cut <= u <= 2 * cut && (2 * cut == u ==> r % 2 == 0)
    ensures IsNearestEven(m, top, r, base + cut, 1)
  {
    ValueMono(m, r, r + 1);
    NearestByNeighbours(m, top, r, base + cut, 1);
  }

  // ---------------------------------------------------------------- the shared rounding sequence

  /** Keeping two extra digits plus a sticky bit keeps enough to decide the rounding. */
  lemma StickyBits(m: nat, a: nat, x: nat)
    requires m >= 1 && BitLen(a) > m
    requires BitLen(a) == m + 1 ==> x == 2 * a
    requires BitLen(a) == m + 2 ==> x == a
    requires BitLen(a) > m + 2 ==>
               var k := Pow2(BitLen(a) - (m + 2));
               x == BitOr(a / k, if a % k != 0 then 1 else 0)
    ensures SameRounding(a, Pow2(BitLen(a) - m), x)
  {
    var sd := BitLen(a);
    Pow2Values();
    if sd > m + 2 {
      var k := Pow2(sd - (m + 2));
      assert Pow2(sd - m) == 2 * Pow2(sd - m - 1);
      BitOrOne(a / k);
      StickyShift(a, k, x);
    }
  }

  /** x carries the quotient a / g and the position of the remainder relative to g / 2. */
  ghost predicate SameRounding(a: nat, g: nat, x: nat)
    requires g > 0
  {
    && x / 4 == a / g
    && (x % 4 >= 2 <==> 2 * (a % g) >= g)
    && (x % 2 == 1 && x % 4 >= 2 <==> 2 * (a % g) > g)
  }

  lemma StickyShift(a: nat, k: nat, x: nat)
    requires k > 0
    requires x == if a % k != 0 then a / k - a / k % 2 + 1 else a / k
    ensures SameRounding(a, 4 * k, x)
  {
    DivDiv(a, k, 4);
    var y := a / k;
    DivNonNeg(a, k);
    SmallMultiple(k, y % 4);
    LowDigit(y);
    StickyCases(y / 4, y % 4, a % k, k, x, a % (k * 4));
  }

  lemma LowDigit(y: nat)
    ensures y == 4 * (y / 4) + y % 4 && y - y % 2 + 1 == 4 * (y / 4) + (y % 4 - y % 4 % 2 + 1)
  {
    var t, c := y / 4, y % 4;
    DivModUnique(y, 2, 2 * t + c / 2, c % 2);
  }

  lemma SmallMultiple(k: nat, c: nat)
    requires c <= 3
    ensures k * c == if c == 0 then 0 else if c == 1 then k else if c == 2 then 2 * k else 3 * k
  {}

  lemma StickyCases(t: nat, c: nat, z: nat, k: nat, x: nat, w: nat)
    requires z < k && c <= 3
    requires w == z + (if c == 0 then 0 else if c == 1 then k else if c == 2 then 2 * k else 3 * k)
    requires x == 4 * t + (if z != 0 then c - c % 2 + 1 else c)
    ensures x / 4 == t
    ensures x % 4 >= 2 <==> 2 * w >= 4 * k
    ensures x % 2 == 1 && x % 4 >= 2 <==> 2 * w > 4 * k
  {}

  /** Or P into R, add one, drop Q and R. */
  lemma RoundStep(x: nat)
    ensures (BitOr(x, if BitAnd(x, 4) != 0 then 1 else 0) + 1) / 4
         == x / 4 + (if x % 4 >= 2 && (x % 2 == 1 || x / 4 % 2 == 1) then 1 else 0)
  {
    Pow2Values();
    BitTest(x, 2);
    BitOrOne(x);
  }

  lemma RoundStepRounds(m: nat, a: nat, x: nat)
    requires m >= 1 && BitLen(a) > m && SameRounding(a, Pow2(BitLen(a) - m), x)
    ensures
      var y := (BitOr(x, if BitAnd(x, 4) != 0 then 1 else 0) + 1) / 4;
      Rounded(m, a, y) && Pow2(m - 1) <= y <= Pow2(m)
  {
    RoundStep(x);
    CutDigits(m, a);
  }

  /** The increment before two bits are dropped stays within the word. */
  lemma IncrementFits(n: nat, m: nat, a: nat)
    requires n >= m + 3 && (a + 1) / 4 <= Pow2(m)
    ensures (a + 1) % Pow2(n) == a + 1
  {
    Pow2Mono(m + 3, n);
    assert Pow2(m + 3) == 8 * Pow2(m) by { Pow2Add(3, m); Pow2Values(); }
    ModSmall(a + 1, Pow2(n));
  }

  lemma CarryTest(m: nat, a: nat)
    requires a <= Pow2(m)
    ensures BitAnd(a, Pow2(m)) != 0 <==> a == Pow2(m)
  {
    BitTest(a, m);
    if a == Pow2(m) { DivModUnique(a, Pow2(m), 1, 0); } else { ModSmall(a, Pow2(m)); }
  }

  lemma ShiftUpExact(n: nat, m: nat, a: nat)
    requires m >= 1 && n >= m && a > 0 && BitLen(a) <= m
    ensures Pow2(m - 1) <= a * Pow2(m - BitLen(a)) < 2 * Pow2(m - 1) <= Pow2(n)
  {
    var sd := BitLen(a);
    Pow2Add(sd - 1, m - sd);
    Pow2Add(sd, m - sd);
    MulMono(Pow2(sd - 1), a, Pow2(m - sd));
    MulMonoStrict(a, Pow2(sd), Pow2(m - sd));
    Pow2Mono(m, n);
  }

  /** The switch on the number of digits: m digits, the two below them, and the "or" of the rest. */
  method KeepGuardBits(n: nat, m: nat, a: nat) returns (x: nat)
    requires m >= 1 && n >= m + 2 && 0 < a < Pow2(n) && BitLen(a) > m
    ensures SameRounding(a, Pow2(BitLen(a) - m), x)
  {
    var sd := n - Clz(n, a);
    if sd == m + 1 {
      Pow2Mono(m + 2, n);
      ModSmall(2 * a, Pow2(n));
      x := (2 * a) % Pow2(n);
    } else if sd == m + 2 {
      x := a;
    } else {
      AllOnesShift(n, n + m + 2 - sd);
      BitAndMask(a, sd - (m + 2));
      var sticky := BitAnd(a, (Pow2(n) - 1) / Pow2(n + m + 2 - sd)) != 0;
      x := BitOr(Shr(a, sd - (m + 2)), if sticky then 1 else 0);
    }
    StickyBits(m, a, x);
  }

  /** The block every conversion shares: shift keeping guard and sticky bits, or the last kept bit
      into the sticky bit, add one, drop two bits, renormalise. Words have n bits, three more than are
      kept, so that adding one does not wrap. */
  method RoundToDigits(n: nat, m: nat, a0: nat) returns (a: nat, e: nat)
    requires m >= 2 && n >= m + 3 && 0 < a0 < Pow2(n)
    ensures Pow2(m - 1) <= a < 2 * Pow2(m - 1)
    ensures e == BitLen(a0) - 1 || (e == BitLen(a0) && a == Pow2(m - 1))
    ensures Rounded(m, a0, if e == BitLen(a0) then 2 * Pow2(m - 1) else a)
  {
    var sd := n - Clz(n, a0);
    a, e := a0, sd - 1;
    if sd > m {
      a := KeepGuardBits(n, m, a);
      RoundStepRounds(m, a0, a);
      a := BitOr(a, if BitAnd(a, 4) != 0 then 1 else 0);
      IncrementFits(n, m, a);
      a := (a + 1) % Pow2(n);
      a := a / 4;
      CarryTest(m, a);
      if BitAnd(a, Pow2(m)) != 0 {
        a := a / 2;
        e := e + 1;
      }
    } else {
      ShiftUpExact(n, m, a0);
      ModSmall(a0 * Pow2(m - sd), Pow2(n));
      a := Shl(a, m - sd) % Pow2(n);
    }
  }

  // ---------------------------------------------------------------- the conversions

  const FLT_INF: nat := 0x7F80_0000
  const DBL_INF: nat := 0x7FF0_0000_0000_0000

  /** Exponent and fraction fields packed from a renormalised significand. */
  lemma PackedIsNearest(m: nat, bias: nat, top: nat, a0: nat, a: nat, e: nat, r: nat)
    requires m >= 2 && bias >= 1 && a0 > 0
    requires Pow2(m - 1) <= a < 2 * Pow2(m - 1)
    requires e == BitLen(a0) - 1 || (e == BitLen(a0) && a == Pow2(m - 1))
    requires Rounded(m, a0, if e == BitLen(a0) then 2 * Pow2(m - 1) else a)
    requires r == (e + bias) * Pow2(m - 1) + (a - Pow2(m - 1)) <= top
    ensures RoundsInteger(m, bias, top, r, a0)
  {
    if e == BitLen(a0) {
      NextMultiple(e - 1 + bias, Pow2(m - 1));
      RoundedIsNearest(m, bias, top, a0, 2 * Pow2(m - 1), r);
    } else {
      RoundedIsNearest(m, bias, top, a0, a, r);
    }
  }

  lemma PackFields(k: nat, f: nat, a: nat)
    requires Pow2(k) <= a < 2 * Pow2(k)
    ensures BitOr(f * Pow2(k), BitAnd(a, Pow2(k) - 1)) == f * Pow2(k) + (a - Pow2(k))
  {
    BitAndMask(a, k);
    DivModUnique(a, Pow2(k), 1, a - Pow2(k));
    BitOrDisjoint(f, k, a - Pow2(k));
  }

  lemma ZeroIsNearest(m: nat, bias: nat, top: nat)
    requires m >= 2
    ensures RoundsInteger(m, bias, top, 0, 0)
  {
    NearestExact(m, top, 0, 0);
  }

  /** Nothing packs above cap, and only a carry out of n digits reaches it. */
  lemma PackedBound(m: nat, n: nat, bias: nat, cap: nat, s: nat, e: nat, r: nat)
    requires m >= 1 && cap == (n + bias) * Pow2(m - 1)
    requires Pow2(m - 1) <= s < 2 * Pow2(m - 1) && e <= n && (e == n ==> s == Pow2(m - 1))
    requires r == (e + bias) * Pow2(m - 1) + (s - Pow2(m - 1))
    ensures r <= cap && (r == cap <==> e == n)
  {
    if e < n {
      NextMultiple(e + bias, Pow2(m - 1));
      MulMono(e + bias + 1, n + bias, Pow2(m - 1));
    }
  }

  /** n-bit unsigned integer to the format with m digits, one word. */
  method FloatUnsigned(n: nat, m: nat, bias: nat, cap: nat, top: nat, a: nat) returns (r: nat)
    requires m >= 2 && n >= m + 3 && bias >= 1 && a < Pow2(n)
    requires 0 < cap == (n + bias) * Pow2(m - 1) <= top
    ensures RoundsInteger(m, bias, top, r, a)
    ensures r <= cap
    ensures r == cap <==> a >= Pow2(n) - Pow2(n - m - 1)
  {
    CarryThreshold(n, m, a);
    if a == 0 {
      ZeroIsNearest(m, bias, top);
      return 0;
    }
    BitLenBound(a, n);
    var s, e := RoundToDigits(n, m, a);
    PackFields(m - 1, e + bias, s);
    r := BitOr(Shl(e + bias, m - 1), BitAnd(s, Pow2(m - 1) - 1));
    PackedBound(m, n, bias, cap, s, e, r);
    PackedIsNearest(m, bias, top, a, s, e, r);
  }

  /** 64-bit unsigned integer to binary32. */
  method FloatUnDiSf(a: nat) returns (r: nat)
    requires a < Pow2(64)
    ensures RoundsInteger(FLT_MANT_DIG, 127, FLT_INF, r, a)
    ensures r < FLT_INF
  {
    Pow2Values();
    r := FloatUnsigned(64, FLT_MANT_DIG, 127, 191 * Pow2(23), FLT_INF, a);
  }

  /** 64-bit signed integer to binary32: the magnitude is rounded, the sign bit added. */
  method FloatDiSf(a: int) returns (r: nat)
    requires Fits(64, a)
    ensures
      var sign := if a < 0 then Pow2(31) else 0;
      var magnitude: nat := if a < 0 then -a else a;
      && sign <= r < sign + FLT_INF
      && RoundsInteger(FLT_MANT_DIG, 127, FLT_INF, r - sign, magnitude)
  {
    Pow2Values();
    var s := SignMask(a);
    Magnitude(64, a);
    var rest := FloatUnsigned(64, FLT_MANT_DIG, 127, 191 * Pow2(23), FLT_INF, ToUnsigned(64, NegateIf(64, a, s)));
    BitOrDisjoint(if a < 0 then 1 else 0, 31, rest);
    r := BitOr(if s == 0 then 0 else Pow2(31), rest);
  }

  /** 128-bit unsigned integer to binary32, which can round up to infinity. */
  method FloatUnTiSf(a: nat) returns (r: nat)
    requires a < Pow2(128)
    ensures RoundsInteger(FLT_MANT_DIG, 127, FLT_INF, r, a)
    ensures r == FLT_INF <==> a >= Pow2(128) - Pow2(103)
  {
    Pow2Values();
    r := FloatUnsigned(128, FLT_MANT_DIG, 127, FLT_INF, FLT_INF, a);
  }

  /** Only the integers within half a unit of 2^n carry out to it. */
  lemma CarryThreshold(n: nat, m: nat, a: nat)
    requires 1 <= m < n && a < Pow2(n)
    ensures a > 0 && BitLen(a) == n && Rounded(m, a, Pow2(m)) <==> a >= Pow2(n) - Pow2(n - m - 1)
  {
    var g := Pow2(n - m);
    Pow2Strict(n - m - 1, n - 1);
    if a < Pow2(n - 1) {
      BitLenBound(a, n - 1);
    } else {
      BitLenUnique(a, n);
      CarryDigits(m, a);
    }
  }

  lemma CarryDigits(m: nat, a: nat)
    requires 1 <= m < BitLen(a)
    ensures Rounded(m, a, Pow2(m)) <==> 2 * a + Pow2(BitLen(a) - m) >= 2 * Pow2(BitLen(a))
  {
    var g := Pow2(BitLen(a) - m);
    Pow2Add(m, BitLen(a) - m);
    CutDigits(m, a);
    DivBounds(a, g);
    CarryCut(a, g, a / g, a % g, Pow2(m), Pow2(m - 1));
  }

  lemma CarryCut(a: nat, g: nat, t: nat, w: nat, q: nat, h: nat)
    requires a == t * g + w && w < g && t < q && q == 2 * h
    ensures t + (if RoundsUp(t, w, g) then 1 else 0) == q <==> 2 * a + g >= 2 * (q * g)
  {
    NextMultiple(q - 1, g);
    if t < q - 1 {
      NextMultiple(q - 2, g);
      MulMono(t, q - 2, g);
    }
  }

  /** Two words read as one number in base b. */
  function Join(high: nat, low: nat, b: nat): nat {
    MulMono(0, high, b);
    high * b + low
  }

  /** n-bit unsigned integer to a format whose fraction is split over a high word of hb bits
      and a low word of lb bits. */
  method FloatUnsignedHalves(n: nat, hb: nat, lb: nat, bias: nat, top: nat, a: nat)
    returns (high: nat, low: nat)
    requires hb >= 1 && hb < lb && n >= hb + lb + 4 && bias >= 1 && a < Pow2(n)
    requires (n + bias) * Pow2(hb + lb) <= top
    ensures low < Pow2(lb)
    ensures RoundsInteger(hb + lb + 1, bias, top, Join(high, low, Pow2(lb)), a)
  {
    if a == 0 {
      ZeroIsNearest(hb + lb + 1, bias, top);
      return 0, 0;
    }
    BitLenBound(a, n);
    var s, e := RoundToDigits(n, hb + lb + 1, a);
    high := BitOr(Shl(e + bias, hb), BitAnd(s / Pow2(lb) % Pow2(lb), Pow2(hb) - 1));
    low := s % Pow2(lb);
    PackHalves(hb, lb, e + bias, s, high, low);
    var r := Join(high, low, Pow2(lb));
    PackedBound(hb + lb + 1, n, bias, Shl(n + bias, hb + lb), s, e, r);
    PackedIsNearest(hb + lb + 1, bias, top, a, s, e, r);
  }

  lemma PackHalves(hb: nat, lb: nat, f: nat, s: nat, high: nat, low: nat)
    requires hb < lb && Pow2(hb + lb) <= s < 2 * Pow2(hb + lb)
    requires high == BitOr(f * Pow2(hb), BitAnd(s / Pow2(lb) % Pow2(lb), Pow2(hb) - 1))
    requires low == s % Pow2(lb)
    ensures Join(high, low, Pow2(lb)) == f * Pow2(hb + lb) + (s - Pow2(hb + lb))
  {
    var p, b := Pow2(hb), Pow2(lb);
    Pow2Add(hb, lb);
    MulAssoc(2, p, b);
    QuotientRange(s, b, p, 2 * p);
    Pow2Strict(hb, lb);
    ModSmall(s / b, b);
    PackFields(hb, f, s / b);
    DivBounds(s, b);
    JoinHalves(f, p, b, s / b, low, s);
  }

  lemma JoinHalves(f: nat, p: nat, b: nat, h: nat, low: nat, s: nat)
    requires s == h * b + low && p <= h
    ensures (f * p + (h - p)) * b + low == f * (p * b) + (s - p * b)
  {
    var d := h - p;
    Distribute(f * p, d, b);
    Distribute(d, p, b);
    MulAssoc(f, p, b);
  }

  /** 128-bit unsigned integer to binary64, written as two 32-bit halves. */
  method FloatUnTiDf(a: nat) returns (high: nat, low: nat)
    requires a < Pow2(128)
    ensures low < Pow2(32)
    ensures RoundsInteger(DBL_MANT_DIG, 1023, DBL_INF, Join(high, low, Pow2(32)), a)
  {
    assert Pow2(52) == 0x10_0000_0000_0000 by { Pow2Values(); Pow2Add(22, 22); }
    high, low := FloatUnsignedHalves(128, 20, 32, 1023, DBL_INF, a);
  }

  // ---------------------------------------------------------------- rounding by comparing with half

  lemma ImplicitBitOff(x: nat)
    requires Pow2(23) <= x < 2 * Pow2(23)
    ensures BitXor(x, Pow2(23)) == x - Pow2(23)
  {
    BitXorTop(23, x - Pow2(23));
  }

  /** 32-bit unsigned integer to binary32, by comparing the bits shifted out with one half. */
  method FloatUnSiSf(a: nat) returns (result: nat)
    requires a < Pow2(32)
    ensures RoundsInteger(FLT_MANT_DIG, 127, FLT_INF, result, a)
  {
    Pow2Values();
    if a == 0 {
      ZeroIsNearest(FLT_MANT_DIG, 127, FLT_INF);
      return 0;
    }
    var exponent := 31 - Clz(32, a);
    var fraction := FractionByHalf(a, exponent);
    RoundedRange(FLT_MANT_DIG, a, fraction + Pow2(23));
    result := fraction + Shl(exponent + 127, 23);
    RoundedIsNearest(FLT_MANT_DIG, 127, FLT_INF, a, fraction + Pow2(23), result);
  }

  /** Shifts a into the significand field, rounding if that is a right shift. */
  method FractionByHalf(a: nat, exponent: nat) returns (result: nat)
    requires 0 < a < Pow2(32) && exponent == BitLen(a) - 1
    ensures Rounded(FLT_MANT_DIG, a, result + Pow2(23))
  {
    if exponent <= 23 {
      var shift := 23 - exponent;
      ExactFraction(a, shift);
      result := BitXor(Shl(a, shift), Pow2(23));
    } else {
      result := RoundedRightShift(a, exponent - 23);
    }
  }

  lemma {:induction false} ExactFraction(a: nat, shift: nat)
    requires 0 < a < Pow2(32) && BitLen(a) + shift == 24
    ensures Rounded(FLT_MANT_DIG, a, BitXor(Shl(a, shift), Pow2(23)) + Pow2(23))
  {
    ShiftUpExact(32, FLT_MANT_DIG, a);
    ImplicitBitOff(Shl(a, shift));
  }

  method RoundedRightShift(a: nat, shift: nat) returns (result: nat)
    requires 0 < a < Pow2(32) && shift == BitLen(a) - 24 > 0
    ensures Rounded(FLT_MANT_DIG, a, result + Pow2(23))
  {
    BitLenBound(a, 32);
    var round := Shl(a, 32 - shift) % Pow2(32);
    result := BitXor(Shr(a, shift), Pow2(23));
    HalfRounding(a, shift, round, result);
    if round > Pow2(31) { result := result + 1; }
    if round == Pow2(31) { result := result + result % 2; }
  }

  lemma HalfRounding(a: nat, shift: nat, round: nat, f: nat)
    requires 0 < a && 0 < shift == BitLen(a) - 24 <= 32
    requires round == Shl(a, 32 - shift) % Pow2(32) && f == BitXor(Shr(a, shift), Pow2(23))
    ensures Rounded(FLT_MANT_DIG, a, Pow2(23) +
              if round > Pow2(31) then f + 1 else if round == Pow2(31) then f + f % 2 else f)
  {
    CutDigits(FLT_MANT_DIG, a);
    ImplicitBitOff(Shr(a, shift));
    CompareWithHalf(a, shift);
    HalfStep(f, Shr(a, shift), a % Pow2(shift), Pow2(shift));
  }

  lemma HalfStep(f: nat, t: nat, w: nat, g: nat)
    requires t == f + Pow2(23)
    ensures (if 2 * w > g then f + 1 else if 2 * w == g then f + f % 2 else f) + Pow2(23)
         == t + (if RoundsUp(t, w, g) then 1 else 0)
  {
    assert Pow2(23) == 2 * Pow2(22);
  }

  lemma CompareWithHalf(a: nat, shift: nat)
    requires 1 <= shift <= 32
    ensures Shl(a, 32 - shift) % Pow2(32) > Pow2(31) <==> 2 * (a % Pow2(shift)) > Pow2(shift)
    ensures Shl(a, 32 - shift) % Pow2(32) == Pow2(31) <==> 2 * (a % Pow2(shift)) == Pow2(shift)
  {
    var g, c := Pow2(shift), Pow2(32 - shift);
    ShiftLeftKeepsLow(a, shift, 32 - shift);
    Pow2Add(shift, 32 - shift);
    HalfScaled(a % g, g, c);
  }

  lemma SameInteger(m: nat, bias: nat, top: nat, r: nat, s: nat, a: nat)
    requires m >= 2 && RoundsInteger(m, bias, top, r, a) && RoundsInteger(m, bias, top, s, a)
    ensures r == s
  {
    NearestUnique(m, top, r, s, a * Pow2(bias + m - 2), 1);
  }

  /** Both unsigned routines give the same bits on every 32-bit value. */
  method ConvertBothWays(a: nat) returns (byHalf: nat, bySticky: nat)
    requires a < Pow2(32)
    ensures byHalf == bySticky
  {
    Pow2Mono(32, 64);
    byHalf := FloatUnSiSf(a);
    bySticky := FloatUnDiSf(a);
    SameInteger(FLT_MANT_DIG, 127, FLT_INF, byHalf, bySticky, a);
  }
}
