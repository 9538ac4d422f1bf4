/** Unsigned division of two-word numbers, word by word. */
module WideDivision {
  import opened Arith
  import opened Division

  /** A number of two words of w bits each. */
  datatype Pair = Pair(high: nat, low: nat)

  predicate IsPair(w: nat, x: Pair) {
    x.high < Pow2(w) && x.low < Pow2(w)
  }

  function All(w: nat, x: Pair): nat {
    Shl(x.high, w) + x.low
  }

  function Split(w: nat, v: nat): Pair {
    Pair(Shr(v, w), v % Pow2(w))
  }

  lemma SplitAll(w: nat, v: nat)
    requires v < Pow2(2 * w)
    ensures IsPair(w, Split(w, v)) && All(w, Split(w, v)) == v
  {
    Pow2Add(w, w);
    DivBounds(v, Pow2(w));
    DivLess(v, Pow2(w), Pow2(w));
  }

  lemma AllBound(w: nat, x: Pair)
    requires IsPair(w, x)
    ensures All(w, x) < Pow2(2 * w)
    ensures Shr(All(w, x), w) == x.high && All(w, x) % Pow2(w) == x.low
  {
    Pow2Add(w, w);
    MulMono(x.high + 1, Pow2(w), Pow2(w));
    Distribute(x.high, 1, Pow2(w));
    DivModUnique(All(w, x), Pow2(w), x.high, x.low);
  }

  // ---------------------------------------------------------------- shifts of pairs

  /** (x << 1) | bit. */
  function PairShiftIn(w: nat, x: Pair, bit: nat): Pair
    requires w >= 1
  {
    Pair(ShiftIn(w, x.high, Shr(x.low, w - 1)), ShiftIn(w, x.low, bit))
  }

  /** Doubling two digits: t and u carry out of the high and the low one. */
  lemma DoubleDigits(b: nat, high: nat, low: nat, t: nat, y: nat, u: nat, z: nat)
    requires 2 * high == t * b + y && 2 * low == u * b + z && y + u < b && z < b
    ensures b * b > 0 && (2 * (high * b + low)) % (b * b) == (y + u) * b + z
  {
    MulMonoStrict(0, b, b);
    MulMono(y + u + 1, b, b);
    Distribute(y + u, 1, b);
    Distribute(t * b, y, b);
    MulAssoc(t, b, b);
    Distribute(y, u, b);
    assert 2 * (high * b + low) == t * (b * b) + ((y + u) * b + z);
    DivModUnique(2 * (high * b + low), b * b, t, (y + u) * b + z);
  }

  lemma PairShiftInValue(w: nat, x: Pair, bit: nat)
    requires w >= 1 && IsPair(w, x) && bit <= 1
    ensures IsPair(w, PairShiftIn(w, x, bit))
    ensures All(w, PairShiftIn(w, x, bit)) == (2 * All(w, x)) % Pow2(2 * w) + bit
  {
    Pow2Add(w, w);
    var t, u, y, z := Shr(x.high, w - 1), Shr(x.low, w - 1), (2 * x.high) % Pow2(w), (2 * x.low) % Pow2(w);
    assert PairShiftIn(w, x, bit) == Pair(y + u, z + bit) && y + u < Pow2(w) && z + bit < Pow2(w)
           && 2 * x.high == t * Pow2(w) + y && 2 * x.low == u * Pow2(w) + z && z < Pow2(w) by {
      ShiftInValue(w, x.low, bit);
      ShiftInValue(w, x.high, u);
    }
    DoubleDigits(Pow2(w), x.high, x.low, t, y, u, z);
  }

  lemma TopBit(w: nat, x: Pair)
    requires w >= 1 && IsPair(w, x)
    ensures Shr(All(w, x), 2 * w - 1) == Shr(x.high, w - 1)
  {
    AllBound(w, x);
    Pow2Add(w, w - 1);
    DivDiv(All(w, x), Pow2(w), Pow2(w - 1));
  }

  /** x >> k for 0 < k < w. */
  function ShrPair(w: nat, x: Pair, k: nat): Pair
    requires k <= w
  {
    Pair(Shr(x.high, k), BitOr(Shl(x.high, w - k) % Pow2(w), Shr(x.low, k)))
  }

  /** x << k for 0 < k < w. */
  function ShlPair(w: nat, x: Pair, k: nat): Pair
    requires k <= w
  {
    Pair(BitOr(Shl(x.high, k) % Pow2(w), Shr(x.low, w - k)), Shl(x.low, k) % Pow2(w))
  }

  /** Shifting two digits of base s * t right by s. */
  lemma ShrDigits(s: nat, t: nat, high: nat, low: nat)
    requires s > 0 && t > 0
    ensures (high * (t * s) + low) / s == (high / s) * (t * s) + ((high % s) * t + low / s)
    ensures (high * (t * s) + low) % s == low % s
  {
    var b := t * s;
    MulAssoc(high, t, s);
    ModAddMul(low, high * t, s);
    DivBounds(high, s);
    Distribute((high / s) * s, high % s, t);
    MulAssoc(high / s, s, t);
    assert s * t == t * s;
  }

  /** A digit of base s * t multiplied by t. */
  lemma ShlDigit(s: nat, t: nat, x: nat)
    requires s > 0 && t > 0
    ensures x * t == (x / s) * (s * t) + (x % s) * t && (x % s) * t < s * t
  {
    DivBounds(x, s);
    Distribute((x / s) * s, x % s, t);
    MulAssoc(x / s, s, t);
    MulMonoStrict(x % s, s, t);
  }

  lemma ShrPairValue(w: nat, x: Pair, k: nat)
    requires IsPair(w, x) && 0 < k < w
    ensures IsPair(w, ShrPair(w, x, k)) && All(w, ShrPair(w, x, k)) == Shr(All(w, x), k)
  {
    var s, t := Pow2(k), Pow2(w - k);
    Pow2Add(w - k, k);
    ShrDigits(s, t, x.high, x.low);
    ShiftLeftKeepsLow(x.high, k, w - k);
    DivLess(x.low, s, t);
    BitOrDisjoint(x.high % s, w - k, Shr(x.low, k));
    QuotientBelow(x.high, s);
    LowDigit(s, t, x.high % s, Shr(x.low, k));
  }

  lemma LowDigit(s: nat, t: nat, h: nat, l: nat)
    requires h < s && l < t
    ensures h * t + l < t * s
  {
    MulMono(h + 1, s, t);
    Distribute(h, 1, t);
  }

  /** Shifting two digits left by t. */
  lemma ShlDigits(s: nat, t: nat, high: nat, low: nat)
    requires s > 0 && t > 0 && low < s * t
    ensures
      var b := s * t;
      b * b > 0 && ((high * b + low) * t) % (b * b) == ((high % s) * t + low / s) * b + (low % s) * t
  {
    var b := s * t;
    ShlDigit(s, t, high);
    ShlDigit(s, t, low);
    DivLess(low, s, t);
    assert t * s == s * t;
    LowDigit(s, t, high % s, low / s);
    var c, d, e := (high % s) * t, low / s, (low % s) * t;
    ShlSum(b, t, high, low, high / s, c, d, e);
  }

  lemma ShlSum(b: nat, t: nat, high: nat, low: nat, hh: nat, c: nat, d: nat, e: nat)
    requires b > 0 && high * t == hh * b + c && low * t == d * b + e && c + d < b && e < b
    ensures b * b > 0 && ((high * b + low) * t) % (b * b) == (c + d) * b + e
  {
    MulMonoStrict(0, b, b);
    Distribute(high * b, low, t);
    MulAssoc(high, b, t);
    MulAssoc(high, t, b);
    Distribute(hh * b, c, b);
    MulAssoc(hh, b, b);
    Distribute(c, d, b);
    MulMono(c + d + 1, b, b);
    Distribute(c + d, 1, b);
    assert b * t == t * b;
    assert (high * b + low) * t == hh * (b * b) + ((c + d) * b + e);
    DivModUnique((high * b + low) * t, b * b, hh, (c + d) * b + e);
  }

  lemma ShlPairValue(w: nat, x: Pair, k: nat)
    requires IsPair(w, x) && 0 < k < w
    ensures IsPair(w, ShlPair(w, x, k)) && All(w, ShlPair(w, x, k)) == Shl(All(w, x), k) % Pow2(2 * w)
  {
    var s, t := Pow2(w - k), Pow2(k);
    Pow2Add(w - k, k);
    Pow2Add(w, w);
    ShlDigits(s, t, x.high, x.low);
    ShiftLeftKeepsLow(x.high, w - k, k);
    ShiftLeftKeepsLow(x.low, w - k, k);
    assert t * s == s * t;
    DivLess(x.low, s, t);
    BitOrDisjoint(x.high % s, k, Shr(x.low, w - k));
    LowDigit(s, t, x.high % s, Shr(x.low, w - k));
  }

  /** Dropping whole words. */
  lemma WordShifts(w: nat, x: Pair, k: nat)
    requires IsPair(w, x) && k <= w
    ensures Shr(All(w, x), w + k) == Shr(x.high, k)
    ensures Shl(All(w, x), w + k) % Pow2(2 * w) == Shl(Shl(x.low, k) % Pow2(w), w)
  {
    AllBound(w, x);
    Pow2Add(w, k);
    DivDiv(All(w, x), Pow2(w), Pow2(k));
    WordShiftLeft(w, x, k);
  }

  lemma WordShiftLeft(w: nat, x: Pair, k: nat)
    requires k <= w
    ensures Shl(All(w, x), w + k) % Pow2(2 * w) == Shl(Shl(x.low, k) % Pow2(w), w)
  {
    var low := x.low % Pow2(w - k);
    assert (All(w, x) * Pow2(w + k)) % Pow2(2 * w) == low * Pow2(w + k) by {
      ShiftLeftKeepsLow(All(w, x), w - k, w + k);
      LowBitsOf(w, x, k);
    }
    assert (x.low * Pow2(k)) % Pow2(w) == low * Pow2(k) by {
      ShiftLeftKeepsLow(x.low, w - k, k);
    }
    assert Pow2(w + k) == Pow2(k) * Pow2(w) by {
      Pow2Add(k, w);
    }
    MulAssoc(low, Pow2(k), Pow2(w));
  }

  lemma LowBitsOf(w: nat, x: Pair, k: nat)
    requires k <= w
    ensures All(w, x) % Pow2(w - k) == x.low % Pow2(w - k)
  {
    Pow2Add(k, w - k);
    MulAssoc(x.high, Pow2(k), Pow2(w - k));
    ModAddMul(x.low, x.high * Pow2(k), Pow2(w - k));
  }

  // ---------------------------------------------------------------- the special cases

  lemma LessByHigh(w: nat, n: Pair, d: Pair)
    requires IsPair(w, n) && n.high < d.high
    ensures All(w, n) < All(w, d)
  {
    MulMono(n.high + 1, d.high, Pow2(w));
    Distribute(n.high, 1, Pow2(w));
  }

  /** Both numbers end in a zero word. */
  lemma WholeWords(b: nat, nh: nat, dh: nat)
    requires b > 0 && dh > 0
    ensures dh * b > 0 && (nh * b) / (dh * b) == nh / dh && (nh * b) % (dh * b) == (nh % dh) * b
  {
    MulMonoStrict(0, dh, b);
    DivBounds(nh, dh);
    Distribute((nh / dh) * dh, nh % dh, b);
    MulAssoc(nh / dh, dh, b);
    MulMono(0, nh % dh, b);
    MulMonoStrict(nh % dh, dh, b);
    DivModUnique(nh * b, dh * b, nh / dh, (nh % dh) * b);
  }

  /** The divisor is a power of two and ends in a zero word. */
  lemma PowerHigh(w: nat, n: Pair, dh: nat)
    requires IsPair(w, n) && 0 < dh && BitAnd(dh, dh - 1) == 0
    ensures Shl(dh, w) > 0
    ensures All(w, n) / Shl(dh, w) == Shr(n.high, Ctz(dh))
    ensures All(w, n) % Shl(dh, w) == All(w, Pair(BitAnd(n.high, dh - 1), n.low))
  {
    PowerOfTwoTest(dh);
    BitAndMask(n.high, Ctz(dh));
    AllBound(w, n);
    DivDiv(All(w, n), Pow2(w), dh);
    assert Pow2(w) * dh == dh * Pow2(w);
    assert Pow2(w) * (n.high % dh) == (n.high % dh) * Pow2(w);
  }

  /** The divisor is a power of two of a single word. */
  lemma PowerLow(w: nat, n: Pair, d: nat)
    requires IsPair(w, n) && 0 < d < Pow2(w) && BitAnd(d, d - 1) == 0
    ensures Ctz(d) < w && (d > 1 ==> Ctz(d) > 0)
    ensures All(w, n) % d == BitAnd(n.low, d - 1)
    ensures All(w, n) / d == Shr(All(w, n), Ctz(d))
  {
    PowerOfTwoTest(d);
    if w <= Ctz(d) { Pow2Mono(w, Ctz(d)); }
    BitAndMask(n.low, Ctz(d));
    LowBitsOf(w, n, w - Ctz(d));
  }

  lemma NotOneBit(x: nat, len: nat)
    requires HasLen(x, len) && BitAnd(x, x - 1) != 0
    ensures len >= 2
  {
    if len == 1 { OneBitLong(x); }
  }

  lemma PairLen(w: nat, x: Pair, len: nat)
    requires IsPair(w, x) && HasLen(x.high, len)
    ensures HasLen(All(w, x), w + len)
  {
    Pow2Add(len - 1, w);
    Pow2Add(len, w);
    MulMono(Pow2(len - 1), x.high, Pow2(w));
    MulMono(x.high + 1, Pow2(len), Pow2(w));
    Distribute(x.high, 1, Pow2(w));
  }

  lemma LowOnly(w: nat, x: Pair)
    requires x.high == 0
    ensures All(w, x) == x.low
  {}

  // ---------------------------------------------------------------- the algorithm

  /** q = n << (2w - sr) and r = n >> sr, case by case. */
  method InitialShift(w: nat, n: Pair, sr: nat) returns (q: Pair, r: Pair)
    requires IsPair(w, n) && 1 <= sr < 2 * w
    ensures IsPair(w, q) && All(w, q) == Shl(All(w, n), 2 * w - sr) % Pow2(2 * w)
    ensures IsPair(w, r) && All(w, r) == Shr(All(w, n), sr)
  {
    if sr == w {
      q := Pair(n.low, 0);
      r := Pair(0, n.high);
      WordShifts(w, n, 0);
      ModSmall(n.low, Pow2(w));
    } else if sr < w {
      q := Pair(Shl(n.low, w - sr) % Pow2(w), 0);
      r := ShrPair(w, n, sr);
      WordShifts(w, n, w - sr);
      ShrPairValue(w, n, sr);
    } else {
      q := ShlPair(w, n, 2 * w - sr);
      r := Pair(0, Shr(n.high, sr - w));
      ShlPairValue(w, n, 2 * w - sr);
      WordShifts(w, n, sr - w);
      QuotientBelow(n.high, Pow2(sr - w));
    }
  }

  /** One turn on pairs does what one turn does on the numbers. */
  lemma PairTurn(w: nat, n: nat, d: nat, sr: nat, k: nat, q: Pair, r: Pair, carry: nat, p: nat)
    requires w >= 1 && k > 0 && IsPair(w, q) && IsPair(w, r)
    requires LoopInv(2 * w, n, d, sr, k, All(w, q), All(w, r), carry, p)
    ensures
      var r1, q1 := PairShiftIn(w, r, Shr(q.high, w - 1)), PairShiftIn(w, q, carry);
      var v := All(w, r1);
      && IsPair(w, r1) && IsPair(w, q1) && v < Pow2(2 * w)
      && BorrowMask(2 * w, d, v) == (if v >= d then -1 else 0)
      && LoopInv(2 * w, n, d, sr, k - 1, All(w, q1), if v >= d then v - d else v, if v >= d then 1 else 0, 2 * p + carry)
  {
    LoopTurn(2 * w, n, d, sr, k, All(w, q), All(w, r), carry, p);
    TopBit(w, q);
    PairShiftInValue(w, r, Shr(q.high, w - 1));
    PairShiftInValue(w, q, carry);
    ModSmall(2 * All(w, r), Pow2(2 * w));
  }

  /** The loop on pairs. */
  method DividePair(w: nat, n: nat, d: nat, sr0: nat, q0: Pair, r0: Pair) returns (quotient: nat, rem: nat)
    requires w >= 1 && IsPair(w, q0) && IsPair(w, r0)
    requires LoopInv(2 * w, n, d, sr0, sr0, All(w, q0), All(w, r0), 0, 0)
    ensures quotient == n / d && rem == n % d
  {
    var q, r, carry: nat, sr: nat := q0, r0, 0, sr0;
    ghost var p: nat := 0;
    while sr > 0
      invariant IsPair(w, q) && IsPair(w, r) && LoopInv(2 * w, n, d, sr0, sr, All(w, q), All(w, r), carry, p)
    {
      PairTurn(w, n, d, sr0, sr, q, r, carry, p);
      r := PairShiftIn(w, r, Shr(q.high, w - 1));
      q := PairShiftIn(w, q, carry);
      p := 2 * p + carry;
      var s := BorrowMask(2 * w, d, All(w, r));
      carry := AndMask(1, s);
      SplitAll(w, All(w, r) - AndMask(d, s));
      r := Split(w, All(w, r) - AndMask(d, s));
      sr := sr - 1;
    }
    LoopEnd(2 * w, n, d, sr0, All(w, q), All(w, r), carry, p);
    PairShiftInValue(w, q, carry);
    return All(w, PairShiftIn(w, q, carry)), All(w, r);
  }

  /** __udivmoddi4 for words of w bits: quotient and remainder of two-word numbers. */
  method UDivMod(w: nat, a: nat, b: nat) returns (quotient: nat, rem: nat)
    requires 2 <= w < 0x4000_0000 && a < Pow2(2 * w) && 0 < b < Pow2(2 * w)
    ensures quotient == a / b && rem == a % b
  {
    var n, d := Split(w, a), Split(w, b);
    SplitAll(w, a);
    SplitAll(w, b);
    if n.high == 0 {
      LowOnly(w, n);
      if d.high == 0 {
        LowOnly(w, d);
        return n.low / d.low, n.low % d.low;
      }
      LessByHigh(w, n, d);
      ModSmall(a, b);
      return 0, n.low;
    }
    if d.low == 0 {
      quotient, rem := DivideByHigh(w, n, d);
    } else if d.high == 0 {
      LowOnly(w, d);
      quotient, rem := DivideByLow(w, n, d.low);
    } else {
      quotient, rem := DivideByBoth(w, n, d);
    }
  }

  /** The divisor ends in a zero word. */
  method DivideByHigh(w: nat, n: Pair, d: Pair) returns (quotient: nat, rem: nat)
    requires 2 <= w < 0x4000_0000 && IsPair(w, n) && IsPair(w, d) && n.high > 0 && d.high > 0 && d.low == 0
    ensures All(w, d) > 0 && quotient == All(w, n) / All(w, d) && rem == All(w, n) % All(w, d)
  {
    PowerOfHigh(w, d.high);
    if n.low == 0 {
      WholeWords(Pow2(w), n.high, d.high);
      return n.high / d.high, All(w, Pair(n.high % d.high, 0));
    }
    if BitAnd(d.high, d.high - 1) == 0 {
      PowerHigh(w, n, d.high);
      return Shr(n.high, Ctz(d.high)), All(w, Pair(BitAnd(n.high, d.high - 1), n.low));
    }
    ClzCases(w, n.high, d.high);
    NotOneBit(d.high, BitLen(d.high));
    quotient, rem := DivideByHighBits(w, n, d, w - 2);
  }

  /** Compares the lengths of the high words, which differ by at most limit unless n is smaller. */
  method DivideByHighBits(w: nat, n: Pair, d: Pair, limit: nat) returns (quotient: nat, rem: nat)
    requires 2 <= w < 0x4000_0000 && IsPair(w, n) && IsPair(w, d) && n.high > 0 && d.high > 0
    requires limit < w && BitLen(n.high) <= BitLen(d.high) + limit
    ensures All(w, d) > 0 && quotient == All(w, n) / All(w, d) && rem == All(w, n) % All(w, d)
  {
    PowerOfHigh(w, d.high);
    var sr := Minus32(Clz(w, d.high), Clz(w, n.high));
    ClzCases(w, n.high, d.high);
    if sr > limit {
      LessByHigh(w, n, d);
      ModSmall(All(w, n), All(w, d));
      return 0, All(w, n);
    }
    sr := sr + 1;
    PairLen(w, n, BitLen(n.high));
    PairLen(w, d, BitLen(d.high));
    quotient, rem := DivideLonger(w, n, d, sr, w + BitLen(n.high), w + BitLen(d.high));
  }

  lemma PowerOfHigh(w: nat, dh: nat)
    requires dh > 0
    ensures Shl(dh, w) > 0
  {
    MulMonoStrict(0, dh, Pow2(w));
  }

  /** The divisor is a single word. */
  method DivideByLow(w: nat, n: Pair, d: nat) returns (quotient: nat, rem: nat)
    requires 2 <= w < 0x4000_0000 && IsPair(w, n) && n.high > 0 && 0 < d < Pow2(w)
    ensures quotient == All(w, n) / d && rem == All(w, n) % d
  {
    if BitAnd(d, d - 1) == 0 {
      rem := BitAnd(n.low, d - 1);
      PowerLow(w, n, d);
      if d == 1 {
        return All(w, n), rem;
      }
      ShrPairValue(w, n, Ctz(d));
      return All(w, ShrPair(w, n, Ctz(d))), rem;
    }
    var sr := 1 + w + Clz(w, d) - Clz(w, n.high);
    LenOf(w, d);
    LenOf(w, n.high);
    NotOneBit(d, BitLen(d));
    LowOnly(w, Pair(0, d));
    PairLen(w, n, BitLen(n.high));
    quotient, rem := DivideLonger(w, n, Pair(0, d), sr, w + BitLen(n.high), BitLen(d));
  }

  /** Both words of the divisor count. */
  method DivideByBoth(w: nat, n: Pair, d: Pair) returns (quotient: nat, rem: nat)
    requires 2 <= w < 0x4000_0000 && IsPair(w, n) && IsPair(w, d) && n.high > 0 && d.high > 0
    ensures All(w, d) > 0 && quotient == All(w, n) / All(w, d) && rem == All(w, n) % All(w, d)
  {
    ClzCases(w, n.high, d.high);
    quotient, rem := DivideByHighBits(w, n, d, w - 1);
  }

  /** No special case is left: shift apart and run the loop. */
  method DivideLonger(w: nat, n: Pair, d: Pair, sr: nat, ghost bn: nat, ghost bd: nat) returns (quotient: nat, rem: nat)
    requires w >= 1 && IsPair(w, n) && IsPair(w, d) && bd <= bn && 1 <= sr == bn - bd + 1 < 2 * w
    requires HasLen(All(w, n), bn) && HasLen(All(w, d), bd)
    ensures All(w, d) > 0 && quotient == All(w, n) / All(w, d) && rem == All(w, n) % All(w, d)
  {
    AllBound(w, n);
    LenWithin(All(w, n), bn, 2 * w);
    LoopStart(2 * w, All(w, n), All(w, d), bn, bd);
    var q, r := InitialShift(w, n, sr);
    quotient, rem := DividePair(w, All(w, n), All(w, d), sr, q, r);
  }

  lemma LenWithin(x: nat, len: nat, width: nat)
    requires HasLen(x, len) && x < Pow2(width)
    ensures len <= width
  {
    if width < len { Pow2Mono(width, len - 1); }
  }
}
