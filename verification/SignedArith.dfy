/** Signed multiplication, division and overflow detection on two's complement words. */
module SignedArith {
  import opened Arith
  import opened Words
  import opened WideDivision
  import opened Multiplication

  // ---------------------------------------------------------------- multiplication

  /** The low two digits of a product, from the full product of the low digits. */
  lemma LowProduct(b: nat, xh: nat, xl: nat, yh: nat, yl: nat, rh: nat, rl: nat)
    requires b > 0 && rl < b && rh * b + rl == xl * yl
    ensures b * b > 0
    ensures ((xh * b + xl) * (yh * b + yl)) % (b * b) == ((rh + xh * yl + xl * yh) % b) * b + rl
  {
    ProductOfSums(b, xh, xl, yh, yl);
    assert yh * xl == xl * yh;
    var s := rh + xh * yl + xl * yh;
    DivBounds(s, b);
    var q, m := s / b, s % b;
    JoinDigits(b, m, rl);
    Distribute(q * b, m, b);
    MulAssoc(q, b, b);
    Distribute(rh + xh * yl, xl * yh, b);
    Distribute(rh, xh * yl, b);
    Distribute(xh * yh, q, b * b);
    MulMonoStrict(0, b, b);
    assert (xh * b + xl) * (yh * b + yl) == (xh * yh + q) * (b * b) + (m * b + rl);
    DivModUnique((xh * b + xl) * (yh * b + yl), b * b, xh * yh + q, m * b + rl);
  }

  /** Wrapping the operands does not change the wrapped product. */
  lemma ProductMod(a: int, b: int, m: nat)
    requires m > 0
    ensures ((a % m) * (b % m)) % m == (a * b) % m
  {
    ModOfMod(a, m, b % m);
    ModOfMod(b, m, a);
    assert a * (b % m) == (b % m) * a && b * a == a * b;
  }

  /** What a signed word holds after a computation with value v. */
  function Wrapped(w: nat, v: int): (r: int)
    requires w >= 1
    ensures Fits(w, v) ==> r == v
  {
    if Fits(w, v) then SignedRoundTrip(w, v); ToSigned(w, ToUnsigned(w, v)) else ToSigned(w, ToUnsigned(w, v))
  }

  /** __muldi3 on two words of 2h bits each: the product modulo the width. */
  method MulSigned(h: nat, a: int, b: int) returns (r: int)
    requires h >= 1 && Fits(4 * h, a) && Fits(4 * h, b)
    ensures r == Wrapped(4 * h, a * b)
  {
    var w := 2 * h;
    var x, y := Split(w, ToUnsigned(2 * w, a)), Split(w, ToUnsigned(2 * w, b));
    SplitAll(w, ToUnsigned(2 * w, a));
    SplitAll(w, ToUnsigned(2 * w, b));
    var low := MulWords(h, x.low, y.low);
    var high := AddHigh(w, low.high, x, y);
    Pow2Add(w, w);
    LowProduct(Pow2(w), x.high, x.low, y.high, y.low, low.high, low.low);
    ProductMod(a, b, Pow2(2 * w));
    AllBound(w, Pair(high, low.low));
    r := ToSigned(2 * w, All(w, Pair(high, low.low)));
  }

  /** The cross products added to the high word. */
  function AddHigh(w: nat, high: nat, x: Pair, y: Pair): (r: nat)
    ensures r < Pow2(w)
  {
    (high + x.high * y.low + x.low * y.high) % Pow2(w)
  }

  // ---------------------------------------------------------------- overflow

  function Abs(a: int): nat { if a < 0 then -a else a }

  /** Division of C: truncates toward zero. */
  function TruncDiv(a: int, b: int): int
    requires b != 0
  {
    if (a < 0) == (b < 0) then Abs(a) / Abs(b) else -(Abs(a) / Abs(b))
  }

  function TruncMod(a: int, b: int): int
    requires b != 0
  {
    if a < 0 then -(Abs(a) % Abs(b)) else Abs(a) % Abs(b)
  }

  /** x * y > limit exactly when x is above the truncated quotient. */
  lemma QuotientTest(x: nat, y: nat, limit: nat)
    requires y > 0
    ensures x > limit / y <==> x * y > limit
  {
    DivBounds(limit, y);
    Distribute(limit / y, 1, y);
    if x > limit / y { MulMono(limit / y + 1, x, y); } else { MulMono(x, limit / y, y); }
  }

  lemma AbsProduct(a: int, b: int)
    ensures a * b == if (a < 0) == (b < 0) then Abs(a) * Abs(b) else -(Abs(a) * Abs(b))
  {
    if a < 0 && b < 0 {
      assert (-a) * (-b) == a * b;
    } else if a < 0 {
      assert (-a) * b == -(a * b);
    } else if b < 0 {
      assert a * (-b) == -(a * b);
    }
  }

  /** The most negative word times anything but 0 and 1 leaves the range. */
  lemma MinProduct(p: int, b: int)
    requires p > 0
    ensures b == 0 ==> (-p) * b == 0
    ensures b == 1 ==> (-p) * b == -p
    ensures b < 0 ==> (-p) * b >= p
    ensures b > 1 ==> (-p) * b <= -2 * p
  {
    if b < 0 { MulMono(1, -b, p); assert (-b) * p == (-p) * b; }
    if b > 1 { MulMono(2, b, p); assert b * p == -((-p) * b); }
  }

  predicate InRange(p: int, v: int) { -p <= v < p }

  lemma RangeIsFits(N: nat, v: int)
    requires N >= 1
    ensures Fits(N, v) <==> InRange(Pow2(N - 1), v)
  {}

  /** The tests on magnitudes decide the range of the product. */
  lemma ProductInRange(p: int, a: int, b: int)
    requires -p < a < p && -p < b < p
    ensures Abs(a) < 2 || Abs(b) < 2 ==> InRange(p, a * b)
    ensures Abs(b) >= 2 && (a < 0) == (b < 0) ==> (InRange(p, a * b) <==> Abs(a) <= (p - 1) / Abs(b))
    ensures Abs(b) >= 2 && (a < 0) != (b < 0) ==> (InRange(p, a * b) <==> Abs(a) <= p / Abs(b))
  {
    AbsProduct(a, b);
    SmallOrLarge(Abs(a), Abs(b));
    if Abs(b) >= 2 {
      QuotientTest(Abs(a), Abs(b), p - 1);
      QuotientTest(Abs(a), Abs(b), p);
    }
  }

  lemma SmallOrLarge(x: nat, y: nat)
    ensures x < 2 || y < 2 ==> x * y == 0 || x * y == x || x * y == y
    ensures 0 <= x * y
  {
    MulMono(0, x, y);
  }

  /** __mulodi4 on words of N bits: the wrapped product, and whether the true product is out of range. */
  method MulOverflow(N: nat, a: int, b: int) returns (result: int, overflow: bool)
    requires N >= 2 && Fits(N, a) && Fits(N, b)
    ensures result == Wrapped(N, a * b)
    ensures overflow <==> !Fits(N, a * b)
  {
    result := Wrapped(N, a * b);
    RangeIsFits(N, a * b);
    RangeIsFits(N, a);
    RangeIsFits(N, b);
    overflow := Overflows(N, Pow2(N - 1), a, b);
  }

  /** The decision, with p one more than the largest number. */
  method Overflows(N: nat, p: int, a: int, b: int) returns (overflow: bool)
    requires N >= 2 && p == Pow2(N - 1) && InRange(p, a) && InRange(p, b)
    ensures overflow <==> !InRange(p, a * b)
  {
    var min, max := -p, p - 1;
    if a == min {
      MinProduct(p, b);
      return b != 0 && b != 1;
    }
    if b == min {
      MinProduct(p, a);
      assert a * b == (-p) * a;
      return a != 0 && a != 1;
    }
    ProductInRange(p, a, b);
    var absA, absB := Magnitudes(N, a, b);
    if absA < 2 || absB < 2 {
      return false;
    }
    if SignMask(a) == SignMask(b) {
      QuotientOf(max, absB);
      overflow := absA > TruncDiv(max, absB);
    } else {
      QuotientOf(p, absB);
      overflow := absA > TruncDiv(min, -absB);
    }
  }

  lemma QuotientOf(x: int, y: int)
    requires x >= 0 && y > 0
    ensures TruncDiv(x, y) == x / y && TruncDiv(-x, -y) == x / y
  {
    if x == 0 { ModSmall(0, y); }
  }

  /** The branch-free absolute values. */
  method Magnitudes(N: nat, a: int, b: int) returns (absA: int, absB: int)
    requires N >= 2 && Fits(N, a) && Fits(N, b) && a + Pow2(N - 1) != 0 && b + Pow2(N - 1) != 0
    ensures absA == Abs(a) && absB == Abs(b)
  {
    absA, absB := NegateIf(N, a, SignMask(a)), NegateIf(N, b, SignMask(b));
  }

  // ---------------------------------------------------------------- division

  /** Quotient and remainder truncate toward zero and belong together: section 6.5.5 of C11. */
  lemma TruncLaw(a: int, b: int)
    requires b != 0
    ensures a == TruncDiv(a, b) * b + TruncMod(a, b)
    ensures Abs(TruncMod(a, b)) < Abs(b) && (TruncMod(a, b) != 0 ==> (TruncMod(a, b) < 0 <==> a < 0))
    ensures Abs(TruncDiv(a, b)) * Abs(b) <= Abs(a)
  {
    var q, r := Abs(a) / Abs(b), Abs(a) % Abs(b);
    DivBounds(Abs(a), Abs(b));
    DivNonNeg(Abs(a), Abs(b));
    AbsProduct(TruncDiv(a, b), b);
    if q == 0 {
      assert q * Abs(b) == 0;
    }
  }

  /** __divdi3 on two words of w bits each. Only the most negative number divided by -1 leaves the
      range, and gives itself. */
  method DivSigned(w: nat, a: int, b: int) returns (q: int)
    requires 2 <= w < 0x4000_0000 && Fits(2 * w, a) && Fits(2 * w, b) && b != 0
    ensures q == Wrapped(2 * w, TruncDiv(a, b))
    ensures q == TruncDiv(a, b) <==> !(a + Pow2(2 * w - 1) == 0 && b == -1)
  {
    var sa, sb := SignMask(a), SignMask(b);
    Magnitude(2 * w, a);
    Magnitude(2 * w, b);
    var x, y := ToUnsigned(2 * w, NegateIf(2 * w, a, sa)), ToUnsigned(2 * w, NegateIf(2 * w, b, sb));
    var s := if sa == sb then 0 else -1;
    var u, _ := UDivMod(w, x, y);
    ghost var v: int := u;
    assert TruncDiv(a, b) == if s == 0 then v else -v;
    NegateIfWraps(2 * w, u, s);
    OnlyMinByMinusOne(2 * w, a, b);
    q := NegateIf(2 * w, u, s);
  }

  lemma NegateIfWraps(w: nat, u: int, s: int)
    requires w >= 1 && (s == 0 || s == -1)
    ensures NegateIf(w, u, s) == Wrapped(w, if s == 0 then u else -u)
  {}

  lemma OnlyMinByMinusOne(w: nat, a: int, b: int)
    requires w >= 1 && Fits(w, a) && b != 0
    ensures Wrapped(w, TruncDiv(a, b)) == TruncDiv(a, b) <==> !(a + Pow2(w - 1) == 0 && b == -1)
  {
    QuotientRange(Pow2(w - 1), a, b);
    RangeIsFits(w, TruncDiv(a, b));
  }

  /** The quotient fits unless the most negative number is divided by -1. */
  lemma QuotientRange(p: int, a: int, b: int)
    requires p > 0 && -p <= a < p && b != 0
    ensures -p <= TruncDiv(a, b) <= p
    ensures TruncDiv(a, b) == p <==> a == -p && b == -1
  {
    var x, y := Abs(a), Abs(b);
    DivBounds(x, y);
    DivNonNeg(x, y);
    var q := x / y;
    if y == 1 {
    } else {
      MulMono(2, y, q);
      assert y * q == q * y;
    }
  }

  /** __moddi3 on two words of w bits each. */
  method ModSigned(w: nat, a: int, b: int) returns (r: int)
    requires 2 <= w < 0x4000_0000 && Fits(2 * w, a) && Fits(2 * w, b) && b != 0
    ensures r == TruncMod(a, b)
  {
    var sb := SignMask(b);
    Magnitude(2 * w, b);
    var y := ToUnsigned(2 * w, NegateIf(2 * w, b, sb));
    var s := SignMask(a);
    Magnitude(2 * w, a);
    var x := ToUnsigned(2 * w, NegateIf(2 * w, a, s));
    var _, u := UDivMod(w, x, y);
    SignedRoundTrip(2 * w, u);
    r := NegateIf(2 * w, ToSigned(2 * w, u), s);
  }
}
