/** Products wider than a word from half-word products, and exact overflow detection. */
module Multiplication {
  import opened Arith
  import opened WideDivision

  /** b is the half-word base: products of half words and one or two carries fit a word. */
  lemma HalfProduct(b: nat, x: nat, y: nat)
    requires x < b && y < b
    ensures 0 <= x * y <= b * b - 2 * b + 1
    ensures x * y + b <= b * b
  {
    MulMono(x, b - 1, y);
    MulMono(y, b - 1, b - 1);
    MulMono(0, x, y);
    assert (b - 1) * (b - 1) == b * b - 2 * b + 1;
    if b == 1 { assert x == 0 && y == 0; }
  }

  lemma ProductOfSums(b: nat, ah: nat, al: nat, bh: nat, bl: nat)
    ensures (ah * b + al) * (bh * b + bl)
         == (ah * bh) * (b * b) + (ah * bl) * b + (bh * al) * b + al * bl
  {
    var x, y := ah * b, bh * b;
    Distribute(x, al, y + bl);
    assert x * (y + bl) == x * y + x * bl;
    assert al * (y + bl) == al * y + al * bl;
    assert x * y == (ah * bh) * (b * b) by {
      MulAssoc(ah, b, bh * b);
      assert b * (bh * b) == bh * (b * b) by { MulAssoc(b, bh, b); MulAssoc(bh, b, b); assert b * bh == bh * b; }
      MulAssoc(ah, bh, b * b);
    }
    assert x * bl == (ah * bl) * b by { MulAssoc(ah, b, bl); MulAssoc(ah, bl, b); assert b * bl == bl * b; }
    assert al * y == (bh * al) * b by { MulAssoc(bh, al, b); MulAssoc(bh, b, al); assert al * b == b * al; assert al * y == y * al; }
  }

  lemma HighFits(high: nat, low: nat, m: nat, x: nat, y: nat)
    requires high * m + low == x * y && x < m && y < m
    ensures high < m
  {
    MulMono(x, m, y);
    MulMonoStrict(y, m, m);
    assert m * y == y * m;
    assert x * y < m * m;
    MulCancelStrict(high, m, m);
  }

  // A word has two digits of base b, a power of two: dividing by b shifts it down half a word, and
  // the remainder is what its lower mask leaves.

  /** The digits of a word. */
  lemma Digits(b: nat, x: nat)
    requires b > 0 && x < b * b
    ensures 0 <= x / b < b && 0 <= x % b < b && x == (x / b) * b + x % b
  {
    DivBounds(x, b);
    DivLess(x, b, b);
  }

  lemma JoinDigits(b: nat, high: nat, low: nat)
    requires high < b && low < b
    ensures 0 <= low + high * b < b * b
    ensures (low + high * b) / b == high && (low + high * b) % b == low
  {
    MulMono(0, high, b);
    MulMono(high + 1, b, b);
    Distribute(high, 1, b);
    DivModUnique(low + high * b, b, high, low);
  }

  /** Adding p at the middle: the part above the low half, its carry, and the new low word. */
  lemma CrossSum(b: nat, t: nat, l: nat, p: nat, c: nat, m: nat)
    requires t + p == c * b + m
    ensures c * (b * b) + (l + m * b) == (t * b + l) + p * b
  {
    Distribute(t, p, b);
    Distribute(c * b, m, b);
    MulAssoc(c, b, b);
  }

  /** A word product wraps at b * b. */
  function Wrap(b: nat, x: nat): (y: nat)
    requires b > 0
    ensures x < b * b ==> y == x
  {
    MulMonoStrict(0, b, b);
    if x < b * b then ModSmall(x, b * b); x % (b * b) else x % (b * b)
  }

  /** Adds the product of two half words to a word, half a word up; carry is what leaves the word. */
  method AddCross(b: nat, low0: nat, x: nat, y: nat) returns (low: nat, carry: nat)
    requires b > 0 && low0 < b * b && x < b && y < b
    ensures low < b * b && carry < b
    ensures carry * (b * b) + low == low0 + (x * y) * b
  {
    Digits(b, low0);
    HalfProduct(b, x, y);
    var p: nat := x * y;
    var t: nat := low0 / b;
    low := low0 % b;
    Digits(b, t + p);
    CrossSum(b, t, low, p, (t + p) / b, (t + p) % b);
    t := Wrap(b, t + p);
    JoinDigits(b, t % b, low);
    low := Wrap(b, low + (t % b) * b);
    carry := t / b;
  }

  /** The four partial products add up. */
  lemma Schoolbook(b: nat, ah: nat, al: nat, bh: nat, bl: nat, low1: nat, c1: nat, low2: nat, c2: nat)
    requires c1 * (b * b) + low1 == al * bl + (ah * bl) * b
    requires c2 * (b * b) + low2 == low1 + (bh * al) * b
    ensures (c1 + c2 + ah * bh) * (b * b) + low2 == (ah * b + al) * (bh * b + bl)
  {
    ProductOfSums(b, ah, al, bh, bl);
    Distribute(c1, c2, b * b);
    Distribute(c1 + c2, ah * bh, b * b);
  }

  lemma MulParts(b: nat, x: nat, y: nat, ll: nat, hh: nat, low1: nat, c1: nat, low2: nat, c2: nat)
    requires b > 0 && x < b * b && y < b * b
    requires ll == (x % b) * (y % b) && hh == (x / b) * (y / b)
    requires c1 * (b * b) + low1 == ll + ((x / b) * (y % b)) * b
    requires c2 * (b * b) + low2 == low1 + ((y / b) * (x % b)) * b
    ensures (c1 + c2 + hh) * (b * b) + low2 == x * y && c1 + c2 + hh < b * b
  {
    Digits(b, x);
    Digits(b, y);
    Schoolbook(b, x / b, x % b, y / b, y % b, low1, c1, low2, c2);
    HighFits(c1 + c2 + hh, low2, b * b, x, y);
  }

  /** The full product of two words, high and low word. */
  method MulDigits(b: nat, x: nat, y: nat) returns (high: nat, low: nat)
    requires b > 0 && x < b * b && y < b * b
    ensures high < b * b && low < b * b && high * (b * b) + low == x * y
  {
    Digits(b, x);
    Digits(b, y);
    var ll := WordProduct(b, x % b, y % b);
    var low1, c1 := AddCross(b, ll, x / b, y % b);
    var low2, c2 := AddCross(b, low1, y / b, x % b);
    var hh := WordProduct(b, x / b, y / b);
    MulParts(b, x, y, ll, hh, low1, c1, low2, c2);
    high := Wrap(b, Wrap(b, c1 + c2) + hh);
    low := low2;
  }

  /** __muldsi3 on words of 2h bits. */
  method MulWords(h: nat, a: nat, b: nat) returns (r: Pair)
    requires a < Pow2(2 * h) && b < Pow2(2 * h)
    ensures IsPair(2 * h, r) && All(2 * h, r) == a * b
  {
    Pow2Add(h, h);
    var high, low := MulDigits(Pow2(h), a, b);
    r := Pair(high, low);
  }

  lemma WideSum(b: nat, ah: nat, al: nat, bh: nat, bl: nat, x1: nat, x0: nat, y1: nat, y0: nat, z1: nat, z0: nat,
                c: nat, m: nat)
    requires al * bl == x1 * b + x0 && al * bh == y1 * b + y0 && ah * bl == z1 * b + z0
    requires x1 + y0 + z0 == c * b + m
    ensures (y1 + z1 + c + ah * bh) * (b * b) + (x0 + m * b) == (ah * b + al) * (bh * b + bl)
  {
    ProductOfSums(b, ah, al, bh, bl);
    assert bh * al == al * bh;
    Distribute(z1 * b, z0, b);
    MulAssoc(z1, b, b);
    Distribute(y1 * b, y0, b);
    MulAssoc(y1, b, b);
    Distribute(c * b, m, b);
    MulAssoc(c, b, b);
    Distribute(x1 + y0, z0, b);
    Distribute(x1, y0, b);
    Distribute(y1, z1, b * b);
    Distribute(y1 + z1, c, b * b);
    Distribute(y1 + z1 + c, ah * bh, b * b);
  }

  /** Shifting up half a word loses the high half. */
  lemma ShiftUp(b: nat, r0: nat, r1: nat)
    requires b > 0 && r0 < b && r1 < b * b
    ensures Wrap(b, r1 * b) == (r1 % b) * b && Wrap(b, r0 + (r1 % b) * b) == r0 + (r1 % b) * b < b * b
  {
    Digits(b, r1);
    JoinDigits(b, r1 % b, r0);
    JoinDigits(b, r1 % b, 0);
    Distribute((r1 / b) * b, r1 % b, b);
    MulAssoc(r1 / b, b, b);
    MulMonoStrict(0, b, b);
    DivModUnique(r1 * b, b * b, r1 / b, (r1 % b) * b);
  }

  lemma ThreeFit(b: nat, r1: nat)
    requires b >= 4 && r1 < 3 * b
    ensures r1 < b * b
  {
    MulMono(4, b, b);
  }

  /** The words collected from the partial products. */
  lemma WideParts(b: nat, x: nat, y: nat, ll: nat, lh: nat, hl: nat, hh: nat)
    requires b >= 4 && x < b * b && y < b * b && ll < b * b && lh < b * b && hl < b * b
    requires ll == (x % b) * (y % b) && lh == (x % b) * (y / b) && hl == (x / b) * (y % b) && hh == (x / b) * (y / b)
    ensures
      var r0, r1 := ll % b, ll / b + lh % b + hl % b;
      var lo, hi := r0 + (r1 % b) * b, lh / b + hl / b + r1 / b + hh;
      && 0 <= r1 < b * b && 0 <= lo < b * b && Wrap(b, r0 + Wrap(b, r1 * b)) == lo
      && 0 <= hi < b * b && Wrap(b, hi) == hi && hi * (b * b) + lo == x * y
  {
    Digits(b, x);
    Digits(b, y);
    Digits(b, ll);
    Digits(b, lh);
    Digits(b, hl);
    var r0, r1 := ll % b, ll / b + lh % b + hl % b;
    ThreeFit(b, r1);
    Digits(b, r1);
    ShiftUp(b, r0, r1);
    WideSum(b, x / b, x % b, y / b, y % b, ll / b, r0, lh / b, lh % b, hl / b, hl % b, r1 / b, r1 % b);
    MulMono(0, x / b, y / b);
    HighFits(lh / b + hl / b + r1 / b + hh, r0 + (r1 % b) * b, b * b, x, y);
  }

  method WideDigits(b: nat, x: nat, y: nat) returns (hi: nat, lo: nat)
    requires b >= 4 && x < b * b && y < b * b
    ensures hi < b * b && lo < b * b && hi * (b * b) + lo == x * y
  {
    Digits(b, x);
    Digits(b, y);
    var plolo := WordProduct(b, x % b, y % b);
    var plohi := WordProduct(b, x % b, y / b);
    var philo := WordProduct(b, x / b, y % b);
    var phihi := WordProduct(b, x / b, y / b);
    WideParts(b, x, y, plolo, plohi, philo, phihi);
    var r0: nat := plolo % b;
    var r1: nat := plolo / b + plohi % b + philo % b;
    lo := Wrap(b, r0 + Wrap(b, r1 * b));
    hi := Wrap(b, plohi / b + philo / b + r1 / b + phihi);
  }

  /** The product of two half words fits a word. */
  method WordProduct(b: nat, x: nat, y: nat) returns (p: nat)
    requires b > 0 && x < b && y < b
    ensures p == x * y < b * b
    ensures 0 <= p / b < b && 0 <= p % b < b && p == (p / b) * b + p % b
  {
    HalfProduct(b, x, y);
    p := Wrap(b, x * y);
    Digits(b, p);
  }

  /** The double-precision wideMultiply on words of 2h bits: high and low word of the product. */
  method WideMultiply(h: nat, a: nat, b: nat) returns (hi: nat, lo: nat)
    requires h >= 2 && a < Pow2(2 * h) && b < Pow2(2 * h)
    ensures hi < Pow2(2 * h) && lo < Pow2(2 * h) && hi * Pow2(2 * h) + lo == a * b
  {
    Pow2Add(h, h);
    Pow2Mono(2, h);
    hi, lo := WideDigits(Pow2(h), a, b);
  }
}
