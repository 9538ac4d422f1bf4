/** Binary interchange formats with m significand digits, read off the encoding.
    The sign bit is left out: an encoding is exponent * 2^(m-1) + fraction, and its
    value is counted in units of the smallest subnormal number, so it is a natural number. */
module FloatFormat {
  import opened Arith

  /** Value of a non-negative encoding. The encoding of infinity decodes to the power of two
      that would follow the largest finite number, which is how round-to-nearest treats it. */
  function Value(m: nat, r: nat): nat
    requires m >= 1
  {
    var p := Pow2(m - 1);
    if r < p then r else
      DivBounds(r, p); DivAtLeastOne(r, p);
      (p + r % p) * Pow2(r / p - 1)
  }

  lemma DivAtLeastOne(r: nat, p: nat)
    requires 0 < p <= r
    ensures r / p >= 1
  {
    DivBounds(r, p);
    if r / p < 1 { MulMono(r / p, 0, p); }
  }

  function Distance(x: int, y: int): nat {
    if x <= y then y - x else x - y
  }

  /** roundTiesToEven of the exact value num/den, section 4.3.1 of IEEE 754-2008: no encoding up
      to top is nearer, and when another one is equally near the chosen encoding is even. */
  ghost predicate IsNearestEven(m: nat, top: nat, r: nat, num: nat, den: nat)
    requires m >= 1
  {
    && r <= top
    && (forall s: nat | s <= top ::
          Distance(Value(m, r) * den, num) <= Distance(Value(m, s) * den, num))
    && (forall s: nat | s <= top && s != r ::
          Distance(Value(m, r) * den, num) == Distance(Value(m, s) * den, num) ==> r % 2 == 0)
  }

  /** The integer a, which is a * 2^(bias+m-2) smallest subnormals, rounds to encoding r. */
  ghost predicate RoundsInteger(m: nat, bias: nat, top: nat, r: nat, a: nat)
    requires m >= 2
  {
    IsNearestEven(m, top, r, a * Pow2(bias + m - 2), 1)
  }

  /** The value of exponent field e >= 1 with significand s, also when the significand has
      carried out to 2^m. */
  lemma ValueOfParts(m: nat, e: nat, s: nat)
    requires m >= 1 && e >= 1 && Pow2(m - 1) <= s <= 2 * Pow2(m - 1)
    ensures Value(m, e * Pow2(m - 1) + (s - Pow2(m - 1))) == s * Pow2(e - 1)
  {
    var p := Pow2(m - 1);
    var r := e * p + (s - p);
    MulMono(1, e, p);
    if s < 2 * p {
      DivModUnique(r, p, e, s - p);
    } else {
      assert r == (e + 1) * p + 0;
      DivModUnique(r, p, e + 1, 0);
      assert Pow2(e) == 2 * Pow2(e - 1);
      MulAssoc(2, p, Pow2(e - 1));
    }
  }

  /** Spacing of the format just above encoding r. */
  function Ulp(m: nat, r: nat): (u: nat)
    requires m >= 1
    ensures u > 0
  {
    var p := Pow2(m - 1);
    if r < p then 1 else
      DivAtLeastOne(r, p);
      Pow2(r / p - 1)
  }

  lemma ValueStep(m: nat, r: nat)
    requires m >= 1
    ensures Value(m, r + 1) == Value(m, r) + Ulp(m, r)
  {
    var p := Pow2(m - 1);
    if r + 1 == p {
      DivModUnique(p, p, 1, 0);
    } else if r >= p {
      DivAtLeastOne(r, p);
      var e, f := r / p, r % p;
      DivBounds(r, p);
      ValueOfParts(m, e, p + f);
      ValueOfParts(m, e, p + f + 1);
      Distribute(p + f, 1, Pow2(e - 1));
    }
  }

  lemma {:induction false} ValueMono(m: nat, r: nat, s: nat)
    requires m >= 1 && r < s
    ensures Value(m, r) < Value(m, s)
    decreases s
  {
    ValueStep(m, s - 1);
    if r < s - 1 { ValueMono(m, r, s - 1); }
  }

  /** It is enough to compare with the two neighbouring encodings. */
  lemma NearestByNeighbours(m: nat, top: nat, r: nat, num: nat, den: nat)
    requires m >= 1 && den > 0 && r <= top
    requires r > 0 ==> 2 * num >= (Value(m, r - 1) + Value(m, r)) * den
    requires r > 0 && 2 * num == (Value(m, r - 1) + Value(m, r)) * den ==> r % 2 == 0
    requires r < top ==> 2 * num <= (Value(m, r) + Value(m, r + 1)) * den
    requires r < top && 2 * num == (Value(m, r) + Value(m, r + 1)) * den ==> r % 2 == 0
    ensures IsNearestEven(m, top, r, num, den)
  {
    forall s: nat | s <= top && s != r
      ensures Distance(Value(m, r) * den, num) <= Distance(Value(m, s) * den, num)
      ensures Distance(Value(m, r) * den, num) == Distance(Value(m, s) * den, num) ==> r % 2 == 0
    {
      var v, w := Value(m, r), Value(m, s);
      if s < r {
        ValueMono(m, s, r);
        if s < r - 1 { ValueMono(m, s, r - 1); }
        FarBelow(w, Value(m, r - 1), v, num, den);
      } else {
        ValueMono(m, r, s);
        if r + 1 < s { ValueMono(m, r + 1, s); }
        FarAbove(v, Value(m, r + 1), w, num, den);
      }
    }
  }

  /** Everything from the value of the last encoding up rounds to it. */
  lemma NearestAtTop(m: nat, top: nat, num: nat, den: nat)
    requires m >= 1 && den > 0 && Value(m, top) * den <= num
    ensures IsNearestEven(m, top, top, num, den)
  {
    if top > 0 {
      var v, w := Value(m, top), Value(m, top - 1);
      ValueMono(m, top - 1, top);
      MulMonoStrict(w, v, den);
      Distribute(w, v, den);
    }
    NearestByNeighbours(m, top, top, num, den);
  }

  lemma FarBelow(w: nat, below: nat, v: nat, num: nat, den: nat)
    requires w <= below && w < v && den > 0
    requires 2 * num >= (below + v) * den
    ensures Distance(v * den, num) <= Distance(w * den, num)
    ensures Distance(v * den, num) == Distance(w * den, num) ==> 2 * num == (below + v) * den
  {
    MulMono(w, below, den);
    MulMonoStrict(w, v, den);
    Distribute(below, v, den);
  }

  lemma FarAbove(v: nat, above: nat, w: nat, num: nat, den: nat)
    requires above <= w && v < w && den > 0
    requires 2 * num <= (v + above) * den
    ensures Distance(v * den, num) <= Distance(w * den, num)
    ensures Distance(v * den, num) == Distance(w * den, num) ==> 2 * num == (v + above) * den
  {
    MulMono(above, w, den);
    MulMonoStrict(v, w, den);
    Distribute(v, above, den);
  }

  /** Rounding is a function: an exact value has only one correctly rounded encoding. */
  lemma NearestUnique(m: nat, top: nat, r: nat, s: nat, num: nat, den: nat)
    requires m >= 1 && den > 0
    requires IsNearestEven(m, top, r, num, den) && IsNearestEven(m, top, s, num, den)
    ensures r == s
  {
    if r < s {
      NearestOrdered(m, top, r, s, num, den);
    } else if s < r {
      NearestOrdered(m, top, s, r, num, den);
    }
  }

  lemma NearestOrdered(m: nat, top: nat, r: nat, s: nat, num: nat, den: nat)
    requires m >= 1 && den > 0 && r < s
    requires IsNearestEven(m, top, r, num, den)
    ensures !IsNearestEven(m, top, s, num, den)
  {
    if IsNearestEven(m, top, s, num, den) {
      assert Distance(Value(m, r) * den, num) == Distance(Value(m, s) * den, num);
      if s > r + 1 {
        ValueMono(m, r, r + 1);
        ValueMono(m, r + 1, s);
        MulMonoStrict(Value(m, r), Value(m, r + 1), den);
        MulMonoStrict(Value(m, r + 1), Value(m, s), den);
      }
    }
  }
}
