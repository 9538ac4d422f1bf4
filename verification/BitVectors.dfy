/** The solver's operations on bit-vectors, as arithmetic on the integers they stand for. */
module BitVectors {
  import opened Arith
  import opened Words
  import opened Expressions
  import SignedArith

  predicate Bit(x: nat, i: nat) {
    x / Pow2(i) % 2 == 1
  }

  /** The number between -2^(w-1) and 2^(w-1) that is x modulo 2^w. */
  function SignedOf(w: nat, x: nat): (X: int)
    requires w >= 1 && x < Pow2(w)
    ensures 0 <= X + Pow2(w - 1) < Pow2(w) && X % Pow2(w) == x
  {
    var X := ToSigned(w, x);
    if X >= 0 then ModSmall(X, Pow2(w)); X else DivModUnique(X, Pow2(w), -1, x); X
  }

  /** There is no other. */
  lemma SignedUnique(w: nat, x: nat, X: int)
    requires w >= 1 && x < Pow2(w) && 0 <= X + Pow2(w - 1) < Pow2(w) && X % Pow2(w) == x
    ensures SignedOf(w, x) == X
  {
    if X >= 0 { ModSmall(X, Pow2(w)); } else { DivModUnique(X, Pow2(w), -1, X + Pow2(w)); }
  }

  lemma SignedIs(w: nat, x: nat)
    requires w >= 1 && x < Pow2(w)
    ensures SignedOf(w, x) == AsSigned(w, x)
    ensures SignedOf(w, x) < 0 <==> MsbSet(w, x)
  {}

  // ---------------------------------------------------------------- sums and products

  lemma NegLaw(w: nat, y: int)
    requires 0 <= y < Pow2(w)
    ensures BvNeg(w, y) == (-y) % Pow2(w) == if y == 0 then 0 else Pow2(w) - y
  {
    var p := Pow2(w);
    ModAddMul(-y, 1, p);
    if y == 0 { ModSmall(0, p); } else { ModSmall(p - y, p); }
  }

  lemma SubLaw(w: nat, x: int, y: int)
    requires 0 <= x < Pow2(w) && 0 <= y < Pow2(w)
    ensures Apply(BvSub, w, x, y) == (x - y) % Pow2(w)
  {
    NegLaw(w, y);
    ModOfMod(-y, Pow2(w), x);
    assert x + BvNeg(w, y) == (-y) % Pow2(w) + x;
  }

  lemma UnsignedDivLaw(w: nat, x: nat, y: nat)
    requires x < Pow2(w) && y < Pow2(w)
    ensures Apply(BvUdiv, w, x, y) == if y == 0 then Pow2(w) - 1 else x / y
    ensures Apply(BvUrem, w, x, y) == if y == 0 then x else x % y
  {
    var p := Pow2(w);
    if y == 0 {
      ModSmall(p - 1, p);
      ModSmall(x, p);
    } else {
      QuotientSmall(x, y);
      ModSmall(x / y, p);
      ModSmall(x % y, p);
    }
  }

  lemma QuotientSmall(x: nat, y: nat)
    requires y > 0
    ensures 0 <= x / y <= x && 0 <= x % y <= x
  {
    DivBounds(x, y);
    DivNonNeg(x, y);
    MulMono(1, y, x / y);
    MulMono(0, x / y, y);
  }

  // ---------------------------------------------------------------- signed division

  /** The magnitude of a signed word. */
  lemma MagnitudeLaw(w: nat, x: nat)
    requires w >= 1 && x < Pow2(w)
    ensures (if MsbSet(w, x) then BvNeg(w, x) else x) == SignedArith.Abs(SignedOf(w, x)) < Pow2(w)
  {
    SignedIs(w, x);
    NegLaw(w, x);
  }

  lemma SignedDivLaw(w: nat, x: nat, y: nat)
    requires w >= 1 && x < Pow2(w) && y < Pow2(w)
    ensures
      var X, Y := SignedOf(w, x), SignedOf(w, y);
      && (Y == 0 <==> y == 0)
      && Apply(BvSdiv, w, x, y) ==
           if Y == 0 then (if X < 0 then 1 else Pow2(w) - 1) else SignedArith.TruncDiv(X, Y) % Pow2(w)
  {
    var p, X, Y := Pow2(w), SignedOf(w, x), SignedOf(w, y);
    MagnitudeLaw(w, x);
    MagnitudeLaw(w, y);
    SignedIs(w, x);
    SignedIs(w, y);
    ModSmall(0, p);
    if y == 0 {
      NegLaw(w, p - 1);
      ModSmall(p - 1, p);
      assert w >= 1 ==> p >= 2;
      ModSmall(1, p);
    } else {
      var q := SignedArith.Abs(X) / SignedArith.Abs(Y);
      QuotientSmall(SignedArith.Abs(X), SignedArith.Abs(Y));
      NegLaw(w, q);
      ModSmall(q, p);
      ModSmall(BvNeg(w, q), p);
    }
  }

  lemma SignedRemLaw(w: nat, x: nat, y: nat)
    requires w >= 1 && x < Pow2(w) && y < Pow2(w)
    ensures
      var X, Y := SignedOf(w, x), SignedOf(w, y);
      && (Y == 0 <==> y == 0)
      && Apply(BvSrem, w, x, y) == if Y == 0 then x else SignedArith.TruncMod(X, Y) % Pow2(w)
  {
    var p, X, Y := Pow2(w), SignedOf(w, x), SignedOf(w, y);
    MagnitudeLaw(w, x);
    MagnitudeLaw(w, y);
    SignedIs(w, x);
    SignedIs(w, y);
    ModSmall(0, p);
    ModSmall(x, p);
    var r := UnsignedRem(SignedArith.Abs(X), SignedArith.Abs(Y));
    if y != 0 { QuotientSmall(SignedArith.Abs(X), SignedArith.Abs(Y)); }
    NegLaw(w, r);
    ModSmall(r, p);
    ModSmall(BvNeg(w, r), p);
  }

  // ---------------------------------------------------------------- shifts

  lemma ShiftLeftLaw(w: nat, x: nat, y: nat)
    ensures Apply(BvShl, w, x, y) == (x * Pow2(y)) % Pow2(w)
  {
    if y >= w {
      Pow2Add(y - w, w);
      MulAssoc(x, Pow2(y - w), Pow2(w));
      ModAddMul(0, x * Pow2(y - w), Pow2(w));
    }
  }

  lemma ShiftRightLaw(w: nat, x: nat, y: nat)
    requires x < Pow2(w)
    ensures Apply(BvLshr, w, x, y) == x / Pow2(y)
  {
    if y >= w {
      Pow2Mono(w, y);
      ModSmall(x, Pow2(y));
      ModSmall(0, Pow2(w));
    } else {
      QuotientSmall(x, Pow2(y));
      ModSmall(x / Pow2(y), Pow2(w));
    }
  }

  /** Shifting right with copies of the sign divides the signed number, rounding down. */
  lemma ArithShiftLaw(w: nat, x: nat, y: nat)
    requires w >= 1 && x < Pow2(w)
    ensures Apply(BvAshr, w, x, y) == (SignedOf(w, x) / Pow2(y)) % Pow2(w)
  {
    var p, X := Pow2(w), SignedOf(w, x);
    SignedIs(w, x);
    if !MsbSet(w, x) {
      PositiveShift(w, x, y);
    } else if y >= w {
      Pow2Mono(w, y);
      DivModUnique(X, Pow2(y), -1, X + Pow2(y));
      ModSmall(x, p);
      ModSmall(p - 1, p);
      DivModUnique(-1, p, -1, p - 1);
    } else {
      NegativeShift(w, x, y);
    }
  }

  lemma PositiveShift(w: nat, x: nat, y: nat)
    requires w >= 1 && x < Pow2(w) && !MsbSet(w, x)
    ensures Apply(BvAshr, w, x, y) == (x / Pow2(y)) % Pow2(w)
  {
    if y >= w {
      Pow2Mono(w, y);
      ModSmall(x, Pow2(w));
      ModSmall(x, Pow2(y));
    }
  }

  lemma NegativeShift(w: nat, x: nat, y: nat)
    requires y < w && x < Pow2(w) && MsbSet(w, x)
    ensures Apply(BvAshr, w, x, y) == ((x - Pow2(w)) / Pow2(y)) % Pow2(w)
  {
    Pow2Add(w - y, y);
    Pow2Mono(w - y, w);
    FloorShift(Pow2(w), Pow2(y), Pow2(w - y), x);
  }

  lemma FloorShift(p: nat, q: nat, d: int, x: nat)
    requires p == d * q && q > 0 && 0 < d <= p && x < p
    ensures (x / q + (p - d)) % p == ((x - p) / q) % p
  {
    ModAddMul(x, -d, q);
    assert x - p == x + (-d) * q;
    DivLess(x, q, d);
    var r := x / q - d;
    DivModUnique(r, p, -1, r + p);
    ModSmall(r + p, p);
  }

  // ---------------------------------------------------------------- bit by bit

  lemma BitStep(x: nat, i: nat)
    requires i > 0
    ensures Bit(x, i) <==> Bit(x / 2, i - 1)
  {
    DivDiv(x, 2, Pow2(i - 1));
  }

  lemma BitLow(x: nat)
    ensures Bit(x, 0) <==> x % 2 == 1
  {}

  lemma {:induction false} BitwiseLaw(x: nat, y: nat, i: nat)
    ensures Bit(BitAnd(x, y), i) <==> Bit(x, i) && Bit(y, i)
    ensures Bit(BitOr(x, y), i) <==> Bit(x, i) || Bit(y, i)
    ensures Bit(BitXor(x, y), i) <==> (Bit(x, i) != Bit(y, i))
    decreases i
  {
    if i == 0 {
      BitLow(x);
      BitLow(y);
      LowBits(x, y);
      BitLow(BitAnd(x, y));
      BitLow(BitOr(x, y));
      BitLow(BitXor(x, y));
    } else {
      Halves(x, y);
      BitwiseLaw(x / 2, y / 2, i - 1);
      BitStep(x, i);
      BitStep(y, i);
      BitStep(BitAnd(x, y), i);
      BitStep(BitOr(x, y), i);
      BitStep(BitXor(x, y), i);
    }
  }

  lemma LowBits(x: nat, y: nat)
    ensures BitAnd(x, y) % 2 == 1 <==> x % 2 == 1 && y % 2 == 1
    ensures BitOr(x, y) % 2 == 1 <==> x % 2 == 1 || y % 2 == 1
    ensures BitXor(x, y) % 2 == 1 <==> (x % 2 != y % 2)
  {}

  lemma Halves(x: nat, y: nat)
    ensures BitAnd(x, y) / 2 == BitAnd(x / 2, y / 2)
    ensures BitOr(x, y) / 2 == BitOr(x / 2, y / 2)
    ensures BitXor(x, y) / 2 == BitXor(x / 2, y / 2)
  {}

  lemma {:induction false} BitwiseBound(x: nat, y: nat, w: nat)
    requires x < Pow2(w) && y < Pow2(w)
    ensures BitAnd(x, y) < Pow2(w) && BitOr(x, y) < Pow2(w) && BitXor(x, y) < Pow2(w)
    decreases w
  {
    if x > 0 && y > 0 { BitwiseBound(x / 2, y / 2, w - 1); }
  }

  lemma BitwiseApply(w: nat, x: nat, y: nat)
    requires x < Pow2(w) && y < Pow2(w)
    ensures Apply(BvAnd, w, x, y) == BitAnd(x, y) && Apply(BvOr, w, x, y) == BitOr(x, y)
    ensures Apply(BvXor, w, x, y) == BitXor(x, y)
  {
    BitwiseBound(x, y, w);
    ModSmall(BitAnd(x, y), Pow2(w));
    ModSmall(BitOr(x, y), Pow2(w));
    ModSmall(BitXor(x, y), Pow2(w));
  }
}
