/** Unsigned division by shifting and subtracting, on words of w bits and on pairs of them. */
module Division {
  import opened Arith
  import opened Words

  // ---------------------------------------------------------------- one turn of the loop

  /** All ones selects x, all zeros selects nothing. */
  function AndMask(x: nat, s: int): nat {
    if s == 0 then 0 else x
  }

  /** (signed)(d - r - 1) >> (width - 1) on words of the given width. */
  function BorrowMask(width: nat, d: int, r: int): (s: int)
    requires width >= 1
    ensures s == 0 || s == -1
  {
    SignMask(ToSigned(width, ToUnsigned(width, d - r - 1)))
  }

  /** The sign of d - r - 1 decides r >= d, although the subtraction wraps, as long as r is below 2 * d
      and not too far below a d that uses the top bit. */
  lemma SignTrick(width: nat, d: nat, r: nat)
    requires width >= 1 && 0 < d < Pow2(width) && r < Pow2(width) && r <= 2 * d - 1
    requires d <= Pow2(width - 1) || Pow2(width - 1) <= r
    ensures BorrowMask(width, d, r) == if r >= d then -1 else 0
  {
    var full := Pow2(width);
    var x := d - r - 1;
    if r >= d {
      DivModUnique(x, full, -1, x + full);
    } else {
      ModSmall(x, full);
    }
  }

  /** The quotient x and remainder r of the bits of n taken so far, all but the last k. */
  ghost predicate Divides(n: nat, k: nat, d: nat, x: nat, r: nat) {
    Shr(n, k) == x * d + r && r < d
  }

  /** q holds the last k bits of n above the quotient bits p. */
  ghost predicate Holds(width: nat, n: nat, k: nat, q: nat, p: nat) {
    k <= width && q == (n % Pow2(k)) * Pow2(width - k) + p
  }

  /** A divisor that uses the top bit leaves a single turn. */
  ghost predicate TopDivisor(width: nat, n: nat, d: nat, k: nat, x: nat)
    requires width >= 1
  {
    Pow2(width - 1) < d && k > 0 ==> k == 1 && x == 0 && Pow2(width - 1) <= n
  }

  /** Before the turn with k of sr bits left. */
  ghost predicate LoopInv(width: nat, n: nat, d: nat, sr: nat, k: nat, q: nat, r: nat, carry: nat, p: nat)
    requires width >= 1
  {
    && k <= sr <= width && carry <= 1 && 0 < d < Pow2(width) && n < Pow2(width)
    && Divides(n, k, d, 2 * p + carry, r)
    && Holds(width, n, k, q, p) && p < Pow2(sr - k)
    && TopDivisor(width, n, d, k, 2 * p + carry)
  }

  /** x has exactly len bits. */
  predicate HasLen(x: nat, len: nat) {
    len >= 1 && Pow2(len - 1) <= x < Pow2(len)
  }

  lemma StartRemainder(n: nat, d: nat, bn: nat, bd: nat)
    requires HasLen(n, bn) && HasLen(d, bd) && bd <= bn
    ensures Divides(n, bn - bd + 1, d, 0, Shr(n, bn - bd + 1))
  {
    Pow2Add(bd - 1, bn - bd + 1);
    DivLess(n, Pow2(bn - bd + 1), Pow2(bd - 1));
  }

  lemma StartTop(width: nat, n: nat, d: nat, bn: nat, bd: nat)
    requires width >= 1 && HasLen(n, bn) && HasLen(d, bd) && bd <= bn <= width
    ensures TopDivisor(width, n, d, bn - bd + 1, 0)
  {
    if bd < width { Pow2Mono(bd, width - 1); }
  }

  /** The initial words: n shifted apart at bit sr, one more than n is longer than d. */
  lemma LoopStart(width: nat, n: nat, d: nat, bn: nat, bd: nat)
    requires width >= 1 && HasLen(n, bn) && HasLen(d, bd) && bd <= bn <= width
    ensures
      var sr := bn - bd + 1;
      LoopInv(width, n, d, sr, sr, Shl(n, width - sr) % Pow2(width), Shr(n, sr), 0, 0)
  {
    StartRemainder(n, d, bn, bd);
    StartTop(width, n, d, bn, bd);
    Pow2Mono(bn, width);
    Pow2Mono(bd, width);
    var sr := bn - bd + 1;
    ShiftLeftKeepsLow(n, sr, width - sr);
  }

  /** Splitting off the next bit of n. */
  lemma NextBit(n: nat, k: nat)
    requires k > 0
    ensures Shr(n, k - 1) == 2 * Shr(n, k) + Shr(n, k - 1) % 2
    ensures n % Pow2(k) == (Shr(n, k - 1) % 2) * Pow2(k - 1) + n % Pow2(k - 1)
  {
    DivDiv(n, Pow2(k - 1), 2);
  }

  /** The numbers of one turn: a is 2^(k-1), e is 2^(width-k), bits the k bits left in q. */
  lemma TurnShift(a: nat, e: nat, bits: nat, p: nat, b: nat, rest: nat)
    requires a > 0 && e > 0 && bits == b * a + rest && rest < a && b <= 1 && p < e
    ensures
      var q := bits * e + p;
      && (a * e > 0 && q / (a * e) == b)
      && (2 * q) % (2 * (a * e)) == rest * (2 * e) + 2 * p
  {
    MulMonoStrict(0, a, e);
    TurnBits(a, e, bits, p, b, rest);
    TurnDouble(a * e, bits * e + p, b, rest * e + p);
    assert rest * (2 * e) == 2 * (rest * e);
  }

  lemma TurnBits(a: nat, e: nat, bits: nat, p: nat, b: nat, rest: nat)
    requires bits == b * a + rest && rest < a && p < e
    ensures bits * e + p == b * (a * e) + (rest * e + p) && 0 <= rest * e + p < a * e
  {
    Distribute(b * a, rest, e);
    MulAssoc(b, a, e);
    Distribute(rest, 1, e);
    MulMono(rest + 1, a, e);
    MulMono(0, rest, e);
  }

  lemma TurnDouble(h: nat, q: int, b: nat, t: int)
    requires q == b * h + t && 0 <= t < h
    ensures q / h == b && (2 * q) % (2 * h) == 2 * t
  {
    DivModUnique(q, h, b, t);
    assert 2 * q == b * (2 * h) + 2 * t;
    DivModUnique(2 * q, 2 * h, b, 2 * t);
  }

  /** Shifting q moves the next bit of n out and the carry in. */
  lemma TurnHolds(width: nat, n: nat, k: nat, q: nat, p: nat, carry: nat)
    requires 0 < k <= width && Holds(width, n, k, q, p) && p < Pow2(width - k)
    ensures Shr(q, width - 1) == Shr(n, k - 1) % 2
    ensures Holds(width, n, k - 1, (2 * q) % Pow2(width) + carry, 2 * p + carry)
  {
    NextBit(n, k);
    Pow2Add(k - 1, width - k);
    TurnShift(Pow2(k - 1), Pow2(width - k), n % Pow2(k), p, Shr(n, k - 1) % 2, n % Pow2(k - 1));
  }

  lemma DoubleStep(x: nat, d: nat, r: nat, b: nat)
    ensures 2 * (x * d + r) + b == (2 * x) * d + (2 * r + b)
    ensures (2 * x + 1) * d == (2 * x) * d + d
    ensures 0 <= (2 * x) * d
  {
    MulMono(0, 2 * x, d);
  }

  /** Shifting r takes the bit in; subtracting when possible keeps it a remainder. */
  lemma TurnDivides(n: nat, k: nat, d: nat, x: nat, r: nat)
    requires k > 0 && Divides(n, k, d, x, r)
    ensures
      var r1 := 2 * r + Shr(n, k - 1) % 2;
      && r1 <= 2 * d - 1 && r1 <= n
      && (r1 < d ==> Divides(n, k - 1, d, 2 * x, r1))
      && (r1 >= d ==> Divides(n, k - 1, d, 2 * x + 1, r1 - d))
      && (x == 0 && k == 1 ==> r1 == n)
  {
    NextBit(n, k);
    DoubleStep(x, d, r, Shr(n, k - 1) % 2);
    ShrBelow(n, k - 1);
  }

  lemma ShrBelow(n: nat, k: nat)
    ensures Shr(n, k) <= n
    ensures k == 0 ==> Shr(n, k) == n
  {
    DivBounds(n, Pow2(k));
    MulMono(1, Pow2(k), Shr(n, k));
  }

  /** The shifted words of one turn. */
  lemma TurnWords(width: nat, n: nat, d: nat, sr: nat, k: nat, q: nat, r: nat, carry: nat, p: nat)
    requires width >= 1 && k > 0 && LoopInv(width, n, d, sr, k, q, r, carry, p)
    ensures Shr(q, width - 1) == Shr(n, k - 1) % 2
    ensures Holds(width, n, k - 1, (2 * q) % Pow2(width) + carry, 2 * p + carry)
    ensures 2 * p + carry < Pow2(sr - (k - 1))
  {
    Pow2Mono(sr - k, width - k);
    TurnHolds(width, n, k, q, p, carry);
  }

  /** The decision of one turn. */
  lemma TurnDecides(width: nat, n: nat, d: nat, k: nat, x: nat, r: nat)
    requires width >= 1 && k > 0 && 0 < d < Pow2(width) && n < Pow2(width)
    requires Divides(n, k, d, x, r) && TopDivisor(width, n, d, k, x)
    ensures
      var r1 := 2 * r + Shr(n, k - 1) % 2;
      && r1 < Pow2(width)
      && BorrowMask(width, d, r1) == (if r1 >= d then -1 else 0)
  {
    TurnDivides(n, k, d, x, r);
    SignTrick(width, d, 2 * r + Shr(n, k - 1) % 2);
  }

  /** One turn: the shifted words, the decision, and the invariant afterwards. */
  lemma LoopTurn(width: nat, n: nat, d: nat, sr: nat, k: nat, q: nat, r: nat, carry: nat, p: nat)
    requires width >= 1 && k > 0 && LoopInv(width, n, d, sr, k, q, r, carry, p)
    ensures
      var b := Shr(q, width - 1);
      var r1 := 2 * r + b;
      var q1 := (2 * q) % Pow2(width) + carry;
      && b <= 1 && r1 < Pow2(width)
      && BorrowMask(width, d, r1) == (if r1 >= d then -1 else 0)
      && LoopInv(width, n, d, sr, k - 1, q1, if r1 >= d then r1 - d else r1, if r1 >= d then 1 else 0, 2 * p + carry)
  {
    TurnWords(width, n, d, sr, k, q, r, carry, p);
    TurnDivides(n, k, d, 2 * p + carry, r);
    TurnDecides(width, n, d, k, 2 * p + carry, r);
  }

  lemma QuotientBelow(n: nat, d: nat)
    requires d > 0
    ensures 0 <= n / d <= n
  {
    DivBounds(n, d);
    DivNonNeg(n, d);
    MulMono(1, d, n / d);
  }

  lemma NoBitsLeft(width: nat, n: nat, q: nat, p: nat)
    requires Holds(width, n, 0, q, p)
    ensures q == p
  {
    assert n % Pow2(0) == 0;
  }

  /** After the last turn the carry completes the quotient. */
  lemma LoopEnd(width: nat, n: nat, d: nat, sr: nat, q: nat, r: nat, carry: nat, p: nat)
    requires width >= 1 && LoopInv(width, n, d, sr, 0, q, r, carry, p)
    ensures (2 * q) % Pow2(width) + carry == n / d && r == n % d
  {
    ShrBelow(n, 0);
    DivModUnique(n, d, 2 * p + carry, r);
    NoBitsLeft(width, n, q, p);
    QuotientBelow(n, d);
    ModSmall(2 * q, Pow2(width));
  }

  // ---------------------------------------------------------------- one word

  /** A difference of unsigned 32-bit numbers. */
  function Minus32(x: nat, y: nat): nat {
    (x - y) % 0x1_0000_0000
  }

  lemma Minus32Value(x: nat, y: nat)
    requires x < 0x8000_0000 && y < 0x8000_0000
    ensures Minus32(x, y) == if y <= x then x - y else x - y + 0x1_0000_0000
  {}

  lemma LenOf(w: nat, x: nat)
    requires 0 < x < Pow2(w)
    ensures HasLen(x, BitLen(x)) && Clz(w, x) + BitLen(x) == w
  {}

  lemma ShorterIsLess(n: nat, d: nat, bn: nat, bd: nat)
    requires HasLen(n, bn) && HasLen(d, bd) && bn < bd
    ensures n < d
  {
    Pow2Mono(bn, bd - 1);
  }

  /** The unsigned difference of the leading zero counts: how much longer n is, or a large number. */
  lemma ClzCases(w: nat, n: nat, d: nat)
    requires w < 0x8000_0000 && 0 < n < Pow2(w) && 0 < d < Pow2(w)
    ensures HasLen(n, BitLen(n)) && HasLen(d, BitLen(d)) && BitLen(n) <= w
    ensures BitLen(d) <= BitLen(n) ==> Minus32(Clz(w, d), Clz(w, n)) == BitLen(n) - BitLen(d)
    ensures BitLen(n) < BitLen(d) ==> Minus32(Clz(w, d), Clz(w, n)) > w - 1 && n < d
  {
    LenOf(w, n);
    LenOf(w, d);
    Minus32Value(Clz(w, d), Clz(w, n));
    if BitLen(n) < BitLen(d) { ShorterIsLess(n, d, BitLen(n), BitLen(d)); }
  }

  lemma OneBitLong(d: nat)
    requires HasLen(d, 1)
    ensures d == 1
  {}

  /** (x << 1) | bit on words of w bits. */
  function ShiftIn(w: nat, x: nat, bit: nat): nat {
    BitOr(Shl(x, 1) % Pow2(w), bit)
  }

  lemma ShiftInValue(w: nat, x: nat, bit: nat)
    requires w >= 1 && x < Pow2(w) && bit <= 1
    ensures ShiftIn(w, x, bit) == (2 * x) % Pow2(w) + bit < Pow2(w)
    ensures Shr(x, w - 1) <= 1 && 2 * x == Shr(x, w - 1) * Pow2(w) + (2 * x) % Pow2(w)
  {
    DoubleWord(Pow2(w - 1), x);
    OrBit(x % Pow2(w - 1), bit);
    assert Shl(x, 1) == 2 * x;
  }

  lemma DoubleWord(h: nat, x: nat)
    requires 0 < h && x < 2 * h
    ensures 0 <= x / h <= 1 && 0 <= x % h < h
    ensures 2 * x == (x / h) * (2 * h) + 2 * (x % h) && (2 * x) % (2 * h) == 2 * (x % h)
  {
    DivBounds(x, h);
    DivLess(x, h, 2);
    var t, y := x / h, x % h;
    assert 2 * x == t * (2 * h) + 2 * y;
    DivModUnique(2 * x, 2 * h, t, 2 * y);
  }

  lemma {:induction false} OrBit(y: nat, bit: nat)
    requires bit <= 1
    ensures BitOr(2 * y, bit) == 2 * y + bit
  {
    BitOrDisjoint(y, 1, bit);
    assert y * Pow2(1) == 2 * y;
  }

  /** __udivsi3 on words of w bits; dividing by zero gives zero. */
  method UDivWord(w: nat, n: nat, d: nat) returns (quotient: nat)
    requires 2 <= w < 0x8000_0000 && n < Pow2(w) && d < Pow2(w)
    ensures quotient == if d == 0 then 0 else n / d
  {
    if d == 0 || n == 0 {
      if d > 0 { ModSmall(0, d); }
      return 0;
    }
    var sr := Minus32(Clz(w, d), Clz(w, n));
    ClzCases(w, n, d);
    if sr > w - 1 {
      ModSmall(n, d);
      return 0;
    }
    if sr == w - 1 {
      OneBitLong(d);
      return n;
    }
    sr := sr + 1;
    LoopStart(w, n, d, BitLen(n), BitLen(d));
    quotient := DivideWord(w, n, d, sr);
  }

  /** One turn on words does what one turn does on the numbers. */
  lemma WordTurn(w: nat, n: nat, d: nat, sr: nat, k: nat, q: nat, r: nat, carry: nat, p: nat)
    requires w >= 1 && k > 0 && q < Pow2(w) && r < Pow2(w) && LoopInv(w, n, d, sr, k, q, r, carry, p)
    ensures
      var r1, q1 := ShiftIn(w, r, Shr(q, w - 1)), ShiftIn(w, q, carry);
      && r1 < Pow2(w) && q1 < Pow2(w)
      && BorrowMask(w, d, r1) == (if r1 >= d then -1 else 0)
      && LoopInv(w, n, d, sr, k - 1, q1, if r1 >= d then r1 - d else r1, if r1 >= d then 1 else 0, 2 * p + carry)
  {
    LoopTurn(w, n, d, sr, k, q, r, carry, p);
    ShiftInValue(w, r, Shr(q, w - 1));
    ShiftInValue(w, q, carry);
    ModSmall(2 * r, Pow2(w));
  }

  /** The loop on single words. */
  method DivideWord(w: nat, n: nat, d: nat, sr0: nat) returns (q: nat)
    requires w >= 1 && n < Pow2(w) && 0 < d < Pow2(w) && 1 <= sr0 <= w
    requires LoopInv(w, n, d, sr0, sr0, Shl(n, w - sr0) % Pow2(w), Shr(n, sr0), 0, 0)
    ensures q == n / d
  {
    q := Shl(n, w - sr0) % Pow2(w);
    var r: nat, carry: nat, sr: nat := Shr(n, sr0), 0, sr0;
    ghost var p: nat := 0;
    while sr > 0
      invariant sr <= sr0 && q < Pow2(w) && r < Pow2(w) && LoopInv(w, n, d, sr0, sr, q, r, carry, p)
    {
      WordTurn(w, n, d, sr0, sr, q, r, carry, p);
      r := ShiftIn(w, r, Shr(q, w - 1));
      q := ShiftIn(w, q, carry);
      var s := BorrowMask(w, d, r);
      p := 2 * p + carry;
      carry := AndMask(1, s);
      r := r - AndMask(d, s);
      sr := sr - 1;
    }
    LoopEnd(w, n, d, sr0, q, r, carry, p);
    ShiftInValue(w, q, carry);
    q := ShiftIn(w, q, carry);
  }
}
