/** Two's complement words of w bits. A signed word is an integer in range; an unsigned one is a
    natural number below 2^w. */
module Words {
  import opened Arith

  predicate Fits(w: nat, a: int)
    requires w >= 1
  {
    0 <= a + Pow2(w - 1) && a < Pow2(w - 1)
  }

  function ToUnsigned(w: nat, a: int): (x: nat)
    ensures x < Pow2(w)
  {
    a % Pow2(w)
  }

  function ToSigned(w: nat, x: nat): (a: int)
    requires w >= 1 && x < Pow2(w)
    ensures Fits(w, a)
  {
    if x < Pow2(w - 1) then x else x - Pow2(w)
  }

  lemma SignedRoundTrip(w: nat, a: int)
    requires w >= 1 && Fits(w, a)
    ensures ToSigned(w, ToUnsigned(w, a)) == a
    ensures ToUnsigned(w, a) == if a >= 0 then a else a + Pow2(w)
  {
    if a >= 0 {
      ModSmall(a, Pow2(w));
    } else {
      DivModUnique(a, Pow2(w), -1, a + Pow2(w));
    }
  }

  /** Arithmetic shift right by w - 1: all copies of the sign bit. */
  function SignMask(a: int): (s: int) {
    if a < 0 then -1 else 0
  }

  /** a ^ s for an all-zeros or all-ones mask s. */
  function XorMask(a: int, s: int): int
    requires s == 0 || s == -1
  {
    if s == 0 then a else -a - 1
  }

  /** (a ^ s) - s on w-bit words: negation when s is all ones, with wrap-around. */
  function NegateIf(w: nat, a: int, s: int): (r: int)
    requires w >= 1 && (s == 0 || s == -1)
    ensures Fits(w, r)
    ensures Fits(w, if s == 0 then a else -a) ==> r == if s == 0 then a else -a
  {
    var x := XorMask(a, s) - s;
    if Fits(w, x) then SignedRoundTrip(w, x); ToSigned(w, ToUnsigned(w, x))
    else ToSigned(w, ToUnsigned(w, x))
  }

  /** The magnitude of every signed word is right when read as unsigned, the smallest included. */
  lemma Magnitude(w: nat, a: int)
    requires w >= 1 && Fits(w, a)
    ensures ToUnsigned(w, NegateIf(w, a, SignMask(a))) == if a < 0 then -a else a
  {
    var n := if a < 0 then -a else a;
    ModSmall(n, Pow2(w));
    var r := NegateIf(w, a, SignMask(a));
    if Fits(w, n) {
    } else {
      assert n == Pow2(w - 1);
      assert r == n - Pow2(w);
      SignedRoundTrip(w, r);
    }
  }
}
