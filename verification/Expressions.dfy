/** Bit-vector expressions over the bytes of one input file, with the meaning the solver gives them. */
module Expressions {
  import opened Arith
  import opened Options

  type Byte = x: int | 0 <= x < 256

  /** Contents of the input file. */
  type File = seq<Byte>

  function ByteAt(f: File, off: nat): Byte {
    if off < |f| then f[off] else 0
  }

  datatype Value = BoolVal(b: bool) | BV(width: nat, val: nat)

  datatype Sort = BoolSort | BVSort(width: nat)

  datatype BinOp = BvAnd | BvOr | BvXor | BvShl | BvLshr | BvAshr | BvAdd | BvSub | BvMul
    | BvUdiv | BvSdiv | BvUrem | BvSrem

  datatype Pred = Eq | Neq | Ugt | Uge | Ult | Ule | Sgt | Sge | Slt | Sle

  datatype Expr =
    | Sym(off: nat)
    | BVConst(width: nat, val: nat)
    | BoolConst(truth: bool)
    | BoolToBit(e: Expr)
    | ZeroExt(extra: nat, e: Expr)
    | SignExt(extra: nat, e: Expr)
    | Slice(hi: nat, lo: nat, e: Expr)
    | LNot(e: Expr)
    | Neg(e: Expr)
    | BytesDiffer(a: Expr, b: Expr)
    | LAnd(a: Expr, b: Expr)
    | LOr(a: Expr, b: Expr)
    | LXor(a: Expr, b: Expr)
    | Bin(op: BinOp, a: Expr, b: Expr)
    | Cmp(pred: Pred, a: Expr, b: Expr)
    | Cat(hiPart: Expr, loPart: Expr)

  // ---------------------------------------------------------------- bit-vector arithmetic

  function BvNeg(w: nat, x: nat): nat {
    (Pow2(w) - x) % Pow2(w)
  }

  predicate MsbSet(w: nat, x: nat) {
    2 * x >= Pow2(w)
  }

  function AsSigned(w: nat, x: nat): int {
    if MsbSet(w, x) then x - Pow2(w) else x
  }

  /** Division by zero is all ones, as in the theory of fixed-size bit-vectors. */
  function UnsignedDiv(w: nat, x: nat, y: nat): nat {
    if y == 0 then Pow2(w) - 1 else DivNonNeg(x, y); x / y
  }

  function UnsignedRem(x: nat, y: nat): nat {
    if y == 0 then x else x % y
  }

  function SignedDiv(w: nat, x: nat, y: nat): nat {
    var ax := if MsbSet(w, x) then BvNeg(w, x) else x;
    var ay := if MsbSet(w, y) then BvNeg(w, y) else y;
    var q := UnsignedDiv(w, ax, ay);
    if MsbSet(w, x) == MsbSet(w, y) then q else BvNeg(w, q)
  }

  function SignedRem(w: nat, x: nat, y: nat): nat {
    var ax := if MsbSet(w, x) then BvNeg(w, x) else x;
    var ay := if MsbSet(w, y) then BvNeg(w, y) else y;
    var r := UnsignedRem(ax, ay);
    if MsbSet(w, x) then BvNeg(w, r) else r
  }

  /** Arithmetic shift right: the vacated bits copy the sign. */
  function ArithShr(w: nat, x: nat, s: nat): nat {
    var k := if s >= w then w else s;
    Pow2Mono(w - k, w);
    if MsbSet(w, x) then Shr(x, k) + (Pow2(w) - Pow2(w - k)) else Shr(x, k)
  }

  /** All results are cut to w bits. */
  function Apply(op: BinOp, w: nat, x: nat, y: nat): (z: nat)
    ensures z < Pow2(w)
  {
    (match op
     case BvAnd => BitAnd(x, y)
     case BvOr => BitOr(x, y)
     case BvXor => BitXor(x, y)
     case BvShl => if y >= w then 0 else Shl(x, y)
     case BvLshr => if y >= w then 0 else Shr(x, y)
     case BvAshr => ArithShr(w, x, y)
     case BvAdd => x + y
     case BvSub => x + BvNeg(w, y)
     case BvMul => MulMono(0, x, y); x * y
     case BvUdiv => UnsignedDiv(w, x, y)
     case BvSdiv => SignedDiv(w, x, y)
     case BvUrem => UnsignedRem(x, y)
     case BvSrem => SignedRem(w, x, y)) % Pow2(w)
  }

  function Compare(p: Pred, w: nat, x: nat, y: nat): bool {
    match p
    case Eq => x == y
    case Neq => x != y
    case Ugt => x > y
    case Uge => x >= y
    case Ult => x < y
    case Ule => x <= y
    case Sgt => AsSigned(w, x) > AsSigned(w, y)
    case Sge => AsSigned(w, x) >= AsSigned(w, y)
    case Slt => AsSigned(w, x) < AsSigned(w, y)
    case Sle => AsSigned(w, x) <= AsSigned(w, y)
  }

  // ---------------------------------------------------------------- sorts and meaning

  function WidthOf(s: Option<Sort>): Option<nat> {
    if s.Some? && s.value.BVSort? then Some(s.value.width) else None
  }

  /** The sort of an expression the solver accepts; None where it raises an exception. */
  function SortOf(e: Expr): Option<Sort> {
    match e
    case Sym(_) => Some(BVSort(8))
    case BVConst(w, _) => if w == 0 then None else Some(BVSort(w))
    case BoolConst(_) => Some(BoolSort)
    case BoolToBit(a) => if SortOf(a) == Some(BoolSort) then Some(BVSort(1)) else None
    case ZeroExt(k, a) => var w := WidthOf(SortOf(a)); if w.Some? then Some(BVSort(w.value + k)) else None
    case SignExt(k, a) => var w := WidthOf(SortOf(a)); if w.Some? then Some(BVSort(w.value + k)) else None
    case Slice(hi, lo, a) =>
      var w := WidthOf(SortOf(a));
      if w.Some? && lo <= hi < w.value then Some(BVSort(hi - lo + 1)) else None
    case LNot(a) => if SortOf(a) == Some(BoolSort) then Some(BoolSort) else None
    case Neg(a) => var w := WidthOf(SortOf(a)); if w.Some? then Some(BVSort(w.value)) else None
    case BytesDiffer(a, b) => if SortOf(a).Some? && SortOf(a) == SortOf(b) then Some(BVSort(32)) else None
    case LAnd(a, b) => BothBool(SortOf(a), SortOf(b))
    case LOr(a, b) => BothBool(SortOf(a), SortOf(b))
    case LXor(a, b) => BothBool(SortOf(a), SortOf(b))
    case Bin(_, a, b) => if WidthOf(SortOf(a)).Some? && SortOf(a) == SortOf(b) then SortOf(a) else None
    case Cmp(p, a, b) =>
      if SortOf(a).Some? && SortOf(a) == SortOf(b) && (SortOf(a).value.BVSort? || p == Eq || p == Neq)
      then Some(BoolSort) else None
    case Cat(h, l) =>
      var wh, wl := WidthOf(SortOf(h)), WidthOf(SortOf(l));
      if wh.Some? && wl.Some? then Some(BVSort(wh.value + wl.value)) else None
  }

  function BothBool(a: Option<Sort>, b: Option<Sort>): Option<Sort> {
    if a == Some(BoolSort) && b == Some(BoolSort) then Some(BoolSort) else None
  }

  predicate HasSort(v: Value, s: Sort) {
    match v
    case BoolVal(_) => s.BoolSort?
    case BV(w, x) => s == BVSort(w) && x < Pow2(w)
  }

  function Bits(v: Value): nat {
    if v.BV? then v.val else 0
  }

  function Truth(v: Value): bool {
    v.BoolVal? && v.b
  }

  function Width(v: Value): nat {
    if v.BV? then v.width else 0
  }

  /** Joins a high part and a low part. */
  function JoinBits(hi: Value, lo: Value): Value {
    BV(Width(hi) + Width(lo), Shl(Bits(hi), Width(lo)) + Bits(lo))
  }

  /** Bits lo..hi of a value. */
  function CutBits(hi: nat, lo: nat, v: Value): Value
    requires lo <= hi
  {
    BV(hi - lo + 1, Shr(Bits(v), lo) % Pow2(hi - lo + 1))
  }

  function Denote(e: Expr, f: File): Value {
    match e
    case Sym(off) => BV(8, ByteAt(f, off))
    case BVConst(w, x) => BV(w, x % Pow2(w))
    case BoolConst(b) => BoolVal(b)
    case BoolToBit(a) => BV(1, if Truth(Denote(a, f)) then 1 else 0)
    case ZeroExt(k, a) => var v := Denote(a, f); BV(Width(v) + k, Bits(v))
    case SignExt(k, a) =>
      var v := Denote(a, f);
      BV(Width(v) + k, AsSigned(Width(v), Bits(v)) % Pow2(Width(v) + k))
    case Slice(hi, lo, a) => if lo <= hi then CutBits(hi, lo, Denote(a, f)) else BV(0, 0)
    case LNot(a) => BoolVal(!Truth(Denote(a, f)))
    case Neg(a) => var v := Denote(a, f); BV(Width(v), BvNeg(Width(v), Bits(v)))
    case BytesDiffer(a, b) => BV(32, if Denote(a, f) == Denote(b, f) then 0 else 1)
    case LAnd(a, b) => BoolVal(Truth(Denote(a, f)) && Truth(Denote(b, f)))
    case LOr(a, b) => BoolVal(Truth(Denote(a, f)) || Truth(Denote(b, f)))
    case LXor(a, b) => BoolVal(Truth(Denote(a, f)) != Truth(Denote(b, f)))
    case Bin(op, a, b) =>
      var v, u := Denote(a, f), Denote(b, f);
      BV(Width(v), Apply(op, Width(v), Bits(v), Bits(u)))
    case Cmp(p, a, b) =>
      var v, u := Denote(a, f), Denote(b, f);
      if v.BV? && u.BV? then BoolVal(Compare(p, v.width, v.val, u.val))
      else BoolVal(if p == Neq then v != u else v == u)
    case Cat(h, l) => JoinBits(Denote(h, f), Denote(l, f))
  }

  /** Offsets of the input bytes an expression is written with. */
  function Mentions(e: Expr): set<nat> {
    match e
    case Sym(off) => {off}
    case BVConst(_, _) => {}
    case BoolConst(_) => {}
    case BoolToBit(a) => Mentions(a)
    case ZeroExt(_, a) => Mentions(a)
    case SignExt(_, a) => Mentions(a)
    case Slice(_, _, a) => Mentions(a)
    case LNot(a) => Mentions(a)
    case Neg(a) => Mentions(a)
    case BytesDiffer(a, b) => Mentions(a) + Mentions(b)
    case LAnd(a, b) => Mentions(a) + Mentions(b)
    case LOr(a, b) => Mentions(a) + Mentions(b)
    case LXor(a, b) => Mentions(a) + Mentions(b)
    case Bin(_, a, b) => Mentions(a) + Mentions(b)
    case Cmp(_, a, b) => Mentions(a) + Mentions(b)
    case Cat(h, l) => Mentions(h) + Mentions(l)
  }

  ghost predicate Agree(f: File, g: File, offs: set<nat>) {
    forall o :: o in offs ==> ByteAt(f, o) == ByteAt(g, o)
  }

  /** An expression depends on no byte but the ones it mentions. */
  lemma {:induction false} DenoteDepends(e: Expr, f: File, g: File)
    requires Agree(f, g, Mentions(e))
    ensures Denote(e, f) == Denote(e, g)
  {
    match e
    case Sym(off) =>
    case BVConst(_, _) =>
    case BoolConst(_) =>
    case BoolToBit(a) => DenoteDepends(a, f, g);
    case ZeroExt(_, a) => DenoteDepends(a, f, g);
    case SignExt(_, a) => DenoteDepends(a, f, g);
    case Slice(_, _, a) => DenoteDepends(a, f, g);
    case LNot(a) => DenoteDepends(a, f, g);
    case Neg(a) => DenoteDepends(a, f, g);
    case BytesDiffer(a, b) => DenoteDepends(a, f, g); DenoteDepends(b, f, g);
    case LAnd(a, b) => DenoteDepends(a, f, g); DenoteDepends(b, f, g);
    case LOr(a, b) => DenoteDepends(a, f, g); DenoteDepends(b, f, g);
    case LXor(a, b) => DenoteDepends(a, f, g); DenoteDepends(b, f, g);
    case Bin(_, a, b) => DenoteDepends(a, f, g); DenoteDepends(b, f, g);
    case Cmp(_, a, b) => DenoteDepends(a, f, g); DenoteDepends(b, f, g);
    case Cat(h, l) => DenoteDepends(h, f, g); DenoteDepends(l, f, g);
  }

  lemma JoinSort(v: Value, u: Value)
    requires v.BV? && u.BV? && HasSort(v, BVSort(v.width)) && HasSort(u, BVSort(u.width))
    ensures HasSort(JoinBits(v, u), BVSort(v.width + u.width))
  {
    var p := Pow2(u.width);
    Pow2Add(v.width, u.width);
    MulMono(v.val + 1, Pow2(v.width), p);
    Distribute(v.val, 1, p);
  }

  lemma WidenSort(v: Value, k: nat)
    requires v.BV? && HasSort(v, BVSort(v.width))
    ensures HasSort(BV(v.width + k, v.val), BVSort(v.width + k))
  {
    Pow2Mono(v.width, v.width + k);
  }

  /** e has a sort, and a value of that sort on f. */
  ghost predicate Sorted(e: Expr, f: File) {
    SortOf(e).Some? && HasSort(Denote(e, f), SortOf(e).value)
  }

  lemma {:induction false} ExtendSorted(k: nat, a: Expr, f: File)
    requires Sorted(a, f)
    ensures SortOf(ZeroExt(k, a)).Some? ==> Sorted(ZeroExt(k, a), f)
    ensures SortOf(SignExt(k, a)).Some? ==> Sorted(SignExt(k, a), f)
  {
    if SortOf(a).value.BVSort? { WidenSort(Denote(a, f), k); }
  }

  lemma {:induction false} SliceSorted(hi: nat, lo: nat, a: Expr, f: File)
    requires SortOf(Slice(hi, lo, a)).Some?
    ensures Sorted(Slice(hi, lo, a), f)
  {}

  lemma {:induction false} BinSorted(op: BinOp, a: Expr, b: Expr, f: File)
    requires Sorted(a, f) && SortOf(Bin(op, a, b)).Some?
    ensures Sorted(Bin(op, a, b), f)
  {}

  lemma {:induction false} CatSorted(h: Expr, l: Expr, f: File)
    requires Sorted(h, f) && Sorted(l, f) && SortOf(Cat(h, l)).Some?
    ensures Sorted(Cat(h, l), f)
  {
    var v, u := Denote(h, f), Denote(l, f);
    CatWidth(h, l, v.width, u.width);
    JoinSort(v, u);
    assert Denote(Cat(h, l), f) == JoinBits(v, u);
  }

  lemma {:induction false} CatWidth(h: Expr, l: Expr, wh: nat, wl: nat)
    requires SortOf(h) == Some(BVSort(wh)) && SortOf(l) == Some(BVSort(wl))
    ensures SortOf(Cat(h, l)) == Some(BVSort(wh + wl))
  {}

  lemma {:induction false} BitSorted(a: Expr, b: Expr, f: File)
    ensures SortOf(BoolToBit(a)).Some? ==> Sorted(BoolToBit(a), f)
    ensures SortOf(BytesDiffer(a, b)).Some? ==> Sorted(BytesDiffer(a, b), f)
  {
    Pow2Values();
  }

  /** A well-sorted expression denotes a value of its sort, within its width. */
  lemma {:induction false} DenoteSort(e: Expr, f: File)
    requires SortOf(e).Some?
    ensures HasSort(Denote(e, f), SortOf(e).value)
  {
    match e
    case Sym(off) => assert Pow2(8) == 256 by { Pow2Values(); }
    case BVConst(_, _) =>
    case BoolConst(_) =>
    case BoolToBit(a) => BitSorted(a, a, f);
    case ZeroExt(k, a) => DenoteSort(a, f); ExtendSorted(k, a, f);
    case SignExt(k, a) => DenoteSort(a, f); ExtendSorted(k, a, f);
    case Slice(hi, lo, a) => SliceSorted(hi, lo, a, f);
    case LNot(a) =>
    case Neg(a) => DenoteSort(a, f);
    case BytesDiffer(a, b) => BitSorted(a, b, f);
    case LAnd(a, b) =>
    case LOr(a, b) =>
    case LXor(a, b) =>
    case Bin(op, a, b) => DenoteSort(a, f); BinSorted(op, a, b, f);
    case Cmp(_, a, b) =>
    case Cat(h, l) => DenoteSort(h, f); DenoteSort(l, f); CatSorted(h, l, f);
  }
}
