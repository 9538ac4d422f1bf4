/** What every operator of a label computes, as arithmetic on the values of its operands, and when there is
    no value. */
module Operators {
  import opened Arith
  import opened Options
  import opened Expressions
  import opened Labels
  import opened BitVectors
  import SignedArith

  // ---------------------------------------------------------------- operands

  /** A number in w bits. */
  predicate IsWord(v: Option<Value>, w: nat) {
    v.Some? && v.value.BV? && v.value.width == w
  }

  predicate IsTruth(v: Option<Value>) {
    v.Some? && v.value.BoolVal?
  }

  /** A concrete operand of an operation of the given size, which the program keeps in eight bits: a truth
      value in one bit, else a number. */
  function ConstantValue(size: nat, c: nat): Option<Value> {
    if size == 1 then Some(BoolVal(c == 1))
    else if size % 256 == 0 then None
    else Some(BV(size % 256, c % Pow2(size % 256)))
  }

  /** The operands of a label: those of older labels, or the concrete ones in its record. */
  ghost function First(keys: seq<Key>, n: nat, l: Label, f: File): Option<Value>
    requires WfTable(keys, n) && n < l < |keys|
  {
    var key := keys[l];
    if key.l1 > 0 then Eval(keys, n, key.l1, f) else ConstantValue(key.size, key.op1)
  }

  ghost function Second(keys: seq<Key>, n: nat, l: Label, f: File): Option<Value>
    requires WfTable(keys, n) && n < l < |keys|
  {
    var key := keys[l];
    if key.l2 > 0 then Eval(keys, n, key.l2, f) else ConstantValue(key.size, key.op2)
  }

  /** Numbers have at least one bit and fit their width. */
  predicate Proper(v: Option<Value>) {
    v.Some? && v.value.BV? ==> 1 <= v.value.width && v.value.val < Pow2(v.value.width)
  }

  lemma {:induction false} WidthPositive(e: Expr)
    requires SortOf(e).Some? && SortOf(e).value.BVSort?
    ensures SortOf(e).value.width >= 1
  {
    match e
    case Sym(_) =>
    case BVConst(_, _) =>
    case BoolConst(_) =>
    case BoolToBit(_) =>
    case ZeroExt(_, a) => WidthPositive(a);
    case SignExt(_, a) => WidthPositive(a);
    case Slice(_, _, _) =>
    case LNot(_) =>
    case Neg(a) => WidthPositive(a);
    case BytesDiffer(_, _) =>
    case LAnd(_, _) =>
    case LOr(_, _) =>
    case LXor(_, _) =>
    case Bin(_, a, _) => WidthPositive(a);
    case Cmp(_, _, _) =>
    case Cat(h, _) => WidthPositive(h);
  }

  lemma ExprProper(e: Expr, f: File)
    requires SortOf(e).Some?
    ensures Proper(Some(Denote(e, f)))
    ensures SortOf(e).value == match Denote(e, f) case BoolVal(_) => BoolSort case BV(w, _) => BVSort(w)
  {
    DenoteSort(e, f);
    if SortOf(e).value.BVSort? { WidthPositive(e); }
  }

  lemma EvalProper(keys: seq<Key>, n: nat, l: Label, f: File)
    requires WfTable(keys, n) && l < |keys|
    ensures Proper(Eval(keys, n, l, f))
  {
    BuildSorted(keys, n, l);
    if Build(keys, n, l).Some? { ExprProper(Build(keys, n, l).value, f); }
  }

  lemma ConstantProper(size: nat, c: nat)
    ensures Proper(ConstantValue(size, c))
  {}

  /** An operand as an expression. */
  function OperandExpr(size: nat, l: Label, e: Option<Expr>, c: nat): Option<Expr> {
    if l > 0 then e else if size % 256 == 0 then None else Some(ConstOperand(size, size % 256, c))
  }

  ghost predicate Stands(e: Option<Expr>, v: Option<Value>, f: File) {
    && (e.Some? <==> v.Some?)
    && (e.Some? ==> SortOf(e.value).Some? && v == Some(Denote(e.value, f)))
  }

  lemma OperandStands(keys: seq<Key>, n: nat, l: Label, f: File)
    requires WfTable(keys, n) && n < l < |keys|
    ensures
      var key := keys[l];
      && key.l1 < l && key.l2 < l
      && Stands(OperandExpr(key.size, key.l1, Build(keys, n, key.l1), key.op1), First(keys, n, l, f), f)
      && Stands(OperandExpr(key.size, key.l2, Build(keys, n, key.l2), key.op2), Second(keys, n, l, f), f)
      && Proper(First(keys, n, l, f)) && Proper(Second(keys, n, l, f))
  {
    var key := keys[l];
    assert WfNode(key, n, l);
    BuildSorted(keys, n, key.l1);
    BuildSorted(keys, n, key.l2);
    EvalProper(keys, n, key.l1, f);
    EvalProper(keys, n, key.l2, f);
    ConstantProper(key.size, key.op1);
    ConstantProper(key.size, key.op2);
  }

  /** A two-operand operator other than a concatenation. */
  predicate IsPlain(op: Op) {
    IsBinary(op) && !op.Concat?
  }

  lemma {:induction false} PlainNode(key: Key, off1: nat, size1: nat, size2: nat, e1: Option<Expr>, e2: Option<Expr>)
    requires IsPlain(key.op)
    ensures
      var a, b := OperandExpr(key.size, key.l1, e1, key.op1), OperandExpr(key.size, key.l2, e2, key.op2);
      Node(key, off1, size1, size2, e1, e2) ==
        if key.size % 256 == 0 || a.None? || b.None? then None else BinaryExpr(key.op, key.size, a.value, b.value)
  {}

  /** The value of a two-operand label from the expressions of its operands. */
  lemma PlainLabel(keys: seq<Key>, n: nat, l: Label)
    requires WfTable(keys, n) && n < l < |keys| && IsPlain(keys[l].op)
    ensures
      var key := keys[l];
      && key.l1 < l && key.l2 < l
      && var a := OperandExpr(key.size, key.l1, Build(keys, n, key.l1), key.op1);
         var b := OperandExpr(key.size, key.l2, Build(keys, n, key.l2), key.op2);
         Build(keys, n, l) ==
           if key.size % 256 == 0 || a.None? || b.None? then None else BinaryExpr(key.op, key.size, a.value, b.value)
  {
    var key := keys[l];
    assert WfNode(key, n, l);
    BuildUnfold(keys, n, l);
    PlainNode(key, keys[key.l1].op1, keys[key.l1].size, keys[key.l2].size, Build(keys, n, key.l1), Build(keys, n, key.l2));
  }

  // ---------------------------------------------------------------- arithmetic

  predicate IsArithmetic(op: Op) {
    op in {Add, Sub, Mul, UDiv, URem, SDiv, SRem, Op.Shl, LShr, AShr}
  }

  /** What the arithmetic operators compute from x and y, numbers of w bits. */
  predicate Computes(op: Op, w: nat, x: nat, y: nat, r: int)
    requires w >= 1 && x < Pow2(w) && y < Pow2(w) && IsArithmetic(op)
  {
    var X, Y := SignedOf(w, x), SignedOf(w, y);
    match op
    case Add => r == (x + y) % Pow2(w)
    case Sub => r == (x - y) % Pow2(w)
    case Mul => r == (x * y) % Pow2(w)
    case UDiv => r == if y == 0 then Pow2(w) - 1 else x / y
    case URem => r == if y == 0 then x else x % y
    case SDiv => r == if Y == 0 then (if X < 0 then 1 else Pow2(w) - 1) else SignedArith.TruncDiv(X, Y) % Pow2(w)
    case SRem => r == if Y == 0 then x else SignedArith.TruncMod(X, Y) % Pow2(w)
    case Shl => r == (x * Pow2(y)) % Pow2(w)
    case LShr => r == x / Pow2(y)
    case AShr => r == (X / Pow2(y)) % Pow2(w)
  }

  /** Both operands are numbers of one width. */
  predicate SameWidth(a: Option<Value>, b: Option<Value>) {
    a.Some? && b.Some? && a.value.BV? && b.value.BV? && a.value.width == b.value.width
  }

  /** The solver takes a bit-vector operation exactly when its operands are of one width. */
  lemma {:induction false} BinValue(op: BinOp, a: Expr, b: Expr, f: File)
    requires SortOf(a).Some? && SortOf(b).Some?
    ensures
      var v, u, e := Denote(a, f), Denote(b, f), Checked(Bin(op, a, b));
      && (e.Some? <==> SameWidth(Some(v), Some(u)))
      && (e.Some? ==> Denote(e.value, f) == BV(v.width, Apply(op, v.width, v.val, u.val)))
  {
    ExprProper(a, f);
    ExprProper(b, f);
    BinDenotes(op, a, b, f);
    BinAccepted(op, a, b);
  }

  lemma {:induction false} BinAccepted(op: BinOp, a: Expr, b: Expr)
    requires SortOf(a).Some? && SortOf(b).Some?
    ensures SortOf(Bin(op, a, b)).Some? <==> SortOf(a).value.BVSort? && SortOf(a) == SortOf(b)
  {}

  lemma {:induction false} ArithmeticExpr(op: Op, size: nat, a: Expr, b: Expr) returns (bop: BinOp)
    requires IsArithmetic(op)
    ensures BinaryExpr(op, size, a, b) == Checked(Bin(bop, a, b))
    ensures forall w: nat, x: nat, y: nat | w >= 1 && x < Pow2(w) && y < Pow2(w) ::
              Computes(op, w, x, y, Apply(bop, w, x, y))
  {
    bop := match op
      case Add => BvAdd
      case Sub => BvSub
      case Mul => BvMul
      case UDiv => BvUdiv
      case URem => BvUrem
      case SDiv => BvSdiv
      case SRem => BvSrem
      case Shl => BvShl
      case LShr => BvLshr
      case AShr => BvAshr;
    ArithmeticSwitch(op, size, a, b, bop);
    forall w: nat, x: nat, y: nat | w >= 1 && x < Pow2(w) && y < Pow2(w)
      ensures Computes(op, w, x, y, Apply(bop, w, x, y))
    {
      match op {
        case Add =>
        case Sub => SubLaw(w, x, y);
        case Mul =>
        case UDiv => UnsignedDivLaw(w, x, y);
        case URem => UnsignedDivLaw(w, x, y);
        case SDiv => SignedDivLaw(w, x, y);
        case SRem => SignedRemLaw(w, x, y);
        case Shl => ShiftLeftLaw(w, x, y);
        case LShr => ShiftRightLaw(w, x, y);
        case AShr => ArithShiftLaw(w, x, y);
      }
    }
  }

  lemma {:induction false} ArithmeticSwitch(op: Op, size: nat, a: Expr, b: Expr, bop: BinOp)
    requires IsArithmetic(op)
    requires bop == match op
      case Add => BvAdd case Sub => BvSub case Mul => BvMul case UDiv => BvUdiv case URem => BvUrem
      case SDiv => BvSdiv case SRem => BvSrem case Shl => BvShl case LShr => BvLshr case AShr => BvAshr
    ensures BinaryExpr(op, size, a, b) == Checked(Bin(bop, a, b))
  {}

  /** Arithmetic labels: a number of the operands' width, unless the operands are not numbers of one width or
      the recorded size is a multiple of 256. */
  lemma {:induction false} ArithmeticValue(keys: seq<Key>, n: nat, l: Label, f: File)
    requires WfTable(keys, n) && n < l < |keys| && IsArithmetic(keys[l].op)
    ensures
      var a, b, r := First(keys, n, l, f), Second(keys, n, l, f), Eval(keys, n, l, f);
      && Proper(a) && Proper(b)
      && (r.Some? <==> keys[l].size % 256 != 0 && SameWidth(a, b))
      && (r.Some? ==> IsWord(r, a.value.width) && Computes(keys[l].op, a.value.width, a.value.val, b.value.val, r.value.val))
  {
    var key := keys[l];
    OperandStands(keys, n, l, f);
    PlainLabel(keys, n, l);
    var a := OperandExpr(key.size, key.l1, Build(keys, n, key.l1), key.op1);
    var b := OperandExpr(key.size, key.l2, Build(keys, n, key.l2), key.op2);
    if key.size % 256 != 0 && a.Some? && b.Some? {
      ArithmeticOfExprs(key.op, key.size, a.value, b.value, f);
    }
  }

  /** The value of an expression that may be missing. */
  function ValueOf(e: Option<Expr>, f: File): Option<Value> {
    if e.Some? then Some(Denote(e.value, f)) else None
  }

  lemma {:induction false} ArithmeticOfExprs(op: Op, size: nat, a: Expr, b: Expr, f: File)
    requires IsArithmetic(op) && SortOf(a).Some? && SortOf(b).Some?
    ensures
      var v, u, r := Some(Denote(a, f)), Some(Denote(b, f)), ValueOf(BinaryExpr(op, size, a, b), f);
      && Proper(v) && Proper(u)
      && (r.Some? <==> SameWidth(v, u))
      && (r.Some? ==> IsWord(r, v.value.width) && Computes(op, v.value.width, v.value.val, u.value.val, r.value.val))
  {
    var bop := ArithmeticExpr(op, size, a, b);
    ExprProper(a, f);
    ExprProper(b, f);
    BinValue(bop, a, b, f);
  }

  // ---------------------------------------------------------------- bitwise and logical operators

  /** What the bitwise operators do to one bit, or to truth values. */
  predicate Combines(op: Op, p: bool, q: bool) {
    match op
    case And => p && q
    case Or => p || q
    case Xor => p != q
    case _ => false
  }

  /** Numbers are combined bit by bit. */
  ghost predicate BitByBit(op: Op, x: nat, y: nat, r: nat) {
    forall i: nat :: Bit(r, i) <==> Combines(op, Bit(x, i), Bit(y, i))
  }

  /** Truth values are combined in operations of one bit, and by Xor wherever the first operand is one. */
  predicate IsLogical(op: Op, size: nat, a: Option<Value>) {
    if op.Xor? then IsTruth(a) else size == 1
  }

  lemma {:induction false} LogicAccepted(a: Expr, b: Expr)
    requires SortOf(a).Some? && SortOf(b).Some?
    ensures SortOf(LAnd(a, b)).Some? <==> SortOf(a).value.BoolSort? && SortOf(b).value.BoolSort?
    ensures SortOf(LOr(a, b)).Some? <==> SortOf(a).value.BoolSort? && SortOf(b).value.BoolSort?
    ensures SortOf(LXor(a, b)).Some? <==> SortOf(a).value.BoolSort? && SortOf(b).value.BoolSort?
  {}

  lemma {:induction false} LogicDenotes(a: Expr, b: Expr, f: File)
    ensures Denote(LAnd(a, b), f) == BoolVal(Truth(Denote(a, f)) && Truth(Denote(b, f)))
    ensures Denote(LOr(a, b), f) == BoolVal(Truth(Denote(a, f)) || Truth(Denote(b, f)))
    ensures Denote(LXor(a, b), f) == BoolVal(Truth(Denote(a, f)) != Truth(Denote(b, f)))
  {}

  lemma {:induction false} BitwiseSwitch(op: Op, size: nat, a: Expr, b: Expr)
    requires op in {And, Or, Xor}
    ensures
      BinaryExpr(op, size, a, b) ==
        match op
        case And => Checked(if size == 1 then LAnd(a, b) else Bin(BvAnd, a, b))
        case Or => Checked(if size == 1 then LOr(a, b) else Bin(BvOr, a, b))
        case Xor => Checked(if SortOf(a) == Some(BoolSort) then LXor(a, b) else Bin(BvXor, a, b))
  {}

  lemma {:induction false} LogicalExpr(op: Op, size: nat, a: Expr, b: Expr, f: File)
    requires op in {And, Or, Xor} && SortOf(a).Some? && SortOf(b).Some?
    requires IsLogical(op, size, Some(Denote(a, f)))
    ensures
      var v, u, e := Denote(a, f), Denote(b, f), BinaryExpr(op, size, a, b);
      && (e.Some? <==> v.BoolVal? && u.BoolVal?)
      && (e.Some? ==> Denote(e.value, f) == BoolVal(Combines(op, v.b, u.b)))
  {
    ExprProper(a, f);
    ExprProper(b, f);
    BitwiseSwitch(op, size, a, b);
    LogicAccepted(a, b);
    LogicDenotes(a, b, f);
  }

  lemma {:induction false} BitwiseExpr(op: Op, size: nat, a: Expr, b: Expr, f: File) returns (bop: BinOp)
    requires op in {And, Or, Xor} && SortOf(a).Some? && SortOf(b).Some?
    requires !IsLogical(op, size, Some(Denote(a, f)))
    ensures BinaryExpr(op, size, a, b) == Checked(Bin(bop, a, b))
    ensures forall w: nat, x: nat, y: nat | x < Pow2(w) && y < Pow2(w) :: BitByBit(op, x, y, Apply(bop, w, x, y))
  {
    ExprProper(a, f);
    BitwiseSwitch(op, size, a, b);
    bop := match op case And => BvAnd case Or => BvOr case Xor => BvXor;
    forall w: nat, x: nat, y: nat | x < Pow2(w) && y < Pow2(w) ensures BitByBit(op, x, y, Apply(bop, w, x, y)) {
      BitwiseBits(op, w, x, y, bop);
    }
  }

  lemma BitwiseBits(op: Op, w: nat, x: nat, y: nat, bop: BinOp)
    requires op in {And, Or, Xor} && x < Pow2(w) && y < Pow2(w)
    requires bop == match op case And => BvAnd case Or => BvOr case Xor => BvXor
    ensures BitByBit(op, x, y, Apply(bop, w, x, y))
  {
    BitwiseApply(w, x, y);
    forall i: nat ensures Bit(Apply(bop, w, x, y), i) <==> Combines(op, Bit(x, i), Bit(y, i)) {
      BitwiseLaw(x, y, i);
    }
  }

  /** What And, Or and Xor make of their operands. */
  ghost predicate Bitwise(op: Op, size: nat, a: Option<Value>, b: Option<Value>, r: Option<Value>) {
    if IsLogical(op, size, a) then
      && (r.Some? <==> size % 256 != 0 && IsTruth(a) && IsTruth(b))
      && (r.Some? ==> r.value == BoolVal(Combines(op, a.value.b, b.value.b)))
    else
      && (r.Some? <==> size % 256 != 0 && SameWidth(a, b))
      && (r.Some? ==> IsWord(r, a.value.width) && BitByBit(op, a.value.val, b.value.val, r.value.val))
  }

  lemma {:induction false} BitwiseValue(keys: seq<Key>, n: nat, l: Label, f: File)
    requires WfTable(keys, n) && n < l < |keys| && keys[l].op in {And, Or, Xor}
    ensures Bitwise(keys[l].op, keys[l].size, First(keys, n, l, f), Second(keys, n, l, f), Eval(keys, n, l, f))
  {
    var key := keys[l];
    OperandStands(keys, n, l, f);
    PlainLabel(keys, n, l);
    var a := OperandExpr(key.size, key.l1, Build(keys, n, key.l1), key.op1);
    var b := OperandExpr(key.size, key.l2, Build(keys, n, key.l2), key.op2);
    if key.size % 256 != 0 && a.Some? && b.Some? {
      BitwiseOfExprs(key.op, key.size, a.value, b.value, f);
    }
  }

  lemma {:induction false} BitwiseOfExprs(op: Op, size: nat, a: Expr, b: Expr, f: File)
    requires op in {And, Or, Xor} && size % 256 != 0 && SortOf(a).Some? && SortOf(b).Some?
    ensures Bitwise(op, size, Some(Denote(a, f)), Some(Denote(b, f)), ValueOf(BinaryExpr(op, size, a, b), f))
  {
    if IsLogical(op, size, Some(Denote(a, f))) {
      LogicalExpr(op, size, a, b, f);
    } else {
      var bop := BitwiseExpr(op, size, a, b, f);
      ExprProper(a, f);
      ExprProper(b, f);
      BinValue(bop, a, b, f);
      BitwiseOfValues(op, size, Denote(a, f), Denote(b, f), bop, ValueOf(BinaryExpr(op, size, a, b), f));
    }
  }

  lemma BitwiseOfValues(op: Op, size: nat, v: Value, u: Value, bop: BinOp, r: Option<Value>)
    requires op in {And, Or, Xor} && size % 256 != 0 && !IsLogical(op, size, Some(v))
    requires Proper(Some(v)) && Proper(Some(u))
    requires forall w: nat, x: nat, y: nat | x < Pow2(w) && y < Pow2(w) :: BitByBit(op, x, y, Apply(bop, w, x, y))
    requires r.Some? <==> SameWidth(Some(v), Some(u))
    requires r.Some? ==> r.value == BV(v.width, Apply(bop, v.width, v.val, u.val))
    ensures Bitwise(op, size, Some(v), Some(u), r)
  {
    if r.Some? { assert BitByBit(op, v.val, u.val, Apply(bop, v.width, v.val, u.val)); }
  }

  // ---------------------------------------------------------------- comparisons

  /** The relation that a predicate number stands for, on numbers of w bits. */
  predicate Relates(p: nat, w: nat, x: nat, y: nat)
    requires w >= 1 && x < Pow2(w) && y < Pow2(w)
  {
    var X, Y := SignedOf(w, x), SignedOf(w, y);
    || (p == 32 && x == y)
    || (p == 33 && x != y)
    || (p == 34 && x > y)
    || (p == 35 && x >= y)
    || (p == 36 && x < y)
    || (p == 37 && x <= y)
    || (p == 38 && X > Y)
    || (p == 39 && X >= Y)
    || (p == 40 && X < Y)
    || (p == 41 && X <= Y)
  }

  /** The program knows these predicate numbers. */
  predicate IsRelation(p: nat) { 32 <= p <= 41 }

  lemma RelationKnown(p: nat)
    ensures PredOf(p).Some? <==> IsRelation(p)
  {}

  lemma CompareLaw(p: nat, w: nat, x: nat, y: nat)
    requires PredOf(p).Some? && w >= 1 && x < Pow2(w) && y < Pow2(w)
    ensures Compare(PredOf(p).value, w, x, y) <==> Relates(p, w, x, y)
  {
    SignedIs(w, x);
    SignedIs(w, y);
  }

  /** Truth values are compared for equality only. */
  predicate ComparesTruths(p: nat, a: Option<Value>, b: Option<Value>) {
    (p == 32 || p == 33) && IsTruth(a) && IsTruth(b)
  }

  lemma {:induction false} CmpValue(p: nat, a: Expr, b: Expr, f: File)
    requires SortOf(a).Some? && SortOf(b).Some? && PredOf(p).Some?
    ensures
      var v, u, e := Denote(a, f), Denote(b, f), Checked(Cmp(PredOf(p).value, a, b));
      && (e.Some? <==> SameWidth(Some(v), Some(u)) || ComparesTruths(p, Some(v), Some(u)))
      && (e.Some? && SameWidth(Some(v), Some(u)) ==>
            Denote(e.value, f) == BoolVal(Compare(PredOf(p).value, v.width, v.val, u.val)))
      && (e.Some? && ComparesTruths(p, Some(v), Some(u)) ==> Denote(e.value, f) == BoolVal((p == 32) == (v.b == u.b)))
  {
    ExprProper(a, f);
    ExprProper(b, f);
  }

  /** Comparison labels. */
  lemma {:induction false} ComparisonValue(keys: seq<Key>, n: nat, l: Label, f: File)
    requires WfTable(keys, n) && n < l < |keys| && keys[l].op.ICmp?
    ensures
      var p := keys[l].op.pred;
      var a, b, r := First(keys, n, l, f), Second(keys, n, l, f), Eval(keys, n, l, f);
      && Proper(a) && Proper(b)
      && (r.Some? <==> keys[l].size % 256 != 0 && IsRelation(p) && (SameWidth(a, b) || ComparesTruths(p, a, b)))
      && (r.Some? && SameWidth(a, b) ==> r.value == BoolVal(Relates(p, a.value.width, a.value.val, b.value.val)))
      && (r.Some? && ComparesTruths(p, a, b) ==> r.value == BoolVal((p == 32) == (a.value.b == b.value.b)))
  {
    var key := keys[l];
    var p := key.op.pred;
    OperandStands(keys, n, l, f);
    PlainLabel(keys, n, l);
    RelationKnown(p);
    var a := OperandExpr(key.size, key.l1, Build(keys, n, key.l1), key.op1);
    var b := OperandExpr(key.size, key.l2, Build(keys, n, key.l2), key.op2);
    if key.size % 256 != 0 && a.Some? && b.Some? && PredOf(p).Some? {
      CmpValue(p, a.value, b.value, f);
      var v, u := First(keys, n, l, f), Second(keys, n, l, f);
      if SameWidth(v, u) { CompareLaw(p, v.value.width, v.value.val, u.value.val); }
    }
  }

  // ---------------------------------------------------------------- concatenation

  /** A concrete operand of a concatenation fills what the other one, of the recorded size, leaves. */
  function FillValue(size: nat, other: nat, c: nat): Option<Value> {
    var w := (size - other) % 256;
    if size == 1 then Some(BoolVal(c == 1)) else if w == 0 then None else Some(BV(w, c % Pow2(w)))
  }

  /** The number h above the number l. */
  function Stacked(h: Value, l: Value): Value
    requires h.BV? && l.BV?
  {
    MulMono(0, h.val, Pow2(l.width));
    BV(h.width + l.width, h.val * Pow2(l.width) + l.val)
  }

  lemma {:induction false} ConcatExpr(size: nat, a: Expr, b: Expr, f: File)
    requires SortOf(a).Some? && SortOf(b).Some?
    ensures
      var v, u, e := Denote(a, f), Denote(b, f), BinaryExpr(Concat, size, a, b);
      && (e.Some? <==> v.BV? && u.BV?)
      && (e.Some? ==> Denote(e.value, f) == Stacked(u, v))
  {
    ExprProper(a, f);
    ExprProper(b, f);
    CatAccepted(b, a);
    assert BinaryExpr(Concat, size, a, b) == Checked(Cat(b, a));
    CatDenotes(b, a, f);
  }

  lemma {:induction false} CatAccepted(h: Expr, l: Expr)
    requires SortOf(h).Some? && SortOf(l).Some?
    ensures SortOf(Cat(h, l)).Some? <==> SortOf(h).value.BVSort? && SortOf(l).value.BVSort?
  {}

  lemma {:induction false} CatDenotes(h: Expr, l: Expr, f: File)
    ensures Denote(h, f).BV? && Denote(l, f).BV? ==> Denote(Cat(h, l), f) == Stacked(Denote(h, f), Denote(l, f))
  {
    assert Denote(Cat(h, l), f) == JoinBits(Denote(h, f), Denote(l, f));
  }

  /** The operands of a concatenation. */
  ghost function LowPart(keys: seq<Key>, n: nat, l: Label, f: File): Option<Value>
    requires WfTable(keys, n) && n < l < |keys|
  {
    var key := keys[l];
    if key.l1 > 0 then Eval(keys, n, key.l1, f) else FillValue(key.size, keys[key.l2].size, key.op1)
  }

  ghost function HighPart(keys: seq<Key>, n: nat, l: Label, f: File): Option<Value>
    requires WfTable(keys, n) && n < l < |keys|
  {
    var key := keys[l];
    if key.l2 > 0 then Eval(keys, n, key.l2, f) else FillValue(key.size, keys[key.l1].size, key.op2)
  }

  /** The widths the program computes in eight bits on the way, which must not be zero. */
  ghost predicate WidthsCount(keys: seq<Key>, n: nat, l: Label)
    requires WfTable(keys, n) && n < l < |keys|
  {
    var key := keys[l];
    if key.l1 == 0 then (key.size - keys[key.l2].size) % 256 != 0
    else key.size % 256 != 0 && (key.l2 == 0 ==> (key.size - keys[key.l1].size) % 256 != 0)
  }

  /** Concatenation labels: the second operand above the first. */
  lemma {:induction false} ConcatValue(keys: seq<Key>, n: nat, l: Label, f: File)
    requires WfTable(keys, n) && n < l < |keys| && keys[l].op.Concat?
    ensures
      var a, b, r := LowPart(keys, n, l, f), HighPart(keys, n, l, f), Eval(keys, n, l, f);
      && (r.Some? <==> WidthsCount(keys, n, l) && a.Some? && b.Some? && a.value.BV? && b.value.BV?)
      && (r.Some? ==> r.value == Stacked(b.value, a.value))
  {
    var key := keys[l];
    assert WfNode(key, n, l);
    BuildUnfold(keys, n, l);
    var size1, size2 := keys[key.l1].size, keys[key.l2].size;
    var e1, e2 := Build(keys, n, key.l1), Build(keys, n, key.l2);
    ConcatParts(key, keys[key.l1].op1, size1, size2, e1, e2);
    var w1, w2 := ConstWidth1(key, size2), ConstWidth2(key, size1, size2);
    assert WidthsCount(keys, n, l) <==> w1 != 0 && w2 != 0;
    if w1 != 0 && w2 != 0 && (key.l1 > 0 ==> e1.Some?) && (key.l2 > 0 ==> e2.Some?) {
      PartStands(keys, n, key.l1, key.size, w1, key.op1, f);
      PartStands(keys, n, key.l2, key.size, w2, key.op2, f);
      ConcatExpr(key.size, PartExpr(keys, n, key.l1, key.size, w1, key.op1).value,
                 PartExpr(keys, n, key.l2, key.size, w2, key.op2).value, f);
    }
  }

  function PartExpr(keys: seq<Key>, n: nat, o: Label, size: nat, w: nat, c: nat): Option<Expr>
    requires WfTable(keys, n) && o < |keys|
  {
    if o > 0 then Build(keys, n, o) else Some(ConstOperand(size, w, c))
  }

  lemma PartStands(keys: seq<Key>, n: nat, o: Label, size: nat, w: nat, c: nat, f: File)
    requires WfTable(keys, n) && o < |keys| && w > 0
    ensures Stands(PartExpr(keys, n, o, size, w, c),
                   if o > 0 then Eval(keys, n, o, f)
                   else Some(if size == 1 then BoolVal(c == 1) else BV(w, c % Pow2(w))), f)
  {
    BuildSorted(keys, n, o);
  }

  lemma {:induction false} ConcatParts(key: Key, off1: nat, size1: nat, size2: nat, e1: Option<Expr>, e2: Option<Expr>)
    requires key.op.Concat?
    ensures
      var w1, w2 := ConstWidth1(key, size2), ConstWidth2(key, size1, size2);
      Node(key, off1, size1, size2, e1, e2) ==
        if w1 == 0 || w2 == 0 || (key.l1 > 0 && e1.None?) || (key.l2 > 0 && e2.None?) then None
        else BinaryExpr(key.op, key.size, if key.l1 > 0 then e1.value else ConstOperand(key.size, w1, key.op1),
                        if key.l2 > 0 then e2.value else ConstOperand(key.size, w2, key.op2))
  {}

  // ---------------------------------------------------------------- operators of one operand

  /** Widening with zeros keeps the number; a truth value becomes one or zero. */
  lemma {:induction false} ZeroExtendValue(keys: seq<Key>, n: nat, l: Label, f: File)
    requires WfTable(keys, n) && n < l < |keys| && keys[l].op.ZExt?
    ensures
      var size := keys[l].size;
      && keys[l].l1 < l
      && var a, r := Eval(keys, n, keys[l].l1, f), Eval(keys, n, l, f);
         && (r.Some? <==> a.Some? && (if a.value.BV? then a.value.width else 1) <= size)
         && (r.Some? ==> r.value == BV(size, match a.value case BV(_, x) => x case BoolVal(b) => if b then 1 else 0))
  {
    var key := keys[l];
    assert WfNode(key, n, l);
    BuildUnfold(keys, n, l);
    BuildSorted(keys, n, key.l1);
    var e := Build(keys, n, key.l1);
    if e.Some? {
      ExprProper(e.value, f);
      ZeroExtExpr(key.size, e.value, f);
    }
  }

  lemma {:induction false} ZeroExtExpr(size: nat, a: Expr, f: File)
    requires SortOf(a).Some?
    ensures
      var v, e := Denote(a, f), ZeroExtTo(size, a);
      && (e.Some? <==> (if v.BV? then v.width else 1) <= size)
      && (e.Some? ==> Denote(e.value, f) == BV(size, match v case BV(_, x) => x case BoolVal(b) => if b then 1 else 0))
  {
    ExprProper(a, f);
  }

  /** Widening with copies of the sign keeps the signed number. */
  lemma {:induction false} SignExtendValue(keys: seq<Key>, n: nat, l: Label, f: File)
    requires WfTable(keys, n) && n < l < |keys| && keys[l].op.SExt?
    ensures
      var size := keys[l].size;
      && keys[l].l1 < l
      && var a, r := Eval(keys, n, keys[l].l1, f), Eval(keys, n, l, f);
         && Proper(a) && Proper(r)
         && (r.Some? <==> a.Some? && a.value.BV? && a.value.width <= size)
         && (r.Some? ==> IsWord(r, size) && SignedOf(size, r.value.val) == SignedOf(a.value.width, a.value.val))
  {
    var key := keys[l];
    assert WfNode(key, n, l);
    BuildUnfold(keys, n, l);
    BuildSorted(keys, n, key.l1);
    EvalProper(keys, n, key.l1, f);
    EvalProper(keys, n, l, f);
    var e := Build(keys, n, key.l1);
    if e.Some? {
      ExprProper(e.value, f);
      SignExtExpr(key.size, e.value, f);
    }
  }

  lemma {:induction false} SignExtExpr(size: nat, a: Expr, f: File)
    requires SortOf(a).Some?
    ensures
      var v, e := Denote(a, f), SignExtTo(size, a);
      && (e.Some? <==> v.BV? && v.width <= size)
      && (e.Some? ==> v.width >= 1 && v.val < Pow2(v.width))
      && (e.Some? ==> SameSigned(v, Denote(e.value, f), size))
  {
    ExprProper(a, f);
    SignExtAccepted(size, a);
    var v := Denote(a, f);
    if v.BV? && v.width <= size { SignExtDenotes(size - v.width, a, f); }
  }

  lemma {:induction false} SignExtAccepted(size: nat, a: Expr)
    requires SortOf(a).Some?
    ensures SignExtTo(size, a) ==
              match SortOf(a).value
              case BoolSort => None
              case BVSort(w) => if w <= size then Some(SignExt(size - w, a)) else None
  {}

  /** r is the signed number v in size bits. */
  predicate SameSigned(v: Value, r: Value, size: nat)
    requires v.BV? && v.width >= 1 && v.val < Pow2(v.width)
  {
    && r.BV? && r.width == size >= 1 && r.val < Pow2(size)
    && SignedOf(size, r.val) == SignedOf(v.width, v.val)
  }

  lemma {:induction false} SignExtDenotes(k: nat, a: Expr, f: File)
    requires var v := Denote(a, f); v.BV? && v.width >= 1 && v.val < Pow2(v.width)
    ensures SameSigned(Denote(a, f), Denote(SignExt(k, a), f), Denote(a, f).width + k)
  {
    var v := Denote(a, f);
    SignedIs(v.width, v.val);
    SignedWider(v.width, v.val, k);
  }

  lemma SignedWider(w: nat, x: nat, k: nat)
    requires w >= 1 && x < Pow2(w)
    ensures SignedOf(w + k, SignedOf(w, x) % Pow2(w + k)) == SignedOf(w, x)
  {
    var X := SignedOf(w, x);
    Pow2Mono(w - 1, w + k - 1);
    SignedUnique(w + k, X % Pow2(w + k), X);
  }

  /** Cutting size bits out, from bit lo on. Positions are kept in 32 bits. */
  lemma {:induction false} CutValue(keys: seq<Key>, n: nat, l: Label, f: File)
    requires WfTable(keys, n) && n < l < |keys| && (keys[l].op.Trunc? || keys[l].op.Extract?)
    ensures
      var size, lo := keys[l].size, if keys[l].op.Trunc? then 0 else keys[l].op2 % 0x1_0000_0000;
      && keys[l].l1 < l
      && var a, r := Eval(keys, n, keys[l].l1, f), Eval(keys, n, l, f);
         && (r.Some? <==> size >= 1 && lo + size <= 0x1_0000_0000 && a.Some? && a.value.BV? && lo + size <= a.value.width)
         && (r.Some? ==> r.value == BV(size, a.value.val / Pow2(lo) % Pow2(size)))
  {
    var key := keys[l];
    assert WfNode(key, n, l);
    BuildUnfold(keys, n, l);
    BuildSorted(keys, n, key.l1);
    var e := Build(keys, n, key.l1);
    if e.Some? {
      ExprProper(e.value, f);
      SliceExpr(key.size, if key.op.Trunc? then 0 else key.op2, e.value, f);
    }
  }

  lemma {:induction false} SliceExpr(size: nat, lo: nat, a: Expr, f: File)
    requires SortOf(a).Some? && size < 0x1_0000
    ensures
      var v, e, low := Denote(a, f), SliceOf(size, lo, a), lo % 0x1_0000_0000;
      && (e.Some? <==> size >= 1 && low + size <= 0x1_0000_0000 && v.BV? && low + size <= v.width)
      && (e.Some? ==> Denote(e.value, f) == BV(size, v.val / Pow2(low) % Pow2(size)))
  {
    ExprProper(a, f);
    if size >= 1 { HighPosition(size, lo); }
  }

  lemma HighPosition(size: nat, lo: nat)
    requires 1 <= size < 0x1_0000
    ensures
      var low, high := U32(lo), U32(lo + size - 1);
      if low + size <= 0x1_0000_0000 then high == low + size - 1 else high < low
  {
    ModOfMod(lo, 0x1_0000_0000, size - 1);
    var low := U32(lo);
    if low + size <= 0x1_0000_0000 {
      ModSmall(low + size - 1, 0x1_0000_0000);
    } else {
      DivModUnique(low + size - 1, 0x1_0000_0000, 1, low + size - 1 - 0x1_0000_0000);
    }
  }

  /** Negations of the second operand: logical in one bit, arithmetic modulo the width. */
  lemma {:induction false} NegationValue(keys: seq<Key>, n: nat, l: Label, f: File)
    requires WfTable(keys, n) && n < l < |keys| && (keys[l].op.Not? || keys[l].op.Negate?)
    ensures
      var key := keys[l];
      && key.l2 < l
      && var b, r := Eval(keys, n, key.l2, f), Eval(keys, n, l, f);
         && Proper(b)
         && (key.op.Not? ==>
               && (r.Some? <==> key.size == 1 && IsTruth(b))
               && (r.Some? ==> r.value == BoolVal(!b.value.b)))
         && (key.op.Negate? ==>
               && (r.Some? <==> b.Some? && b.value.BV?)
               && (r.Some? ==> r.value == BV(b.value.width, (0 - b.value.val) % Pow2(b.value.width))))
  {
    var key := keys[l];
    assert WfNode(key, n, l);
    BuildUnfold(keys, n, l);
    BuildSorted(keys, n, key.l2);
    EvalProper(keys, n, key.l2, f);
    var e := Build(keys, n, key.l2);
    if e.Some? {
      ExprProper(e.value, f);
      var v := Denote(e.value, f);
      if v.BV? { NegLaw(v.width, v.val); }
    }
  }

  // ---------------------------------------------------------------- the others

  /** A memory comparison: zero if the blocks are equal, else one, in 32 bits. */
  lemma {:induction false} MemcmpValue(keys: seq<Key>, n: nat, l: Label, f: File)
    requires WfTable(keys, n) && n < l < |keys| && keys[l].op.FMemcmp?
    ensures
      var key := keys[l];
      && key.l1 < l && key.l2 < l
      && var a, b, r := Eval(keys, n, key.l1, f), Eval(keys, n, key.l2, f), Eval(keys, n, l, f);
         && (r.Some? <==> SameWidth(a, b) || (IsTruth(a) && IsTruth(b)))
         && (r.Some? ==> r.value == BV(32, if a == b then 0 else 1))
  {
    var key := keys[l];
    assert WfNode(key, n, l);
    BuildUnfold(keys, n, l);
    BuildSorted(keys, n, key.l1);
    BuildSorted(keys, n, key.l2);
    var e1, e2 := Build(keys, n, key.l1), Build(keys, n, key.l2);
    if e1.Some? && e2.Some? {
      ExprProper(e1.value, f);
      ExprProper(e2.value, f);
    }
  }

  /** The little-endian number of count bytes. */
  function FileNumber(f: File, off: nat, count: nat): nat
    decreases count
  {
    if count == 0 then 0 else ByteAt(f, off) + 256 * FileNumber(f, off + 1, count - 1)
  }

  lemma NextPower(k: nat, b: nat)
    ensures 256 * (b * Pow2(8 * k)) == b * Pow2(8 * (k + 1))
  {
    Pow2Add(8, 8 * k);
    assert Pow2(8) == 256 by { Pow2Values(); }
    var p := Pow2(8 * k);
    assert 256 * (b * p) == b * (256 * p);
  }

  lemma {:induction false} FileNumberTop(f: File, off: nat, count: nat)
    requires count >= 1
    ensures FileNumber(f, off, count) == FileNumber(f, off, count - 1) + ByteAt(f, off + count - 1) * Pow2(8 * (count - 1))
    decreases count
  {
    if count > 1 {
      FileNumberTop(f, off + 1, count - 1);
      NextPower(count - 2, ByteAt(f, off + count - 1));
    }
  }

  lemma {:induction false} LoadExprValue(off: nat, count: nat, f: File)
    requires count >= 1
    ensures Denote(LoadExpr(off, count), f) == BV(8 * count, FileNumber(f, off, count))
    decreases count
  {
    if count > 1 {
      LoadExprValue(off, count - 1, f);
      FileNumberTop(f, off, count);
    }
  }

  /** Loads and input bytes: the little-endian number in the file. */
  lemma {:induction false} InputValue(keys: seq<Key>, n: nat, l: Label, f: File)
    requires WfTable(keys, n) && l < |keys| && (l <= n || keys[l].op.Load?)
    ensures l == 0 ==> Eval(keys, n, l, f).None?
    ensures 0 < l <= n ==> Eval(keys, n, l, f) == Some(BV(8, ByteAt(f, l - 1)))
    ensures l > n ==>
              var first, count := keys[l].l1, keys[l].l2;
              Eval(keys, n, l, f) == Some(BV(8 * count, FileNumber(f, if first == 0 then 0 else first - 1, count)))
  {
    if l > 0 { BuildUnfold(keys, n, l); }
    if l > n {
      assert WfNode(keys[l], n, l);
      LoadExprValue(OffsetOf(keys[l].l1), keys[l].l2, f);
    }
  }

  /** There are no other operators. */
  lemma UnsupportedValue(keys: seq<Key>, n: nat, l: Label, f: File)
    requires WfTable(keys, n) && n < l < |keys| && keys[l].op.Unsupported?
    ensures Eval(keys, n, l, f).None?
  {
    PlainLabel(keys, n, l);
  }

  // ---------------------------------------------------------------- requests

  /** The operands of a request, in the order of the caller. */
  ghost function Argument(keys: seq<Key>, n: nat, l: Label, size: nat, c: nat, f: File): Option<Value>
    requires WfTable(keys, n) && l < |keys|
  {
    if l > 0 then Eval(keys, n, l, f) else ConstantValue(size, c)
  }

  /** The label of a request has the operands of the request, exchanged at most for these operators. */
  lemma RequestOperands(keys: seq<Key>, n: nat, c: Call, f: File)
    requires WfTable(keys, n) && Distinct(keys, n) && ValidCall(keys, n, c) && !Trivial(c)
    ensures
      var (keys', l) := Union(keys, n, c);
      && WfTable(keys', n) && n < l < |keys'| && keys'[l].op == c.op && keys'[l].size == c.size
      && var a, b := Argument(keys, n, c.l1, c.size, c.op1, f), Argument(keys, n, c.l2, c.size, c.op2, f);
         || (First(keys', n, l, f) == a && Second(keys', n, l, f) == b)
         || (c.op in {Not, And, Or, Xor, Add, Mul, FMemcmp} && First(keys', n, l, f) == b && Second(keys', n, l, f) == a)
  {
    UnionWf(keys, n, c);
    var (keys', l) := Union(keys, n, c);
    BuildStable(keys, keys', n, c.l1);
    BuildStable(keys, keys', n, c.l2);
  }

  /** What a request for an arithmetic label yields, whatever was requested before: the operator applied to the
      caller's operands in the caller's order. */
  lemma ArithmeticRequest(keys: seq<Key>, n: nat, c: Call, f: File)
    requires WfTable(keys, n) && Distinct(keys, n) && ValidCall(keys, n, c) && !Trivial(c) && IsArithmetic(c.op)
    ensures
      var (keys', l) := Union(keys, n, c);
      && WfTable(keys', n) && l < |keys'|
      && var a, b := Argument(keys, n, c.l1, c.size, c.op1, f), Argument(keys, n, c.l2, c.size, c.op2, f);
         var r := Eval(keys', n, l, f);
         && Proper(a) && Proper(b)
         && (r.Some? <==> c.size % 256 != 0 && SameWidth(a, b))
         && (r.Some? ==> IsWord(r, a.value.width) && Computes(c.op, a.value.width, a.value.val, b.value.val, r.value.val))
  {
    RequestOperands(keys, n, c, f);
    var (keys', l) := Union(keys, n, c);
    ArithmeticValue(keys', n, l, f);
  }

  lemma BitwiseRequest(keys: seq<Key>, n: nat, c: Call, f: File)
    requires WfTable(keys, n) && Distinct(keys, n) && ValidCall(keys, n, c) && !Trivial(c) && c.op in {And, Or, Xor}
    ensures
      var (keys', l) := Union(keys, n, c);
      && WfTable(keys', n) && l < |keys'|
      && Bitwise(c.op, c.size, Argument(keys, n, c.l1, c.size, c.op1, f), Argument(keys, n, c.l2, c.size, c.op2, f),
                 Eval(keys', n, l, f))
  {
    RequestOperands(keys, n, c, f);
    var (keys', l) := Union(keys, n, c);
    BitwiseValue(keys', n, l, f);
    BitwiseSwaps(c.op, c.size, First(keys', n, l, f), Second(keys', n, l, f), Eval(keys', n, l, f));
  }

  lemma BitwiseSwaps(op: Op, size: nat, a: Option<Value>, b: Option<Value>, r: Option<Value>)
    requires op in {And, Or, Xor} && Bitwise(op, size, a, b, r)
    ensures Bitwise(op, size, b, a, r)
  {
    if r.Some? && SameWidth(a, b) {
      assert BitByBit(op, b.value.val, a.value.val, r.value.val);
    }
  }

  lemma ComparisonRequest(keys: seq<Key>, n: nat, c: Call, f: File)
    requires WfTable(keys, n) && Distinct(keys, n) && ValidCall(keys, n, c) && !Trivial(c) && c.op.ICmp?
    ensures
      var (keys', l) := Union(keys, n, c);
      && WfTable(keys', n) && l < |keys'|
      && var p, a, b := c.op.pred, Argument(keys, n, c.l1, c.size, c.op1, f), Argument(keys, n, c.l2, c.size, c.op2, f);
         var r := Eval(keys', n, l, f);
         && Proper(a) && Proper(b)
         && (r.Some? <==> c.size % 256 != 0 && IsRelation(p) && (SameWidth(a, b) || ComparesTruths(p, a, b)))
         && (r.Some? && SameWidth(a, b) ==> r.value == BoolVal(Relates(p, a.value.width, a.value.val, b.value.val)))
         && (r.Some? && ComparesTruths(p, a, b) ==> r.value == BoolVal((p == 32) == (a.value.b == b.value.b)))
  {
    RequestOperands(keys, n, c, f);
    var (keys', l) := Union(keys, n, c);
    ComparisonValue(keys', n, l, f);
  }
}
