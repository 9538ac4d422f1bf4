/** The label table: an append-only graph of operations over input bytes, and the expression every
    label stands for. */
module Labels {
  import opened Arith
  import opened Options
  import opened Expressions

  type Label = nat

  const CONST_LABEL: Label := 0

  /** Operators of a label. A comparison carries its predicate number, which the program keeps in
      the high byte of the operator. */
  datatype Op = Input | Not | Negate | Add | Sub | Mul | UDiv | SDiv | URem | SRem | Shl | LShr | AShr
    | And | Or | Xor | Trunc | ZExt | SExt | ICmp(pred: nat) | Load | Extract | Concat
    | FMemcmp | FSize | Unsupported(code: nat)

  /** The six fields that identify a label. */
  datatype Key = Key(l1: Label, l2: Label, op: Op, size: nat, op1: nat, op2: nat)

  predicate IsCommutative(op: Op) {
    op in {Not, And, Or, Xor, Add, Mul, FMemcmp}
  }

  // ---------------------------------------------------------------- well-formed tables

  function InputKey(off: nat): Key {
    Key(0, 0, Input, 8, off, 0)
  }

  /** A label created by the program after start-up: operands are older labels, a tainted operand
      leaves no concrete one, and a Load spans input bytes of the file. */
  predicate WfNode(key: Key, n: nat, lbl: Label) {
    && !key.op.Input? && !key.op.FSize?
    && key.l1 < lbl && key.l2 < lbl
    && key.size < 0x1_0000
    && (key.l1 > 0 ==> key.op1 == 0)
    && (key.l2 > 0 ==> key.op2 == 0)
    && (key.l1 > 0 || key.l2 > 0)
    && (key.op.FMemcmp? ==> key.l1 > 0 && key.l2 > 0)
    && (key.op.Load? ==> key.l1 <= n && 2 <= key.l2 && key.size == 8 * key.l2
                         && OffsetOf(key.l1) + key.l2 <= n)
  }

  /** op1 of an input label or of label zero. */
  function OffsetOf(l: Label): nat {
    if l == 0 then 0 else l - 1
  }

  /** File-backed mode: label 0 is the constant, labels 1..n are the n input bytes in order. */
  ghost predicate WfTable(keys: seq<Key>, n: nat) {
    && n < |keys|
    && (forall k | 0 <= k <= n :: keys[k] == InputKey(OffsetOf(k)))
    && (forall k | n < k < |keys| :: WfNode(keys[k], n, k))
  }

  /** No two labels beyond the inputs share a key. */
  ghost predicate Distinct(keys: seq<Key>, n: nat) {
    forall i, j | n < i < j < |keys| :: keys[i] != keys[j]
  }

  // ---------------------------------------------------------------- the expression of a label

  function U8(x: int): nat { x % 256 }

  function U32(x: nat): nat { x % 0x1_0000_0000 }

  function Checked(e: Expr): Option<Expr> {
    if SortOf(e).Some? then Some(e) else None
  }

  /** Little-endian concatenation of count consecutive input bytes. */
  function LoadExpr(off: nat, count: nat): Expr
    requires count >= 1
  {
    if count == 1 then Sym(off) else Cat(Sym(off + count - 1), LoadExpr(off, count - 1))
  }

  /** The offsets off, off + 1, ..., off + count - 1. */
  function Span(off: nat, count: nat): (s: set<nat>)
    ensures forall o :: o in s <==> off <= o < off + count
  {
    if count == 0 then {} else Span(off, count - 1) + {off + count - 1}
  }

  function PredOf(p: nat): Option<Pred> {
    if p == 32 then Some(Eq) else if p == 33 then Some(Neq)
    else if p == 34 then Some(Ugt) else if p == 35 then Some(Uge)
    else if p == 36 then Some(Ult) else if p == 37 then Some(Ule)
    else if p == 38 then Some(Sgt) else if p == 39 then Some(Sge)
    else if p == 40 then Some(Slt) else if p == 41 then Some(Sle)
    else None
  }

  function ZeroExtTo(size: nat, e: Expr): Option<Expr> {
    var base := if SortOf(e) == Some(BoolSort) then BoolToBit(e) else e;
    var w := WidthOf(SortOf(base));
    if w.Some? && w.value <= size then Some(ZeroExt(size - w.value, base)) else None
  }

  function SignExtTo(size: nat, e: Expr): Option<Expr> {
    var w := WidthOf(SortOf(e));
    if w.Some? && w.value <= size then Some(SignExt(size - w.value, e)) else None
  }

  function SliceOf(size: nat, lo: nat, e: Expr): Option<Expr> {
    if size == 0 then None else Checked(Slice(U32(lo + size - 1), U32(lo), e))
  }

  /** A concrete operand: one-bit operations use booleans. */
  function ConstOperand(size: nat, width: nat, c: nat): Expr {
    if size == 1 then BoolConst(c == 1) else BVConst(width, c)
  }

  /** The switch over two-operand operators, before the solver checks the sorts. */
  function BinarySwitch(op: Op, size: nat, a: Expr, b: Expr): Option<Expr> {
    match op
    case And => Some(if size != 1 then Bin(BvAnd, a, b) else LAnd(a, b))
    case Or => Some(if size != 1 then Bin(BvOr, a, b) else LOr(a, b))
    case Xor => Some(if SortOf(a) == Some(BoolSort) then LXor(a, b) else Bin(BvXor, a, b))
    case Shl => Some(Bin(BvShl, a, b))
    case LShr => Some(Bin(BvLshr, a, b))
    case AShr => Some(Bin(BvAshr, a, b))
    case Add => Some(Bin(BvAdd, a, b))
    case Sub => Some(Bin(BvSub, a, b))
    case Mul => Some(Bin(BvMul, a, b))
    case UDiv => Some(Bin(BvUdiv, a, b))
    case SDiv => Some(Bin(BvSdiv, a, b))
    case URem => Some(Bin(BvUrem, a, b))
    case SRem => Some(Bin(BvSrem, a, b))
    case ICmp(p) => if PredOf(p).Some? then Some(Cmp(PredOf(p).value, a, b)) else None
    case Concat => Some(Cat(b, a))
    case _ => None
  }

  function BinaryExpr(op: Op, size: nat, a: Expr, b: Expr): Option<Expr> {
    var e := BinarySwitch(op, size, a, b);
    if e.None? then None else Checked(e.value)
  }

  predicate IsUnary(op: Op) {
    op.ZExt? || op.SExt? || op.Trunc? || op.Extract?
  }

  /** Width of the constant that stands for operand 1, then for operand 2: for a concatenation, what
      the tainted side leaves. The program keeps it in eight bits. */
  function ConstWidth1(key: Key, size2: nat): nat {
    if key.op.Concat? && key.l1 == 0 then U8(key.size - size2) else U8(key.size)
  }

  function ConstWidth2(key: Key, size1: nat, size2: nat): nat {
    if key.op.Concat? && key.l2 == 0 then U8(key.size - size1) else ConstWidth1(key, size2)
  }

  /** The expression of one node from those of its operands; None where building it raises an
      exception. off1, size1 and size2 are read from the operands' records. */
  function Node(key: Key, off1: nat, size1: nat, size2: nat, e1: Option<Expr>, e2: Option<Expr>): Option<Expr> {
    match key.op
    case Input => Some(Sym(key.op1))
    case Load => if key.l2 == 0 then None else Some(LoadExpr(off1, key.l2))
    case ZExt => if e1.None? then None else ZeroExtTo(key.size, e1.value)
    case SExt => if e1.None? then None else SignExtTo(key.size, e1.value)
    case Trunc => if e1.None? then None else SliceOf(key.size, 0, e1.value)
    case Extract => if e1.None? then None else SliceOf(key.size, key.op2, e1.value)
    case Not => if key.l2 == 0 || key.size != 1 || e2.None? then None else Checked(LNot(e2.value))
    case Negate => if key.l2 == 0 || e2.None? then None else Checked(Neg(e2.value))
    case FMemcmp =>
      if e1.None? || key.l2 == 0 || e2.None? then None else Checked(BytesDiffer(e1.value, e2.value))
    case FSize => None
    case _ =>
      var w1, w2 := ConstWidth1(key, size2), ConstWidth2(key, size1, size2);
      if w1 == 0 || w2 == 0 then None
      else if (key.l1 > 0 && e1.None?) || (key.l2 > 0 && e2.None?) then None
      else BinaryExpr(key.op, key.size,
                      if key.l1 > 0 then e1.value else ConstOperand(key.size, w1, key.op1),
                      if key.l2 > 0 then e2.value else ConstOperand(key.size, w2, key.op2))
  }

  /** The expression of a label by plain recursion. It terminates because operands are older. */
  function Build(keys: seq<Key>, n: nat, lbl: Label): Option<Expr>
    requires WfTable(keys, n) && lbl < |keys|
    decreases lbl, 2
  {
    if lbl == CONST_LABEL then None else BuildRecord(keys, n, lbl)
  }

  function BuildRecord(keys: seq<Key>, n: nat, lbl: Label): Option<Expr>
    requires WfTable(keys, n) && 0 < lbl < |keys|
    decreases lbl, 1
  {
    BuildOperands(keys, n, lbl, keys[lbl])
  }

  function BuildOperands(keys: seq<Key>, n: nat, lbl: Label, key: Key): Option<Expr>
    requires WfTable(keys, n) && 0 < lbl < |keys| && key == keys[lbl]
    decreases lbl, 0
  {
    Node(key, keys[key.l1].op1, keys[key.l1].size, keys[key.l2].size,
         Build(keys, n, key.l1), Build(keys, n, key.l2))
  }

  lemma BuildUnfold(keys: seq<Key>, n: nat, lbl: Label)
    requires WfTable(keys, n) && 0 < lbl < |keys|
    ensures
      var key := keys[lbl];
      Build(keys, n, lbl) == Node(key, keys[key.l1].op1, keys[key.l1].size, keys[key.l2].size,
                                  Build(keys, n, key.l1), Build(keys, n, key.l2))
  {
    assert Build(keys, n, lbl) == BuildRecord(keys, n, lbl);
    assert BuildRecord(keys, n, lbl) == BuildOperands(keys, n, lbl, keys[lbl]);
  }

  /** Value of a label on one input; None when its expression cannot be built. */
  function Eval(keys: seq<Key>, n: nat, lbl: Label, f: File): Option<Value>
    requires WfTable(keys, n) && lbl < |keys|
  {
    var e := Build(keys, n, lbl);
    if e.None? then None else Some(Denote(e.value, f))
  }

  /** Appending labels leaves every older label's expression alone. */
  lemma {:induction false} BuildStable(keys: seq<Key>, more: seq<Key>, n: nat, lbl: Label)
    requires WfTable(keys, n) && WfTable(more, n) && keys <= more && lbl < |keys|
    ensures Build(more, n, lbl) == Build(keys, n, lbl)
    decreases lbl
  {
    if lbl != CONST_LABEL {
      BuildUnfold(keys, n, lbl);
      BuildUnfold(more, n, lbl);
      BuildStable(keys, more, n, keys[lbl].l1);
      BuildStable(keys, more, n, keys[lbl].l2);
    }
  }

  lemma {:induction false} LoadExprSort(off: nat, count: nat)
    requires count >= 1
    ensures SortOf(LoadExpr(off, count)) == Some(BVSort(8 * count))
    ensures Mentions(LoadExpr(off, count)) == Span(off, count)
  {
    if count > 1 { LoadExprSort(off, count - 1); }
  }

  lemma {:induction false} NodeSorted(key: Key, off1: nat, size1: nat, size2: nat, e1: Option<Expr>, e2: Option<Expr>)
    requires key.op.Load? ==> key.l2 >= 1
    requires e1.Some? ==> SortOf(e1.value).Some?
    requires e2.Some? ==> SortOf(e2.value).Some?
    ensures
      var e := Node(key, off1, size1, size2, e1, e2);
      e.Some? ==> SortOf(e.value).Some?
  {
    if key.op.Load? { LoadExprSort(off1, key.l2); }
  }

  /** Whatever is built is well sorted. */
  lemma {:induction false} BuildSorted(keys: seq<Key>, n: nat, lbl: Label)
    requires WfTable(keys, n) && lbl < |keys|
    ensures Build(keys, n, lbl).Some? ==> SortOf(Build(keys, n, lbl).value).Some?
    decreases lbl
  {
    if lbl != CONST_LABEL {
      var key := keys[lbl];
      BuildUnfold(keys, n, lbl);
      BuildSorted(keys, n, key.l1);
      BuildSorted(keys, n, key.l2);
      NodeSorted(key, keys[key.l1].op1, keys[key.l1].size, keys[key.l2].size,
                 Build(keys, n, key.l1), Build(keys, n, key.l2));
    }
  }

  /** Offsets of an n-byte file. */
  function Offsets(n: nat): set<nat> {
    Span(0, n)
  }

  lemma {:induction false} NodeMentions(key: Key, off1: nat, size1: nat, size2: nat, e1: Option<Expr>, e2: Option<Expr>)
    requires key.op.Load? ==> key.l2 >= 1
    ensures
      var e := Node(key, off1, size1, size2, e1, e2);
      var m1 := if e1.Some? then Mentions(e1.value) else {};
      var m2 := if e2.Some? then Mentions(e2.value) else {};
      e.Some? ==>
        Mentions(e.value) ==
          (match key.op
           case Input => {key.op1}
           case Load => Span(off1, key.l2)
           case ZExt => m1 case SExt => m1 case Trunc => m1 case Extract => m1
           case Not => m2 case Negate => m2
           case FMemcmp => m1 + m2
           case _ => (if key.l1 > 0 then m1 else {}) + (if key.l2 > 0 then m2 else {}))
  {
    if key.op.Load? {
      LoadExprSort(off1, key.l2);
    } else if Node(key, off1, size1, size2, e1, e2).Some? && IsBinary(key.op) {
      var w1, w2 := ConstWidth1(key, size2), ConstWidth2(key, size1, size2);
      var a := if key.l1 > 0 then e1.value else ConstOperand(key.size, w1, key.op1);
      var b := if key.l2 > 0 then e2.value else ConstOperand(key.size, w2, key.op2);
      BinaryMentions(key.op, key.size, a, b);
    }
  }

  predicate IsBinary(op: Op) {
    !op.Input? && !op.Load? && !IsUnary(op) && !op.Not? && !op.Negate? && !op.FMemcmp? && !op.FSize?
  }

  lemma {:induction false} BinaryMentions(op: Op, size: nat, a: Expr, b: Expr)
    requires BinaryExpr(op, size, a, b).Some?
    ensures Mentions(BinaryExpr(op, size, a, b).value) == Mentions(a) + Mentions(b)
  {
    SwitchMentions(op, size, a, b);
  }

  lemma {:induction false} SwitchMentions(op: Op, size: nat, a: Expr, b: Expr)
    requires BinarySwitch(op, size, a, b).Some?
    ensures Mentions(BinarySwitch(op, size, a, b).value) == Mentions(a) + Mentions(b)
  {
    var e := BinarySwitch(op, size, a, b).value;
    assert e.LAnd? || e.LOr? || e.LXor? || e.Bin? || e.Cmp? || e.Cat?;
    match e
    case LAnd(_, _) => assert e == LAnd(a, b);
    case LOr(_, _) => assert e == LOr(a, b);
    case LXor(_, _) => assert e == LXor(a, b);
    case Bin(o, _, _) => assert e == Bin(o, a, b);
    case Cmp(p, _, _) => assert e == Cmp(p, a, b);
    case Cat(_, _) => assert e == Cat(b, a);
  }

  /** Every byte a label's expression mentions lies in the file. */
  lemma {:induction false} BuildMentions(keys: seq<Key>, n: nat, lbl: Label)
    requires WfTable(keys, n) && lbl < |keys|
    ensures Build(keys, n, lbl).Some? ==> Mentions(Build(keys, n, lbl).value) <= Offsets(n)
    decreases lbl
  {
    if lbl != CONST_LABEL {
      var key := keys[lbl];
      BuildUnfold(keys, n, lbl);
      BuildMentions(keys, n, key.l1);
      BuildMentions(keys, n, key.l2);
      NodeMentions(key, keys[key.l1].op1, keys[key.l1].size, keys[key.l2].size,
                   Build(keys, n, key.l1), Build(keys, n, key.l2));
    }
  }

  // ---------------------------------------------------------------- creating labels

  /** Arguments of one call that asks for a label. */
  datatype Call = Call(l1: Label, l2: Label, op: Op, size: nat, op1: nat, op2: nat)

  /** Both operands concrete: no label is needed. */
  predicate Trivial(c: Call) {
    c.l1 == 0 && c.l2 == 0
  }

  function Swapped(c: Call): Call {
    c.(l1 := c.l2, l2 := c.l1, op1 := c.op2, op2 := c.op1)
  }

  /** The key a call asks for: commutative operands in order, concrete values of tainted operands
      dropped. */
  function UnionKey(c: Call): Key {
    var d := if c.l1 > c.l2 && IsCommutative(c.op) then Swapped(c) else c;
    Key(d.l1, d.l2, d.op, d.size, if d.l1 > 0 then 0 else d.op1, if d.l2 > 0 then 0 else d.op2)
  }

  /** Some label beyond the inputs has this key. */
  ghost predicate Present(keys: seq<Key>, n: nat, key: Key) {
    exists i :: n < i < |keys| && keys[i] == key
  }

  ghost function LabelOf(keys: seq<Key>, n: nat, key: Key): (i: Label)
    requires Present(keys, n, key)
    ensures n < i < |keys| && keys[i] == key
  {
    var i :| n < i < |keys| && keys[i] == key; i
  }

  /** Table and label after a call: the existing label with that key, or a new one at the end. */
  ghost function Union(keys: seq<Key>, n: nat, c: Call): (r: (seq<Key>, Label))
    requires n < |keys|
    ensures keys <= r.0
  {
    if Trivial(c) then (keys, CONST_LABEL)
    else if Present(keys, n, UnionKey(c)) then (keys, LabelOf(keys, n, UnionKey(c)))
    else (keys + [UnionKey(c)], |keys|)
  }

  /** What the program guarantees of its calls in file-backed mode. */
  predicate ValidCall(keys: seq<Key>, n: nat, c: Call) {
    && !c.op.Input? && !c.op.FSize?
    && c.l1 < |keys| && c.l2 < |keys| && c.size < 0x1_0000
    && (c.op.FMemcmp? ==> c.l1 > 0 && c.l2 > 0)
    && (c.op.Load? ==> c.l1 <= n && 2 <= c.l2 && c.size == 8 * c.l2 && OffsetOf(c.l1) + c.l2 <= n)
  }

  lemma UnionWf(keys: seq<Key>, n: nat, c: Call)
    requires WfTable(keys, n) && Distinct(keys, n) && ValidCall(keys, n, c)
    ensures
      var (keys', l) := Union(keys, n, c);
      && keys <= keys' && WfTable(keys', n) && Distinct(keys', n)
      && l < |keys'|
      && (Trivial(c) <==> l == 0)
      && (!Trivial(c) ==> l > n && keys'[l] == UnionKey(c))
  {
    if !Trivial(c) && !Present(keys, n, UnionKey(c)) {
      assert WfNode(UnionKey(c), n, |keys|);
    }
  }

  // ---------------------------------------------------------------- runs of calls

  ghost predicate ValidRun(keys: seq<Key>, n: nat, calls: seq<Call>)
    requires n < |keys|
    decreases |calls|
  {
    calls != [] ==>
      && ValidCall(keys, n, calls[0])
      && ValidRun(Union(keys, n, calls[0]).0, n, calls[1..])
  }

  ghost function Run(keys: seq<Key>, n: nat, calls: seq<Call>): (r: (seq<Key>, seq<Label>))
    requires n < |keys|
    ensures |r.1| == |calls| && keys <= r.0
    decreases |calls|
  {
    if calls == [] then (keys, [])
    else
      var (keys', l) := Union(keys, n, calls[0]);
      var (keys'', ls) := Run(keys', n, calls[1..]);
      (keys'', [l] + ls)
  }

  lemma {:induction false} RunWf(keys: seq<Key>, n: nat, calls: seq<Call>)
    requires WfTable(keys, n) && Distinct(keys, n) && ValidRun(keys, n, calls)
    ensures
      var (keys', ls) := Run(keys, n, calls);
      && WfTable(keys', n) && Distinct(keys', n)
      && forall i | 0 <= i < |calls| ::
           && ls[i] < |keys'|
           && (Trivial(calls[i]) <==> ls[i] == 0)
           && (!Trivial(calls[i]) ==> ls[i] > n && keys'[ls[i]] == UnionKey(calls[i]))
    decreases |calls|
  {
    if calls != [] {
      UnionWf(keys, n, calls[0]);
      RunWf(Union(keys, n, calls[0]).0, n, calls[1..]);
    }
  }

  /** A call without the concrete values that a tainted operand makes irrelevant. */
  function Relevant(c: Call): Call {
    c.(op1 := if c.l1 > 0 then 0 else c.op1, op2 := if c.l2 > 0 then 0 else c.op2)
  }

  /** Calls ask for the same thing: equal in what is relevant, up to the order of commutative operands,
      or both without a tainted operand. */
  predicate SameRequest(c: Call, d: Call) {
    if Trivial(c) || Trivial(d) then Trivial(c) && Trivial(d)
    else Relevant(c) == Relevant(d) || (IsCommutative(c.op) && Relevant(c) == Relevant(Swapped(d)))
  }

  /** Ordering the operands by label picks one of the equal calls. */
  lemma KeyDecidesRequest(c: Call, d: Call)
    requires !Trivial(c) && !Trivial(d)
    ensures UnionKey(c) == UnionKey(d) <==> SameRequest(c, d)
  {}

  /** A request and the one with its operands exchanged get one label for these operators, and otherwise only if
      the operands are the same. */
  lemma SwapsThatMatter(c: Call)
    requires !Trivial(c)
    ensures UnionKey(c) == UnionKey(c.(l1 := c.l2, l2 := c.l1, op1 := c.op2, op2 := c.op1)) <==>
              || c.op == Not || c.op == And || c.op == Or || c.op == Xor || c.op == Add || c.op == Mul || c.op == FMemcmp
              || c.l1 == c.l2
  {}

  /** Hash-consing is canonical over a whole run: two calls get one label exactly when they ask for
      the same thing. */
  lemma RunCanonical(keys: seq<Key>, n: nat, calls: seq<Call>, i: nat, j: nat)
    requires WfTable(keys, n) && Distinct(keys, n) && ValidRun(keys, n, calls)
    requires i < |calls| && j < |calls|
    ensures
      var ls := Run(keys, n, calls).1;
      ls[i] == ls[j] <==> SameRequest(calls[i], calls[j])
  {
    RunWf(keys, n, calls);
    var (keys', ls) := Run(keys, n, calls);
    if !Trivial(calls[i]) && !Trivial(calls[j]) {
      KeyDecidesRequest(calls[i], calls[j]);
      assert UnionKey(calls[i]) == keys'[ls[i]] && UnionKey(calls[j]) == keys'[ls[j]];
    }
  }

  /** No run changes the meaning of a label that existed before it. */
  lemma RunKeepsMeaning(keys: seq<Key>, n: nat, calls: seq<Call>, lbl: Label, f: File)
    requires WfTable(keys, n) && Distinct(keys, n) && ValidRun(keys, n, calls) && lbl < |keys|
    ensures WfTable(Run(keys, n, calls).0, n)
    ensures Eval(Run(keys, n, calls).0, n, lbl, f) == Eval(keys, n, lbl, f)
  {
    RunWf(keys, n, calls);
    BuildStable(keys, Run(keys, n, calls).0, n, lbl);
  }

  function SwapKey(k: Key): Key {
    k.(l1 := k.l2, l2 := k.l1, op1 := k.op2, op2 := k.op1)
  }

  lemma {:induction false} ApplyCommutes(op: BinOp, w: nat, x: nat, y: nat)
    requires op in {BvAnd, BvOr, BvXor, BvAdd, BvMul}
    ensures Apply(op, w, x, y) == Apply(op, w, y, x)
  {
    BitOpsCommute(x, y);
  }

  /** Operands of one width, as values. */
  lemma {:induction false} BinOperands(op: BinOp, a: Expr, b: Expr, f: File)
    requires SortOf(Bin(op, a, b)).Some?
    ensures SortOf(Bin(op, b, a)).Some? && Width(Denote(a, f)) == Width(Denote(b, f))
  {
    DenoteSort(a, f);
    DenoteSort(b, f);
  }

  lemma {:induction false} BinDenotes(op: BinOp, a: Expr, b: Expr, f: File)
    ensures
      var v, u := Denote(a, f), Denote(b, f);
      Denote(Bin(op, a, b), f) == BV(Width(v), Apply(op, Width(v), Bits(v), Bits(u)))
  {}

  lemma {:induction false} BinCommutes(op: BinOp, a: Expr, b: Expr, f: File)
    requires op in {BvAnd, BvOr, BvXor, BvAdd, BvMul} && SortOf(Bin(op, a, b)).Some?
    ensures SortOf(Bin(op, b, a)).Some? && Denote(Bin(op, a, b), f) == Denote(Bin(op, b, a), f)
  {
    BinOperands(op, a, b, f);
    BinDenotes(op, a, b, f);
    BinDenotes(op, b, a, f);
    ApplyCommutes(op, Width(Denote(a, f)), Bits(Denote(a, f)), Bits(Denote(b, f)));
  }

  lemma {:induction false} BoolCommutes(a: Expr, b: Expr, f: File)
    ensures SortOf(LAnd(a, b)) == SortOf(LAnd(b, a)) && Denote(LAnd(a, b), f) == Denote(LAnd(b, a), f)
    ensures SortOf(LOr(a, b)) == SortOf(LOr(b, a)) && Denote(LOr(a, b), f) == Denote(LOr(b, a), f)
    ensures SortOf(LXor(a, b)) == SortOf(LXor(b, a)) && Denote(LXor(a, b), f) == Denote(LXor(b, a), f)
  {}

  /** Both orders of the operands are accepted and have the same value. */
  ghost predicate Commutes(op: Op, size: nat, a: Expr, b: Expr, f: File) {
    && BinaryExpr(op, size, a, b).Some? && BinaryExpr(op, size, b, a).Some?
    && Denote(BinaryExpr(op, size, a, b).value, f) == Denote(BinaryExpr(op, size, b, a).value, f)
  }

  lemma {:induction false} AndOrCommutes(op: Op, size: nat, a: Expr, b: Expr, f: File)
    requires (op.And? || op.Or?) && BinaryExpr(op, size, a, b).Some?
    ensures Commutes(op, size, a, b, f)
  {
    if size == 1 { BoolCommutes(a, b, f); } else { BinCommutes(if op.And? then BvAnd else BvOr, a, b, f); }
  }

  lemma {:induction false} XorCommutes(size: nat, a: Expr, b: Expr, f: File)
    requires BinaryExpr(Xor, size, a, b).Some?
    ensures Commutes(Xor, size, a, b, f)
  {
    if SortOf(a) == Some(BoolSort) { BoolCommutes(a, b, f); } else { BinCommutes(BvXor, a, b, f); }
  }

  lemma {:induction false} BinaryCommutes(op: Op, size: nat, a: Expr, b: Expr, f: File)
    requires op in {And, Or, Xor, Add, Mul}
    requires BinaryExpr(op, size, a, b).Some?
    ensures Commutes(op, size, a, b, f)
  {
    match op
    case And => AndOrCommutes(op, size, a, b, f);
    case Or => AndOrCommutes(op, size, a, b, f);
    case Xor => XorCommutes(size, a, b, f);
    case Add => BinCommutes(BvAdd, a, b, f);
    case Mul => BinCommutes(BvMul, a, b, f);
  }

  /** Swapping the operands of a node keeps its value, and keeps it defined, for every operator the
      program treats as commutative except Not, which reads its second operand only. */
  lemma {:induction false} SwapKeepsMeaning(k: Key, off1: nat, off2: nat, size1: nat, size2: nat,
                         e1: Option<Expr>, e2: Option<Expr>, f: File)
    requires IsCommutative(k.op) && !k.op.Not?
    requires k.op.FMemcmp? ==> k.l1 > 0 && k.l2 > 0
    ensures
      var x := Node(k, off1, size1, size2, e1, e2);
      var y := Node(SwapKey(k), off2, size2, size1, e2, e1);
      && (x.Some? <==> y.Some?)
      && (x.Some? ==> Denote(x.value, f) == Denote(y.value, f))
  {
    if !k.op.FMemcmp? && U8(k.size) != 0 && !(k.l1 > 0 && e1.None?) && !(k.l2 > 0 && e2.None?) {
      var a := if k.l1 > 0 then e1.value else ConstOperand(k.size, U8(k.size), k.op1);
      var b := if k.l2 > 0 then e2.value else ConstOperand(k.size, U8(k.size), k.op2);
      if BinaryExpr(k.op, k.size, a, b).Some? { BinaryCommutes(k.op, k.size, a, b, f); }
      if BinaryExpr(k.op, k.size, b, a).Some? { BinaryCommutes(k.op, k.size, b, a, f); }
    }
  }

  /** For Not the swap is what makes the label meaningful: the tainted operand always ends up second,
      and a Not whose second operand is concrete has no value. */
  lemma NotReadsTaintedOperand(c: Call, off1: nat, size1: nat, size2: nat, e1: Option<Expr>, e2: Option<Expr>)
    requires c.op.Not? && (c.l1 == 0 || c.l2 == 0)
    ensures UnionKey(c).l2 == c.l1 + c.l2 && UnionKey(c).l1 == 0
    ensures Node(UnionKey(c), off1, size1, size2, e1, e2).Some? ==>
              && UnionKey(c).l2 > 0 && e2.Some?
              && Node(UnionKey(c), off1, size1, size2, e1, e2).value == LNot(e2.value)
  {}
}
