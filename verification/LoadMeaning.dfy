/** What loads and stores of labels mean: a load denotes the little-endian concatenation of its bytes
    on whichever path it takes, and a load undoes a store. */
module LoadMeaning {
  import opened Arith
  import opened Options
  import opened Expressions
  import opened Labels
  import opened LoadStore

  /** No created label in the range has a concrete first operand, the case the shape test confuses
      with an input byte. */
  predicate Clean(keys: seq<Key>, n: nat, ls: seq<Label>)
    requires InTable(keys, ls)
  {
    forall i | 0 <= i < |ls| :: ls[i] > n ==> keys[ls[i]].l1 > 0
  }

  /** A range of shadow bytes. */
  ghost predicate Range(keys: seq<Key>, n: nat, ls: seq<Label>, bytes: seq<Byte>) {
    && WfTable(keys, n) && Distinct(keys, n)
    && 1 <= |ls| == |bytes| < 0x2000
    && InTable(keys, ls) && ByteWide(keys, ls)
  }

  /** A range on which the shape test is not confused. */
  ghost predicate Shadow(keys: seq<Key>, n: nat, ls: seq<Label>, bytes: seq<Byte>) {
    Range(keys, n, ls, bytes) && (ShapeTest(keys, ls) ==> Clean(keys, n, ls))
  }

  /** What the shape test takes for input bytes lies in the file. */
  predicate InFile(keys: seq<Key>, n: nat, ls: seq<Label>)
    requires |ls| >= 1 && InTable(keys, ls)
  {
    AllConstant(ls) || |ls| == 1 || (ShapeTest(keys, ls) ==> OffsetOf(ls[0]) + |ls| <= n)
  }

  ghost predicate Extends(keys: seq<Key>, keys': seq<Key>, n: nat, l: Label) {
    keys <= keys' && WfTable(keys', n) && Distinct(keys', n) && l < |keys'|
  }

  // ---------------------------------------------------------------- tables stay well formed

  /** Only input labels, and the constant, have the input operator. */
  lemma InputLabel(keys: seq<Key>, n: nat, l: Label)
    requires WfTable(keys, n) && l < |keys| && keys[l].op.Input?
    ensures l <= n
  {
    assert !WfNode(keys[l], n, l);
  }

  /** In a clean range the shape test only accepts consecutive input bytes after the first. */
  lemma ShapeIsInput(keys: seq<Key>, n: nat, ls: seq<Label>, i: nat)
    requires WfTable(keys, n) && |ls| >= 1 && InTable(keys, ls) && Clean(keys, n, ls) && ShapeTest(keys, ls)
    requires 1 <= i < |ls|
    ensures ls[0] <= n && ls[i] == OffsetOf(ls[0]) + i + 1 <= n
  {
    assert keys[ls[i]].op1 == keys[ls[0]].op1 + i;
    assert ls[i] > n ==> WfNode(keys[ls[i]], n, ls[i]);
    assert ls[0] > n ==> WfNode(keys[ls[0]], n, ls[0]);
  }

  lemma SlowStepWf(keys: seq<Key>, n: nat, lbl: Label, i: nat, ls: seq<Label>, bytes: seq<Byte>)
    requires WfTable(keys, n) && Distinct(keys, n) && lbl < |keys| && |bytes| == |ls| && i < |ls|
    requires InTable(keys, ls) && ByteWide(keys, ls)
    ensures var (keys', l, _) := SlowStep(keys, n, lbl, i, ls, bytes); Extends(keys, keys', n, l)
  {
    var next := ls[i];
    var size := keys[next].size;
    if next == CONST_LABEL {
      UnionWf(keys, n, Call(lbl, 0, Concat, U16((i + 1) * 8), 0, SignExtendByte(bytes[i])));
    } else if size <= (|ls| - i) * 8 {
      UnionWf(keys, n, Call(lbl, next, Concat, U16((i + size / 8) * 8), 0, 0));
    } else {
      var c := Call(next, CONST_LABEL, Trunc, U16((|ls| - i) * 8), 0, 0);
      UnionWf(keys, n, c);
      var (keys', trunc) := Union(keys, n, c);
      UnionWf(keys', n, Call(lbl, trunc, Concat, U16(|ls| * 8), 0, 0));
    }
  }

  lemma {:induction false} SlowWf(keys: seq<Key>, n: nat, lbl: Label, i: nat, ls: seq<Label>, bytes: seq<Byte>)
    requires WfTable(keys, n) && Distinct(keys, n) && lbl < |keys| && |bytes| == |ls|
    requires InTable(keys, ls) && ByteWide(keys, ls)
    ensures var (keys', r) := Slow(keys, n, lbl, i, ls, bytes); Extends(keys, keys', n, r)
    decreases |ls| - i
  {
    if i < |ls| {
      SlowStepWf(keys, n, lbl, i, ls, bytes);
      SlowUnfold(keys, n, lbl, i, ls, bytes);
      var (keys', l, i') := SlowStep(keys, n, lbl, i, ls, bytes);
      SlowWf(keys', n, l, i', ls, bytes);
    }
  }

  /** A Load past the end of the file is no label of a well-formed table. */
  lemma PastEndLoad(keys: seq<Key>, n: nat, first: Label, count: nat)
    requires WfTable(keys, n) && first <= n && 1 < count < 0x2000 && n < OffsetOf(first) + count
    ensures !WfTable(Union(keys, n, Call(first, count, Load, U16(count * 8), 0, 0)).0, n)
  {
    var key := UnionKey(Call(first, count, Load, U16(count * 8), 0, 0));
    forall i | n < i < |keys| ensures keys[i] != key {
      assert WfNode(keys[i], n, i) && !WfNode(key, n, i);
    }
    assert !Present(keys, n, key);
    assert (keys + [key])[|keys|] == key && !WfNode(key, n, |keys|);
  }

  /** A load keeps the table well formed and hash-consed and only appends to it, exactly when it does
      not take a range for input bytes that lie past the end of the file. */
  lemma LoadWf(keys: seq<Key>, n: nat, ls: seq<Label>, bytes: seq<Byte>)
    requires Range(keys, n, ls, bytes)
    ensures var (keys', r) := UnionLoad(keys, n, ls, bytes); Extends(keys, keys', n, r) <==> InFile(keys, n, ls)
  {
    if AllConstant(ls) {
    } else if ShapeTest(keys, ls) {
      InputLabel(keys, n, ls[0]);
      if |ls| > 1 {
        if OffsetOf(ls[0]) + |ls| <= n {
          UnionWf(keys, n, Call(ls[0], |ls|, Load, U16(|ls| * 8), 0, 0));
        } else {
          PastEndLoad(keys, n, ls[0], |ls|);
        }
      }
    } else if ExtractTest(keys, ls) {
    } else {
      SlowWf(keys, n, ls[0], keys[ls[0]].size / 8, ls, bytes);
    }
  }

  lemma ShadowInFile(keys: seq<Key>, n: nat, ls: seq<Label>, bytes: seq<Byte>)
    requires Shadow(keys, n, ls, bytes)
    ensures InFile(keys, n, ls)
  {
    if |ls| > 1 && ShapeTest(keys, ls) { ShapeIsInput(keys, n, ls, |ls| - 1); }
  }

  lemma {:induction false} ExtractsWf(keys: seq<Key>, n: nat, l: Label, i: nat, count: nat)
    requires WfTable(keys, n) && Distinct(keys, n) && 0 < l < |keys| && i <= count
    ensures
      var (keys', es) := Extracts(keys, n, l, i, count);
      && WfTable(keys', n) && Distinct(keys', n) && InTable(keys', es)
      && (forall j | 0 <= j < |es| :: es[j] > n && keys'[es[j]] == Key(l, 0, Extract, 8, 0, (i + j) * 8))
    decreases count - i
  {
    if i < count {
      var c := Call(l, CONST_LABEL, Extract, 8, 0, i * 8);
      UnionWf(keys, n, c);
      var (keys1, e) := Union(keys, n, c);
      ExtractsWf(keys1, n, l, i + 1, count);
      var (keys', es) := Extracts(keys1, n, l, i + 1, count);
      forall j | 0 <= j < 1 + |es|
        ensures ([e] + es)[j] > n && ([e] + es)[j] < |keys'|
        ensures keys'[([e] + es)[j]] == Key(l, 0, Extract, 8, 0, (i + j) * 8)
      {
        if j > 0 { assert ([e] + es)[j] == es[j - 1]; }
      }
    }
  }

  /** A store keeps the table well formed. It writes labels that exist, exactly when the run of labels
      it writes for a Load, which may be longer than what was loaded, stays within the table. */
  lemma StoreWf(keys: seq<Key>, n: nat, l: Label, count: nat)
    requires WfTable(keys, n) && Distinct(keys, n) && l < |keys|
    ensures
      var (keys', ls) := UnionStore(keys, n, l, count);
      && WfTable(keys', n) && Distinct(keys', n)
      && (InTable(keys', ls) <==> (keys[l].op.Load? && count > 0 ==> keys[l].l1 + count <= |keys|))
  {
    if l != CONST_LABEL && !(count == 1 && keys[l].size == 8) {
      if keys[l].op.Load? {
        if count > 0 {
          var ls := UnionStore(keys, n, l, count).1;
          assert ls[count - 1] == keys[l].l1 + (count - 1);
        }
      } else {
        ExtractsWf(keys, n, l, 0, count);
      }
    } else if keys[l].op.Load? {
      assert !(l <= n) ==> WfNode(keys[l], n, l);
    }
  }

  // ---------------------------------------------------------------- the concatenation path

  lemma EvalStable(keys: seq<Key>, more: seq<Key>, n: nat, l: Label, f: File)
    requires WfTable(keys, n) && WfTable(more, n) && keys <= more && l < |keys|
    ensures Eval(more, n, l, f) == Eval(keys, n, l, f)
  {
    BuildStable(keys, more, n, l);
  }

  /** A value is a bit-vector exactly when its expression is one. */
  lemma EvalSort(keys: seq<Key>, n: nat, l: Label, f: File)
    requires WfTable(keys, n) && l < |keys| && Build(keys, n, l).Some?
    ensures SortOf(Build(keys, n, l).value).Some?
    ensures HasSort(Denote(Build(keys, n, l).value, f), SortOf(Build(keys, n, l).value).value)
  {
    BuildSorted(keys, n, l);
    DenoteSort(Build(keys, n, l).value, f);
  }

  lemma ConcreteByte(b: Byte, f: File)
    ensures Denote(BVConst(8, SignExtendByte(b)), f) == BV(8, b)
  {
    assert Pow2(8) == 256;
  }

  lemma {:induction false} JoinedExpr(a: Expr, b: Expr, f: File)
    requires SortOf(a).Some? && SortOf(b).Some?
    ensures
      var e := Checked(Cat(b, a));
      (if e.None? then None else Some(Denote(e.value, f))) == JoinOpt(Some(Denote(b, f)), Some(Denote(a, f)))
  {
    DenoteSort(a, f);
    DenoteSort(b, f);
    CatSort(a, b);
    CatValue(a, b, f);
  }

  lemma {:induction false} CatSort(a: Expr, b: Expr)
    requires SortOf(a).Some? && SortOf(b).Some?
    ensures SortOf(Cat(b, a)).Some? <==> SortOf(a).value.BVSort? && SortOf(b).value.BVSort?
  {}

  lemma {:induction false} CatValue(a: Expr, b: Expr, f: File)
    ensures Denote(Cat(b, a), f) == JoinBits(Denote(b, f), Denote(a, f))
  {}

  function ByteCall(lbl: Label, next: Label, i: nat, b: Byte): Call {
    Call(lbl, next, Concat, (i + 1) * 8, 0, if next == 0 then SignExtendByte(b) else 0)
  }

  /** Concatenating one more byte onto a label of i bytes. */
  lemma ConcatEval(keys: seq<Key>, n: nat, lbl: Label, next: Label, i: nat, b: Byte, f: File)
    requires WfTable(keys, n) && Distinct(keys, n) && 0 < lbl < |keys| && next < |keys|
    requires keys[lbl].size == 8 * i && 1 <= i < 0x1FFF && (i + 1) % 32 != 0
    ensures
      var (keys', l) := Union(keys, n, ByteCall(lbl, next, i, b));
      && Extends(keys, keys', n, l) && l > n && keys'[l].size == 8 * (i + 1)
      && Eval(keys', n, l, f) == JoinOpt(ByteVal(keys, n, next, b, f), Eval(keys, n, lbl, f))
  {
    var c := ByteCall(lbl, next, i, b);
    UnionWf(keys, n, c);
    var (keys', l) := Union(keys, n, c);
    BuildStable(keys, keys', n, lbl);
    BuildStable(keys, keys', n, next);
    ConcatNode(keys', n, l, lbl, next, i, b, f);
  }

  lemma ConcatNode(keys: seq<Key>, n: nat, l: Label, lbl: Label, next: Label, i: nat, b: Byte, f: File)
    requires WfTable(keys, n) && n < l < |keys| && 0 < lbl < |keys| && next < |keys|
    requires keys[l] == UnionKey(ByteCall(lbl, next, i, b))
    requires keys[lbl].size == 8 * i && 1 <= i < 0x1FFF && (i + 1) % 32 != 0
    ensures Eval(keys, n, l, f) == JoinOpt(ByteVal(keys, n, next, b, f), Eval(keys, n, lbl, f))
  {
    var key := keys[l];
    BuildUnfold(keys, n, l);
    var e1, e2 := Build(keys, n, lbl), Build(keys, n, next);
    var w1, w2 := ConstWidth1(key, keys[next].size), ConstWidth2(key, keys[lbl].size, keys[next].size);
    assert w1 != 0 && (w2 == if next == 0 then 8 else w1);
    if e1.Some? && (next == 0 || e2.Some?) {
      EvalSort(keys, n, lbl, f);
      var b2 := if next > 0 then e2.value else ConstOperand(key.size, w2, key.op2);
      if next > 0 { EvalSort(keys, n, next, f); } else { ConcreteByte(b, f); }
      JoinedExpr(e1.value, b2, f);
      assert Build(keys, n, l) == BinaryExpr(Concat, key.size, e1.value, b2);
    }
  }

  /** A grown table whose label has this value on input f. */
  ghost predicate Denotes(keys: seq<Key>, n: nat, r: (seq<Key>, Label), v: Option<Value>, f: File) {
    Extends(keys, r.0, n, r.1) && Eval(r.0, n, r.1, f) == v
  }

  /** All shadow labels are exactly one byte wide. */
  predicate Bytes8(keys: seq<Key>, ls: seq<Label>)
    requires InTable(keys, ls)
  {
    forall i | 0 <= i < |ls| :: keys[ls[i]].size == 8
  }

  /** With one-byte labels every turn consumes one byte. */
  lemma SlowByte(keys: seq<Key>, n: nat, lbl: Label, i: nat, ls: seq<Label>, bytes: seq<Byte>,
                 keys': seq<Key>, l: Label)
    requires n < |keys| && |bytes| == |ls| && i < |ls| < 0x2000 && InTable(keys, ls) && Bytes8(keys, ls)
    requires (keys', l) == Union(keys, n, ByteCall(lbl, ls[i], i, bytes[i]))
    ensures keys <= keys'
    ensures Slow(keys, n, lbl, i, ls, bytes) == Slow(keys', n, l, i + 1, ls, bytes)
  {
    assert U16((i + 1) * 8) == (i + 1) * 8;
    assert SlowStep(keys, n, lbl, i, ls, bytes) == (keys', l, i + 1);
    SlowUnfold(keys, n, lbl, i, ls, bytes);
  }

  /** No prefix longer than i bytes, up to count bytes, is a multiple of 256 bits, the widths that are
      zero in eight bits. */
  predicate NoWrap(i: nat, count: nat) {
    forall j | i < j <= count :: j % 32 != 0
  }

  /** After i bytes: a grown table whose label, i bytes wide, has the value of the bytes from m on joined
      above base. */
  ghost predicate SlowInv(keys0: seq<Key>, n: nat, r: (seq<Key>, Label), i: nat, ls: seq<Label>, bytes: seq<Byte>,
                          m: nat, base: Option<Value>, f: File) {
    && WfTable(keys0, n) && 1 <= i && m <= i <= |ls| == |bytes| < 0x2000 && NoWrap(i, |ls|)
    && InTable(keys0, ls) && Bytes8(keys0, ls)
    && keys0 <= r.0 && WfTable(r.0, n) && Distinct(r.0, n)
    && 0 < r.1 < |r.0| && r.0[r.1].size == 8 * i
    && Eval(r.0, n, r.1, f) == Joined(keys0, n, ls, bytes, m, base, i, f)
  }

  lemma SlowInvStep(keys0: seq<Key>, n: nat, r: (seq<Key>, Label), i: nat, ls: seq<Label>, bytes: seq<Byte>,
                    m: nat, base: Option<Value>, f: File)
    requires SlowInv(keys0, n, r, i, ls, bytes, m, base, f) && i < |ls|
    ensures SlowInv(keys0, n, Union(r.0, n, ByteCall(r.1, ls[i], i, bytes[i])), i + 1, ls, bytes, m, base, f)
  {
    var (keys, lbl) := r;
    assert (i + 1) % 32 != 0;
    ConcatEval(keys, n, lbl, ls[i], i, bytes[i], f);
    EvalStable(keys0, keys, n, ls[i], f);
    JoinedUnfold(keys0, n, ls, bytes, m, base, i + 1, f);
  }

  lemma {:induction false} SlowMeaning(keys0: seq<Key>, n: nat, r: (seq<Key>, Label), i: nat, ls: seq<Label>,
                                       bytes: seq<Byte>, m: nat, base: Option<Value>, f: File)
    returns (out: (seq<Key>, Label))
    requires SlowInv(keys0, n, r, i, ls, bytes, m, base, f)
    ensures out == Slow(r.0, n, r.1, i, ls, bytes)
    ensures SlowInv(keys0, n, out, |ls|, ls, bytes, m, base, f)
    decreases |ls| - i
  {
    if i < |ls| {
      var r' := Union(r.0, n, ByteCall(r.1, ls[i], i, bytes[i]));
      SlowInvStep(keys0, n, r, i, ls, bytes, m, base, f);
      SlowByte(r.0, n, r.1, i, ls, bytes, r'.0, r'.1);
      out := SlowMeaning(keys0, n, r', i + 1, ls, bytes, m, base, f);
    } else {
      out := r;
    }
  }

  // ---------------------------------------------------------------- cutting and joining bits

  function CutOpt(hi: nat, lo: nat, v: Option<Value>): Option<Value>
    requires lo <= hi
  {
    if v.Some? && v.value.BV? then Some(CutBits(hi, lo, v.value)) else None
  }

  /** Two adjacent cuts join to the cut that spans them. */
  lemma JoinCuts(hi: nat, mid: nat, lo: nat, v: Value)
    requires lo < mid <= hi
    ensures JoinBits(CutBits(hi, mid, v), CutBits(mid - 1, lo, v)) == CutBits(hi, lo, v)
  {
    CutArith(Bits(v), lo, mid - lo, hi - mid + 1);
  }

  lemma CutArith(x: nat, lo: nat, m: nat, h: nat)
    ensures Arith.Shl(Shr(x, lo + m) % Pow2(h), m) + Shr(x, lo) % Pow2(m) == Shr(x, lo) % Pow2(m + h)
  {
    var y := Shr(x, lo);
    Pow2Add(lo, m);
    DivDiv(x, Pow2(lo), Pow2(m));
    Pow2Add(m, h);
    DivDiv(y, Pow2(m), Pow2(h));
  }

  lemma CutAll(w: nat, x: nat)
    requires 1 <= w && x < Pow2(w)
    ensures CutBits(w - 1, 0, BV(w, x)) == BV(w, x)
  {
    ModSmall(x, Pow2(w));
    assert Shr(x, 0) == x;
  }

  /** Consecutive bytes that are slices of one value join to the slice they cover. */
  lemma {:induction false} JoinSlices(keys: seq<Key>, n: nat, ls: seq<Label>, bytes: seq<Byte>, count: nat,
                                      from: nat, v: Option<Value>, f: File)
    requires WfTable(keys, n) && 1 <= count <= |ls| == |bytes| && InTable(keys, ls)
    requires forall i | 0 <= i < count ::
               ByteVal(keys, n, ls[i], bytes[i], f) == CutOpt(8 * (from + i) + 7, 8 * (from + i), v)
    ensures LoadedValue(keys, n, ls, bytes, count, f) == CutOpt(8 * (from + count) - 1, 8 * from, v)
    decreases count
  {
    if count > 1 {
      JoinSlices(keys, n, ls, bytes, count - 1, from, v, f);
      LoadedUnfold(keys, n, ls, bytes, count, f);
      if v.Some? && v.value.BV? {
        JoinCuts(8 * (from + count) - 1, 8 * (from + count - 1), 8 * from, v.value);
      }
    }
  }

  // ---------------------------------------------------------------- the shape path

  lemma InputEval(keys: seq<Key>, n: nat, l: Label, f: File)
    requires WfTable(keys, n) && 1 <= l <= n
    ensures Eval(keys, n, l, f) == Some(BV(8, ByteAt(f, l - 1)))
  {
    BuildUnfold(keys, n, l);
  }

  /** The first count labels are the input labels for offsets off, off + 1, ... */
  predicate InputRun(ls: seq<Label>, off: nat, count: nat, n: nat)
    requires count <= |ls|
  {
    off + count <= n && forall i | 0 <= i < count :: ls[i] == off + i + 1
  }

  /** Consecutive input labels load to the consecutive input bytes. */
  lemma {:induction false} ShapeValue(keys: seq<Key>, n: nat, ls: seq<Label>, bytes: seq<Byte>, off: nat,
                                      count: nat, f: File)
    requires WfTable(keys, n) && 1 <= count <= |ls| == |bytes| && InTable(keys, ls)
    requires InputRun(ls, off, count, n)
    ensures LoadedValue(keys, n, ls, bytes, count, f) == Some(Denote(LoadExpr(off, count), f))
    ensures Denote(LoadExpr(off, count), f).BV?
    decreases count
  {
    InputEval(keys, n, ls[count - 1], f);
    if count > 1 {
      ShapeValue(keys, n, ls, bytes, off, count - 1, f);
      LoadedUnfold(keys, n, ls, bytes, count, f);
    }
  }

  lemma LoadEval(keys: seq<Key>, n: nat, l: Label, f: File)
    requires WfTable(keys, n) && n < l < |keys| && keys[l].op.Load?
    ensures Eval(keys, n, l, f) == Some(Denote(LoadExpr(OffsetOf(keys[l].l1), keys[l].l2), f))
  {
    BuildUnfold(keys, n, l);
  }

  // ---------------------------------------------------------------- the extract path

  /** The label's expression, if it can be built, is a bit-vector of the recorded width. */
  ghost predicate Sized(keys: seq<Key>, n: nat, l: Label)
    requires WfTable(keys, n) && l < |keys|
  {
    var e := Build(keys, n, l);
    e.Some? ==> SortOf(e.value) == Some(BVSort(keys[l].size))
  }

  lemma {:induction false} ExtractRunFull(keys: seq<Key>, ls: seq<Label>, parent: Label, i: nat)
    requires i <= |ls| && InTable(keys, ls) && Bytes8(keys, ls)
    requires ExtractRun(keys, ls, parent, i, 8 * i) == 8 * |ls|
    ensures forall j | i <= j < |ls| ::
              keys[ls[j]].op.Extract? && keys[ls[j]].op2 == 8 * j && keys[ls[j]].l1 == parent
    decreases |ls| - i
  {
    if i < |ls| { ExtractRunFull(keys, ls, parent, i + 1); }
  }

  /** The label's expression, if it is a bit-vector, has at least w bits. */
  ghost predicate Covers(keys: seq<Key>, n: nat, l: Label, w: nat)
    requires WfTable(keys, n) && l < |keys|
  {
    var e := Build(keys, n, l);
    e.Some? && WidthOf(SortOf(e.value)).Some? ==> w <= WidthOf(SortOf(e.value)).value
  }

  lemma ExtractBuild(keys: seq<Key>, n: nat, l: Label)
    requires WfTable(keys, n) && n < l < |keys| && keys[l].op.Extract? && keys[l].size == 8
    ensures
      var e := Build(keys, n, keys[l].l1);
      Build(keys, n, l) == if e.Some? then SliceOf(8, keys[l].op2, e.value) else None
  {
    BuildUnfold(keys, n, l);
  }

  /** A one-byte extract denotes its byte of the parent exactly when the parent's expression has it. */
  lemma ExtractEval(keys: seq<Key>, n: nat, l: Label, j: nat, f: File)
    requires WfTable(keys, n) && n < l < |keys| && keys[l].op.Extract? && keys[l].size == 8
    requires keys[l].op2 == 8 * j < 0x1_0000_0000
    ensures Eval(keys, n, l, f) == CutOpt(8 * j + 7, 8 * j, Eval(keys, n, keys[l].l1, f))
            <==> Covers(keys, n, keys[l].l1, 8 * j + 8)
  {
    ExtractBuild(keys, n, l);
    var parent := keys[l].l1;
    var e := Build(keys, n, parent);
    if e.Some? {
      EvalSort(keys, n, parent, f);
      ByteSlice(e.value, j);
      SliceValue(e.value, j, f);
    }
  }

  lemma {:induction false} SliceValue(e: Expr, j: nat, f: File)
    ensures Denote(Slice(8 * j + 7, 8 * j, e), f) == CutBits(8 * j + 7, 8 * j, Denote(e, f))
  {}

  lemma {:induction false} ByteSlice(e: Expr, j: nat)
    requires SortOf(e).Some? && 8 * j < 0x1_0000_0000
    ensures
      var w := WidthOf(SortOf(e));
      && (w.Some? && 8 * j + 8 <= w.value ==> SliceOf(8, 8 * j, e) == Some(Slice(8 * j + 7, 8 * j, e)))
      && (w.None? || w.value < 8 * j + 8 ==> SliceOf(8, 8 * j, e).None?)
  {
    var s := Slice(8 * j + 7, 8 * j, e);
    assert U32(8 * j + 8 - 1) == 8 * j + 7 && U32(8 * j) == 8 * j;
  }
}
