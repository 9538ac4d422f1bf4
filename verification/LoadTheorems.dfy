/** The main results about loading and storing labels. */
module LoadTheorems {
  import opened Arith
  import opened Options
  import opened Expressions
  import opened Labels
  import opened LoadStore
  import opened LoadMeaning

  // ---------------------------------------------------------------- load preserves meaning

  /** None of the fast paths applies. */
  predicate TakesSlowPath(keys: seq<Key>, ls: seq<Label>)
    requires |ls| >= 1 && InTable(keys, ls)
  {
    !AllConstant(ls) && !ShapeTest(keys, ls) && !ExtractTest(keys, ls)
  }

  lemma ShapeLabels(keys: seq<Key>, n: nat, ls: seq<Label>)
    requires WfTable(keys, n) && |ls| > 1 && InTable(keys, ls) && Clean(keys, n, ls) && ShapeTest(keys, ls)
    ensures ls[0] <= n
    ensures InputRun(ls[0 := OffsetOf(ls[0]) + 1], OffsetOf(ls[0]), |ls|, n)
  {
    forall i | 1 <= i < |ls| ensures ls[0] <= n && ls[i] == OffsetOf(ls[0]) + i + 1 <= n {
      ShapeIsInput(keys, n, ls, i);
    }
    assert ls[|ls| - 1] <= n;
  }

  lemma ShapeMeans(keys: seq<Key>, n: nat, ls: seq<Label>, bytes: seq<Byte>, f: File)
    requires Shadow(keys, n, ls, bytes) && ls[0] != 0 && ShapeTest(keys, ls)
    ensures Denotes(keys, n, UnionLoad(keys, n, ls, bytes), LoadedValue(keys, n, ls, bytes, |ls|, f), f)
  {
    ShadowInFile(keys, n, ls, bytes);
    LoadWf(keys, n, ls, bytes);
    if |ls| > 1 {
      ShapeLabels(keys, n, ls);
      assert ls[0 := OffsetOf(ls[0]) + 1] == ls;
      ShapeValue(keys, n, ls, bytes, OffsetOf(ls[0]), |ls|, f);
      var c := Call(ls[0], |ls|, Load, U16(|ls| * 8), 0, 0);
      UnionWf(keys, n, c);
      var (keys', r) := Union(keys, n, c);
      LoadEval(keys', n, r, f);
    }
  }

  lemma ExtractMeans(keys: seq<Key>, n: nat, ls: seq<Label>, bytes: seq<Byte>, f: File)
    requires Range(keys, n, ls, bytes) && Bytes8(keys, ls) && ExtractTest(keys, ls)
    requires Sized(keys, n, keys[ls[0]].l1)
    ensures LoadedValue(keys, n, ls, bytes, |ls|, f) == Eval(keys, n, keys[ls[0]].l1, f)
  {
    var parent := keys[ls[0]].l1;
    ExtractRunFull(keys, ls, parent, 0);
    var v := Eval(keys, n, parent, f);
    forall i | 0 <= i < |ls|
      ensures ByteVal(keys, n, ls[i], bytes[i], f) == CutOpt(8 * i + 7, 8 * i, v)
    {
      assert keys[ls[i]].op.Extract? && keys[ls[i]].op2 == 8 * i;
      assert ls[i] > n;
      ExtractEval(keys, n, ls[i], i, f);
    }
    JoinSlices(keys, n, ls, bytes, |ls|, 0, v, f);
    if Build(keys, n, parent).Some? {
      EvalSort(keys, n, parent, f);
      CutAll(8 * |ls|, v.value.val);
    }
  }

  ghost predicate IsWide(v: Option<Value>, w: nat) {
    v.Some? ==> v.value.BV? && v.value.width == w
  }

  /** Joining bytes that are eight bits wide, as far as they have values. */
  lemma {:induction false} LoadedWidth(keys: seq<Key>, n: nat, ls: seq<Label>, bytes: seq<Byte>, count: nat, f: File)
    requires WfTable(keys, n) && 1 <= count <= |ls| == |bytes| && InTable(keys, ls)
    requires forall i | 0 <= i < count :: IsWide(ByteVal(keys, n, ls[i], bytes[i], f), 8)
    ensures IsWide(LoadedValue(keys, n, ls, bytes, count, f), 8 * count)
    decreases count
  {
    if count > 1 {
      LoadedWidth(keys, n, ls, bytes, count - 1, f);
      LoadedUnfold(keys, n, ls, bytes, count, f);
    }
  }

  /** A one-byte extract has an eight-bit value or none. */
  lemma ExtractWidth(keys: seq<Key>, n: nat, l: Label, j: nat, f: File)
    requires WfTable(keys, n) && n < l < |keys| && keys[l].op.Extract? && keys[l].size == 8
    requires keys[l].op2 == 8 * j < 0x1_0000
    ensures IsWide(Eval(keys, n, l, f), 8)
  {
    BuildUnfold(keys, n, l);
    var e := Build(keys, n, keys[l].l1);
    if e.Some? {
      BuildSorted(keys, n, keys[l].l1);
      ByteSlice(e.value, j);
      SliceValue(e.value, j, f);
    }
  }

  /** A load of all the bytes cut from one label returns that label. Its value is the one of the bytes on
      every input if the label's expression is as wide as its record says, and on no input otherwise. */
  lemma ExtractExact(keys: seq<Key>, n: nat, ls: seq<Label>, bytes: seq<Byte>, f: File)
    requires Range(keys, n, ls, bytes) && Bytes8(keys, ls) && ExtractTest(keys, ls)
    ensures LoadedValue(keys, n, ls, bytes, |ls|, f) == Eval(keys, n, keys[ls[0]].l1, f)
            <==> Sized(keys, n, keys[ls[0]].l1)
  {
    var parent := keys[ls[0]].l1;
    if Sized(keys, n, parent) {
      ExtractMeans(keys, n, ls, bytes, f);
    } else {
      ExtractRunFull(keys, ls, parent, 0);
      forall i | 0 <= i < |ls| ensures IsWide(ByteVal(keys, n, ls[i], bytes[i], f), 8) {
        assert keys[ls[i]].op.Extract? && keys[ls[i]].op2 == 8 * i;
        assert ls[i] > n;
        ExtractWidth(keys, n, ls[i], i, f);
      }
      LoadedWidth(keys, n, ls, bytes, |ls|, f);
      EvalSort(keys, n, parent, f);
    }
  }

  /** Every byte has a bit-vector value. */
  ghost predicate Valued(keys: seq<Key>, n: nat, ls: seq<Label>, bytes: seq<Byte>, count: nat, f: File)
    requires WfTable(keys, n) && count <= |ls| == |bytes| && InTable(keys, ls)
  {
    forall i | 0 <= i < count :: ByteVal(keys, n, ls[i], bytes[i], f).Some? && ByteVal(keys, n, ls[i], bytes[i], f).value.BV?
  }

  lemma {:induction false} LoadedIsValued(keys: seq<Key>, n: nat, ls: seq<Label>, bytes: seq<Byte>, count: nat, f: File)
    requires WfTable(keys, n) && 1 <= count <= |ls| == |bytes| && InTable(keys, ls)
    ensures
      var v := LoadedValue(keys, n, ls, bytes, count, f);
      && (v.Some? && v.value.BV? <==> Valued(keys, n, ls, bytes, count, f))
      && (count >= 2 && v.Some? ==> v.value.BV?)
    decreases count
  {
    if count > 1 {
      LoadedIsValued(keys, n, ls, bytes, count - 1, f);
      LoadedUnfold(keys, n, ls, bytes, count, f);
    }
  }

  /** When a load that starts with a tainted byte is right: if it returns the label its bytes are cut
      from, that label's expression must be as wide as recorded; if it concatenates, the width must stay
      below 256 bits, or the bytes have no joint value to begin with. */
  ghost predicate LoadsRight(keys: seq<Key>, n: nat, ls: seq<Label>, bytes: seq<Byte>, f: File)
    requires WfTable(keys, n) && |ls| == |bytes| >= 1 && InTable(keys, ls)
  {
    if ShapeTest(keys, ls) then true
    else if ExtractTest(keys, ls) then Sized(keys, n, keys[ls[0]].l1)
    else |ls| <= 31 || !Valued(keys, n, ls, bytes, |ls|, f)
  }

  /** The label a load returns denotes the little-endian concatenation of the byte values on exactly the
      inputs the condition above names; and the table only grows. */
  lemma LoadMeans(keys: seq<Key>, n: nat, ls: seq<Label>, bytes: seq<Byte>, f: File)
    requires Shadow(keys, n, ls, bytes) && Bytes8(keys, ls) && ls[0] != 0
    ensures
      var r := UnionLoad(keys, n, ls, bytes);
      && Extends(keys, r.0, n, r.1)
      && (Eval(r.0, n, r.1, f) == LoadedValue(keys, n, ls, bytes, |ls|, f) <==> LoadsRight(keys, n, ls, bytes, f))
  {
    ShadowInFile(keys, n, ls, bytes);
    LoadWf(keys, n, ls, bytes);
    if ShapeTest(keys, ls) {
      ShapeMeans(keys, n, ls, bytes, f);
    } else if ExtractTest(keys, ls) {
      ExtractExact(keys, n, ls, bytes, f);
    } else if |ls| <= 31 {
      var _ := SlowMeaning(keys, n, (keys, ls[0]), 1, ls, bytes, 1, ByteVal(keys, n, ls[0], bytes[0], f), f);
    } else {
      LongLoadHasNoValue(keys, n, ls, bytes, f);
      LoadedIsValued(keys, n, ls, bytes, |ls|, f);
    }
  }

  // ---------------------------------------------------------------- widths beyond eight bits

  /** A concatenation whose width is a multiple of 256 bits, or whose low part has no value, has no
      value. */
  lemma ConcatNone(keys: seq<Key>, n: nat, lbl: Label, next: Label, i: nat, b: Byte)
    requires WfTable(keys, n) && Distinct(keys, n) && 0 < lbl < |keys| && next < |keys| && i < 0x1FFF
    requires (i + 1) % 32 == 0 || Build(keys, n, lbl).None?
    ensures
      var (keys', l) := Union(keys, n, ByteCall(lbl, next, i, b));
      Extends(keys, keys', n, l) && l > n && Build(keys', n, l).None?
  {
    var c := ByteCall(lbl, next, i, b);
    UnionWf(keys, n, c);
    var (keys', l) := Union(keys, n, c);
    BuildStable(keys, keys', n, lbl);
    ConcatLabelNone(keys', n, l);
  }

  lemma ConcatLabelNone(keys: seq<Key>, n: nat, l: Label)
    requires WfTable(keys, n) && n < l < |keys| && keys[l].op.Concat? && 0 < keys[l].l1 < |keys|
    requires keys[l].size % 256 == 0 || Build(keys, n, keys[l].l1).None?
    ensures Build(keys, n, l).None?
  {
    BuildUnfold(keys, n, l);
    var key := keys[l];
    NodeNone(key, keys[key.l1].op1, keys[key.l1].size, keys[key.l2].size, Build(keys, n, key.l1), Build(keys, n, key.l2));
  }

  lemma {:induction false} NodeNone(key: Key, off1: nat, size1: nat, size2: nat, e1: Option<Expr>, e2: Option<Expr>)
    requires key.op.Concat? && key.l1 > 0 && (key.size % 256 == 0 || e1.None?)
    ensures Node(key, off1, size1, size2, e1, e2).None?
  {}

  lemma TooLongStep(keys: seq<Key>, n: nat, lbl: Label, i: nat, ls: seq<Label>, bytes: seq<Byte>)
    returns (keys': seq<Key>, l: Label)
    requires WfTable(keys, n) && Distinct(keys, n) && 0 < lbl < |keys|
    requires 1 <= i < |ls| == |bytes| < 0x2000 && InTable(keys, ls) && Bytes8(keys, ls)
    requires Build(keys, n, lbl).None? || !NoWrap(i, |ls|)
    ensures Extends(keys, keys', n, l) && l > 0 && InTable(keys', ls) && Bytes8(keys', ls)
    ensures Slow(keys, n, lbl, i, ls, bytes) == Slow(keys', n, l, i + 1, ls, bytes)
    ensures Build(keys', n, l).None? || !NoWrap(i + 1, |ls|)
  {
    var c := ByteCall(lbl, ls[i], i, bytes[i]);
    UnionWf(keys, n, c);
    if Build(keys, n, lbl).None? || (i + 1) % 32 == 0 { ConcatNone(keys, n, lbl, ls[i], i, bytes[i]); }
    var r := Union(keys, n, c);
    keys', l := r.0, r.1;
    SlowByte(keys, n, lbl, i, ls, bytes, keys', l);
  }

  lemma {:induction false} SlowTooLong(keys: seq<Key>, n: nat, lbl: Label, i: nat, ls: seq<Label>, bytes: seq<Byte>)
    returns (r: (seq<Key>, Label))
    requires WfTable(keys, n) && Distinct(keys, n) && 0 < lbl < |keys|
    requires 1 <= i <= |ls| == |bytes| < 0x2000 && InTable(keys, ls) && Bytes8(keys, ls)
    requires Build(keys, n, lbl).None? || !NoWrap(i, |ls|)
    ensures r == Slow(keys, n, lbl, i, ls, bytes)
    ensures Extends(keys, r.0, n, r.1) && Build(r.0, n, r.1).None?
    decreases |ls| - i
  {
    SlowWf(keys, n, lbl, i, ls, bytes);
    r := Slow(keys, n, lbl, i, ls, bytes);
    if i < |ls| {
      var keys', l := TooLongStep(keys, n, lbl, i, ls, bytes);
      var _ := SlowTooLong(keys', n, l, i + 1, ls, bytes);
    }
  }

  /** Widths are kept in eight bits: concatenating 32 bytes or more gives a label without a value. */
  lemma LongLoadHasNoValue(keys: seq<Key>, n: nat, ls: seq<Label>, bytes: seq<Byte>, f: File)
    requires Range(keys, n, ls, bytes) && Bytes8(keys, ls) && ls[0] != 0
    requires TakesSlowPath(keys, ls) && |ls| >= 32
    ensures Denotes(keys, n, UnionLoad(keys, n, ls, bytes), None, f)
  {
    assert !NoWrap(1, |ls|) by { assert 32 % 32 == 0; }
    var _ := SlowTooLong(keys, n, ls[0], 1, ls, bytes);
  }

  // ---------------------------------------------------------------- concrete bytes at the start

  lemma JoinInjective(h1: Value, l1: Value, h2: Value, l2: Value)
    requires h1.BV? && h2.BV? && l1.BV? && l2.BV? && l1.width == l2.width
    requires l1.val < Pow2(l1.width) && l2.val < Pow2(l2.width) && h1.width == h2.width
    ensures JoinBits(h1, l1) == JoinBits(h2, l2) <==> h1 == h2 && l1 == l2
  {
    var p := Pow2(l1.width);
    DivModUnique(Arith.Shl(h1.val, l1.width) + l1.val, p, h1.val, l1.val);
    DivModUnique(Arith.Shl(h2.val, l1.width) + l2.val, p, h2.val, l2.val);
  }

  ghost predicate ProperValue(v: Option<Value>) {
    v.Some? && v.value.BV? ==> v.value.val < Pow2(v.value.width)
  }

  lemma ByteProper(keys: seq<Key>, n: nat, l: Label, b: Byte, f: File)
    requires WfTable(keys, n) && l < |keys|
    ensures ProperValue(ByteVal(keys, n, l, b, f))
  {
    Pow2Values();
    if l != 0 && Build(keys, n, l).Some? { EvalSort(keys, n, l, f); }
  }

  /** The concrete bytes agree wherever the label is the constant. */
  predicate SameConcrete(ls: seq<Label>, bytes: seq<Byte>, bytes': seq<Byte>, count: nat)
    requires count <= |ls| == |bytes| == |bytes'|
  {
    forall i | 0 <= i < count :: ls[i] == 0 ==> bytes[i] == bytes'[i]
  }

  /** Two loads that differ in concrete bytes only: the same shape, and the same value exactly when
      the concrete bytes that count are the same. */
  ghost predicate Comparable(v: Option<Value>, u: Option<Value>) {
    && (v.Some? <==> u.Some?)
    && (v.Some? ==> (v.value.BV? <==> u.value.BV?))
    && (v.Some? && v.value.BV? ==> v.value.width == u.value.width)
    && ProperValue(v) && ProperValue(u)
  }

  lemma {:induction false} CompareLoads(keys: seq<Key>, n: nat, ls: seq<Label>, bytes: seq<Byte>, bytes': seq<Byte>,
                                        count: nat, f: File)
    requires WfTable(keys, n) && 1 <= count <= |ls| == |bytes| == |bytes'| && InTable(keys, ls)
    ensures
      var v, u := LoadedValue(keys, n, ls, bytes, count, f), LoadedValue(keys, n, ls, bytes', count, f);
      Comparable(v, u) && (v.Some? ==> (v == u <==> SameConcrete(ls, bytes, bytes', count)))
    decreases count
  {
    var t, t' := ByteVal(keys, n, ls[count - 1], bytes[count - 1], f), ByteVal(keys, n, ls[count - 1], bytes'[count - 1], f);
    ByteProper(keys, n, ls[count - 1], bytes[count - 1], f);
    ByteProper(keys, n, ls[count - 1], bytes'[count - 1], f);
    if count > 1 {
      CompareLoads(keys, n, ls, bytes, bytes', count - 1, f);
      var v, u := LoadedValue(keys, n, ls, bytes, count - 1, f), LoadedValue(keys, n, ls, bytes', count - 1, f);
      CompareJoin(t, t', v, u);
      LoadedUnfold(keys, n, ls, bytes, count, f);
      LoadedUnfold(keys, n, ls, bytes', count, f);
    }
  }

  lemma CompareJoin(t: Option<Value>, t': Option<Value>, v: Option<Value>, u: Option<Value>)
    requires Comparable(t, t') && Comparable(v, u)
    ensures Comparable(JoinOpt(t, v), JoinOpt(t', u))
    ensures JoinOpt(t, v).Some? ==> (JoinOpt(t, v) == JoinOpt(t', u) <==> t == t' && v == u)
  {
    if JoinOpt(t, v).Some? {
      JoinInjective(t.value, v.value, t'.value, u.value);
      JoinSort(t.value, v.value);
      JoinSort(t'.value, u.value);
    }
  }

  /** A load whose first byte is concrete and which passes the shape test reads the input file's first
      byte in its place: it is right on exactly the inputs where that byte happens to be the same. */
  lemma ConcreteStartShape(keys: seq<Key>, n: nat, ls: seq<Label>, bytes: seq<Byte>, f: File)
    requires Shadow(keys, n, ls, bytes) && ls[0] == 0 && |ls| > 1 && ShapeTest(keys, ls)
    ensures
      var r := UnionLoad(keys, n, ls, bytes);
      && Extends(keys, r.0, n, r.1)
      && (Eval(r.0, n, r.1, f) == LoadedValue(keys, n, ls, bytes, |ls|, f) <==> bytes[0] == ByteAt(f, 0))
  {
    ShadowInFile(keys, n, ls, bytes);
    LoadWf(keys, n, ls, bytes);
    ShapeLabels(keys, n, ls);
    assert !AllConstant(ls) by { assert ls[1] != 0; }
    var c := Call(0, |ls|, Load, U16(|ls| * 8), 0, 0);
    UnionWf(keys, n, c);
    var (keys', r) := Union(keys, n, c);
    LoadEval(keys', n, r, f);
    ZeroShapeValue(keys, n, ls, bytes, |ls|, f);
    CompareLoads(keys, n, ls, bytes, bytes[0 := ByteAt(f, 0)], |ls|, f);
  }

  /** Bit-vectors in the range are eight bits wide. Bytes may have other values or none. */
  ghost predicate EightBits(keys: seq<Key>, n: nat, ls: seq<Label>, bytes: seq<Byte>, f: File)
    requires WfTable(keys, n) && |ls| == |bytes| && InTable(keys, ls)
  {
    forall i | 0 <= i < |ls| ::
      var v := ByteVal(keys, n, ls[i], bytes[i], f);
      v.Some? && v.value.BV? ==> v.value.width == 8
  }

  /** The first count bytes have the values of the file from off on. */
  ghost predicate ReadsFile(keys: seq<Key>, n: nat, ls: seq<Label>, bytes: seq<Byte>, off: nat, count: nat, f: File)
    requires WfTable(keys, n) && count <= |ls| == |bytes| && InTable(keys, ls)
  {
    forall i | 0 <= i < count :: ByteVal(keys, n, ls[i], bytes[i], f) == Some(BV(8, ByteAt(f, off + i)))
  }

  lemma {:induction false} CompareWithFile(keys: seq<Key>, n: nat, ls: seq<Label>, bytes: seq<Byte>, off: nat, count: nat, f: File)
    requires WfTable(keys, n) && 1 <= count <= |ls| == |bytes| && InTable(keys, ls)
    requires EightBits(keys, n, ls, bytes, f) && Valued(keys, n, ls, bytes, |ls|, f)
    ensures
      var v, u := LoadedValue(keys, n, ls, bytes, count, f), Some(Denote(LoadExpr(off, count), f));
      Comparable(v, u) && v.Some? && v.value.BV? && (v == u <==> ReadsFile(keys, n, ls, bytes, off, count, f))
    decreases count
  {
    var t, t' := ByteVal(keys, n, ls[count - 1], bytes[count - 1], f), Some(BV(8, ByteAt(f, off + count - 1)));
    ByteProper(keys, n, ls[count - 1], bytes[count - 1], f);
    assert Pow2(8) == 256 by { Pow2Values(); }
    if count > 1 {
      CompareWithFile(keys, n, ls, bytes, off, count - 1, f);
      var v, u := LoadedValue(keys, n, ls, bytes, count - 1, f), Some(Denote(LoadExpr(off, count - 1), f));
      CompareJoin(t, t', v, u);
      LoadedUnfold(keys, n, ls, bytes, count, f);
    }
  }

  /** The shape test in general: a load that passes it, and does not run past the end of the file, is
      right on exactly the inputs where every byte has the value of the file byte the test takes it for. */
  lemma ShapeExact(keys: seq<Key>, n: nat, ls: seq<Label>, bytes: seq<Byte>, f: File)
    requires Range(keys, n, ls, bytes) && |ls| > 1 && !AllConstant(ls) && ShapeTest(keys, ls)
    requires EightBits(keys, n, ls, bytes, f)
    ensures
      var r := UnionLoad(keys, n, ls, bytes);
      && (Extends(keys, r.0, n, r.1) <==> OffsetOf(ls[0]) + |ls| <= n)
      && (Extends(keys, r.0, n, r.1) ==>
            (Eval(r.0, n, r.1, f) == LoadedValue(keys, n, ls, bytes, |ls|, f)
             <==> ReadsFile(keys, n, ls, bytes, OffsetOf(ls[0]), |ls|, f)))
  {
    LoadWf(keys, n, ls, bytes);
    InputLabel(keys, n, ls[0]);
    if OffsetOf(ls[0]) + |ls| <= n {
      var c := Call(ls[0], |ls|, Load, U16(|ls| * 8), 0, 0);
      UnionWf(keys, n, c);
      var (keys', r) := Union(keys, n, c);
      LoadEval(keys', n, r, f);
      LoadedIsValued(keys, n, ls, bytes, |ls|, f);
      if Valued(keys, n, ls, bytes, |ls|, f) {
        CompareWithFile(keys, n, ls, bytes, OffsetOf(ls[0]), |ls|, f);
      }
    }
  }

  lemma {:induction false} ZeroShapeValue(keys: seq<Key>, n: nat, ls: seq<Label>, bytes: seq<Byte>, count: nat, f: File)
    requires WfTable(keys, n) && 1 <= count <= |ls| == |bytes| && InTable(keys, ls)
    requires ls[0] == 0 && InputRun(ls[0 := 1], 0, |ls|, n)
    ensures LoadedValue(keys, n, ls, bytes[0 := ByteAt(f, 0)], count, f) == Some(Denote(LoadExpr(0, count), f))
    ensures Denote(LoadExpr(0, count), f).BV?
    decreases count
  {
    if count > 1 {
      assert ls[count - 1] == ls[0 := 1][count - 1] == count;
      InputEval(keys, n, count, f);
      ZeroShapeValue(keys, n, ls, bytes, count - 1, f);
      LoadedUnfold(keys, n, ls, bytes[0 := ByteAt(f, 0)], count, f);
    }
  }

  /** m is the index of the first tainted byte. */
  predicate FirstTainted(ls: seq<Label>, m: nat) {
    m < |ls| && ls[m] != 0 && forall i | 0 <= i < m :: ls[i] == 0
  }

  /** Concatenating concrete bytes to nothing yields nothing. */
  lemma {:induction false} SlowSkips(keys: seq<Key>, n: nat, i: nat, m: nat, ls: seq<Label>, bytes: seq<Byte>)
    requires WfTable(keys, n) && |bytes| == |ls| < 0x2000 && InTable(keys, ls) && Bytes8(keys, ls)
    requires FirstTainted(ls, m) && i <= m
    ensures Slow(keys, n, 0, i, ls, bytes) == Slow(keys, n, 0, m, ls, bytes)
    decreases m - i
  {
    if i < m {
      SlowByte(keys, n, 0, i, ls, bytes, keys, 0);
      SlowSkips(keys, n, i + 1, m, ls, bytes);
    }
  }

  /** What stands for m concrete bytes below the first tainted one: zeros, in as many bits as eight bits
      can count. */
  function LostBytes(m: nat): Option<Value> { Some(BV(U8(8 * m), 0)) }

  /** The first tainted byte is placed above a constant zero, whatever the concrete bytes were. */
  lemma FirstConcat(keys: seq<Key>, n: nat, next: Label, m: nat, b: Byte, f: File)
    requires WfTable(keys, n) && Distinct(keys, n) && 0 < next < |keys| && keys[next].size == 8 && 1 <= m < 0x1FFF
    ensures
      var (keys', l) := Union(keys, n, ByteCall(0, next, m, b));
      && Extends(keys, keys', n, l) && l > n && keys'[l].size == 8 * (m + 1)
      && (m % 32 == 0 ==> Build(keys', n, l).None?)
      && (m % 32 != 0 ==> Eval(keys', n, l, f) == JoinOpt(Eval(keys, n, next, f), LostBytes(m)))
  {
    var c := ByteCall(0, next, m, b);
    UnionWf(keys, n, c);
    var (keys', l) := Union(keys, n, c);
    BuildStable(keys, keys', n, next);
    FirstNode(keys', n, l, next, m, b, f);
  }

  lemma FirstNode(keys: seq<Key>, n: nat, l: Label, next: Label, m: nat, b: Byte, f: File)
    requires WfTable(keys, n) && n < l < |keys| && 0 < next < |keys| && keys[next].size == 8 && 1 <= m < 0x1FFF
    requires keys[l] == UnionKey(ByteCall(0, next, m, b))
    ensures m % 32 == 0 ==> Build(keys, n, l).None?
    ensures m % 32 != 0 ==> Eval(keys, n, l, f) == JoinOpt(Eval(keys, n, next, f), LostBytes(m))
  {
    FirstBuild(keys, n, l, next, m, b);
    var e, w := Build(keys, n, next), U8(8 * m);
    if e.Some? && m % 32 != 0 {
      EvalSort(keys, n, next, f);
      ModSmall(0, Pow2(w));
      JoinedExpr(BVConst(w, 0), e.value, f);
    }
  }

  lemma FirstBuild(keys: seq<Key>, n: nat, l: Label, next: Label, m: nat, b: Byte)
    requires WfTable(keys, n) && n < l < |keys| && 0 < next < |keys| && keys[next].size == 8 && 1 <= m < 0x1FFF
    requires keys[l] == UnionKey(ByteCall(0, next, m, b))
    ensures
      var e := Build(keys, n, next);
      Build(keys, n, l) ==
        if e.Some? && m % 32 != 0 then BinaryExpr(Concat, 8 * (m + 1), BVConst(U8(8 * m), 0), e.value) else None
  {
    BuildUnfold(keys, n, l);
    WidthWraps(m);
    NodeFirst(keys[l], keys[0].op1, keys[0].size, Build(keys, n, 0), Build(keys, n, next), U8(8 * m));
  }

  lemma WidthWraps(m: nat)
    ensures U8(8 * m) == 0 <==> m % 32 == 0
  {}

  lemma {:induction false} NodeFirst(key: Key, off1: nat, size1: nat, e1: Option<Expr>, e2: Option<Expr>, w: nat)
    requires key.op.Concat? && key.l1 == 0 && key.l2 > 0 && U8(key.size - 8) == w
    ensures
      Node(key, off1, size1, 8, e1, e2) ==
        if e2.None? || w == 0 then None
        else BinaryExpr(Concat, key.size, ConstOperand(key.size, w, key.op1), e2.value)
  {}

  /** A load whose first m bytes are concrete and which is concatenated byte by byte loses those bytes:
      zeros stand for them, too few from 32 bytes on; and it has no value at all if the width on the way
      is a multiple of 256 bits. */
  lemma ConcreteStartSlow(keys: seq<Key>, n: nat, ls: seq<Label>, bytes: seq<Byte>, m: nat, f: File)
    requires Range(keys, n, ls, bytes) && Bytes8(keys, ls)
    requires FirstTainted(ls, m) && m > 0 && TakesSlowPath(keys, ls)
    ensures Denotes(keys, n, UnionLoad(keys, n, ls, bytes),
                    if m % 32 != 0 && NoWrap(m + 1, |ls|) then Joined(keys, n, ls, bytes, m, LostBytes(m), |ls|, f)
                    else None, f)
  {
    SlowSkips(keys, n, 1, m, ls, bytes);
    var (keys', l) := Union(keys, n, ByteCall(0, ls[m], m, bytes[m]));
    SlowByte(keys, n, 0, m, ls, bytes, keys', l);
    FirstConcat(keys, n, ls[m], m, bytes[m], f);
    if m % 32 != 0 && NoWrap(m + 1, |ls|) {
      JoinedUnfold(keys, n, ls, bytes, m, LostBytes(m), m + 1, f);
      var _ := SlowMeaning(keys, n, (keys', l), m + 1, ls, bytes, m, LostBytes(m), f);
    } else {
      var _ := SlowTooLong(keys', n, l, m + 1, ls, bytes);
    }
  }

  lemma {:induction false} JoinedSplit(keys: seq<Key>, n: nat, ls: seq<Label>, bytes: seq<Byte>, m: nat, count: nat, f: File)
    requires WfTable(keys, n) && 1 <= m <= count <= |ls| == |bytes| && InTable(keys, ls)
    ensures LoadedValue(keys, n, ls, bytes, count, f)
         == Joined(keys, n, ls, bytes, m, LoadedValue(keys, n, ls, bytes, m, f), count, f)
    decreases count
  {
    if m < count {
      JoinedSplit(keys, n, ls, bytes, m, count - 1, f);
      LoadedUnfold(keys, n, ls, bytes, count, f);
      JoinedUnfold(keys, n, ls, bytes, m, LoadedValue(keys, n, ls, bytes, m, f), count, f);
    }
  }

  ghost predicate IsBits(v: Option<Value>) {
    v.Some? && v.value.BV? && v.value.val < Pow2(v.value.width)
  }

  /** The same bytes joined above two values: the widths differ as those of the two values do, and at
      equal widths the results are equal exactly when the values are. */
  lemma {:induction false} JoinedCompare(keys: seq<Key>, n: nat, ls: seq<Label>, bytes: seq<Byte>, m: nat,
                                         b: Option<Value>, c: Option<Value>, count: nat, f: File)
    requires WfTable(keys, n) && m <= count <= |ls| == |bytes| && InTable(keys, ls) && IsBits(b) && IsBits(c)
    ensures
      var v, u := Joined(keys, n, ls, bytes, m, b, count, f), Joined(keys, n, ls, bytes, m, c, count, f);
      && (v.Some? <==> u.Some?)
      && (v.Some? ==> IsBits(v) && IsBits(u) && v.value.width + c.value.width == u.value.width + b.value.width)
      && (v.Some? && b.value.width == c.value.width ==> (v == u <==> b == c))
    decreases count
  {
    if m < count {
      JoinedCompare(keys, n, ls, bytes, m, b, c, count - 1, f);
      JoinedUnfold(keys, n, ls, bytes, m, b, count, f);
      JoinedUnfold(keys, n, ls, bytes, m, c, count, f);
      ByteProper(keys, n, ls[count - 1], bytes[count - 1], f);
      JoinBoth(ByteVal(keys, n, ls[count - 1], bytes[count - 1], f),
               Joined(keys, n, ls, bytes, m, b, count - 1, f), Joined(keys, n, ls, bytes, m, c, count - 1, f));
    }
  }

  lemma JoinBoth(t: Option<Value>, v: Option<Value>, u: Option<Value>)
    requires ProperValue(t) && (v.Some? <==> u.Some?) && (v.Some? ==> IsBits(v) && IsBits(u))
    ensures
      var x, y := JoinOpt(t, v), JoinOpt(t, u);
      && (x.Some? <==> y.Some?) && (x.Some? ==> v.Some?)
      && (x.Some? ==> IsBits(x) && IsBits(y) && x.value.width + u.value.width == y.value.width + v.value.width)
      && (x.Some? && v.value.width == u.value.width ==> (x == y <==> v == u))
  {
    if JoinOpt(t, v).Some? {
      JoinSort(t.value, v.value);
      JoinSort(t.value, u.value);
      if v.value.width == u.value.width { JoinInjective(t.value, v.value, t.value, u.value); }
    }
  }

  predicate ZeroBytes(bytes: seq<Byte>, count: nat)
    requires count <= |bytes|
  {
    forall i | 0 <= i < count :: bytes[i] == 0
  }

  /** The value of concrete bytes. */
  lemma {:induction false} ConcretePrefix(keys: seq<Key>, n: nat, ls: seq<Label>, bytes: seq<Byte>, count: nat, f: File)
    requires WfTable(keys, n) && 1 <= count <= |ls| == |bytes| && InTable(keys, ls)
    requires forall i | 0 <= i < count :: ls[i] == 0
    ensures
      var v := LoadedValue(keys, n, ls, bytes, count, f);
      IsBits(v) && v.value.width == 8 * count && (v.value.val == 0 <==> ZeroBytes(bytes, count))
    decreases count
  {
    if count == 1 {
      assert Pow2(8) == 256 by { Pow2Values(); }
    } else {
      ConcretePrefix(keys, n, ls, bytes, count - 1, f);
      LoadedUnfold(keys, n, ls, bytes, count, f);
      ZeroJoin(bytes[count - 1], LoadedValue(keys, n, ls, bytes, count - 1, f));
      assert ZeroBytes(bytes, count) <==> ZeroBytes(bytes, count - 1) && bytes[count - 1] == 0;
    }
  }

  lemma ZeroJoin(b: Byte, l: Option<Value>)
    requires IsBits(l)
    ensures
      var v := JoinOpt(Some(BV(8, b)), l);
      IsBits(v) && v.value.width == 8 + l.value.width && (v.value.val == 0 <==> b == 0 && l.value.val == 0)
  {
    assert Pow2(8) == 256 by { Pow2Values(); }
    JoinSort(BV(8, b), l.value);
    MulMono(if b == 0 then 0 else 1, b, Pow2(l.value.width));
  }

  /** So such a load is right exactly when its bytes have no joint value to begin with, or the concrete bytes
      before the first tainted one are fewer than 32 and zero, and the width stays clear of 256 bits: below
      it, or, with 31 concrete bytes, from it up to 504. */
  lemma ConcreteStartExact(keys: seq<Key>, n: nat, ls: seq<Label>, bytes: seq<Byte>, m: nat, f: File)
    requires Range(keys, n, ls, bytes) && Bytes8(keys, ls)
    requires FirstTainted(ls, m) && m > 0 && TakesSlowPath(keys, ls)
    ensures Denotes(keys, n, UnionLoad(keys, n, ls, bytes), LoadedValue(keys, n, ls, bytes, |ls|, f), f)
            <==> !Valued(keys, n, ls, bytes, |ls|, f)
                 || ((|ls| <= 31 || (m == 31 && |ls| <= 63)) && ZeroBytes(bytes, m))
  {
    ConcreteStartSlow(keys, n, ls, bytes, m, f);
    LoadedIsValued(keys, n, ls, bytes, |ls|, f);
    ConcretePrefix(keys, n, ls, bytes, m, f);
    JoinedSplit(keys, n, ls, bytes, m, |ls|, f);
    WrapCases(m, |ls|);
    var b := LoadedValue(keys, n, ls, bytes, m, f);
    assert U8(8 * m) < 256;
    if m % 32 != 0 && NoWrap(m + 1, |ls|) {
      JoinedCompare(keys, n, ls, bytes, m, b, LostBytes(m), |ls|, f);
    }
  }

  lemma WrapCases(m: nat, count: nat)
    requires 0 < m < count
    ensures m < 32 ==> (NoWrap(m + 1, count) <==> count <= 31 || (m == 31 && count <= 63))
    ensures count <= 31 || (m == 31 && count <= 63) ==> m < 32
    ensures m < 32 ==> U8(8 * m) == 8 * m
    ensures m >= 32 ==> U8(8 * m) != 8 * m
  {
    if m < 31 && count >= 32 { assert 32 % 32 == 0; }
    if m == 31 && count >= 64 { assert 64 % 32 == 0; }
  }

  // ---------------------------------------------------------------- store, then load

  /** Two labels with one key are one label. */
  lemma SameKeySameLabel(keys: seq<Key>, n: nat, i: Label, j: Label)
    requires Distinct(keys, n) && n < i < |keys| && n < j < |keys| && keys[i] == keys[j]
    ensures i == j
  {}

  lemma {:induction false} ExtractRunOf(keys: seq<Key>, ls: seq<Label>, parent: Label, i: nat)
    requires i <= |ls| && InTable(keys, ls)
    requires forall j | 0 <= j < |ls| :: keys[ls[j]] == Key(parent, 0, Extract, 8, 0, j * 8)
    ensures ExtractRun(keys, ls, parent, i, 8 * i) == 8 * |ls|
    decreases |ls| - i
  {
    if i < |ls| {
      assert keys[ls[i]] == Key(parent, 0, Extract, 8, 0, i * 8);
      ExtractRunOf(keys, ls, parent, i + 1);
    }
  }

  /** The shadow bytes a store leaves behind for a label of count bytes. */
  lemma StoredBytes(keys: seq<Key>, n: nat, l: Label, count: nat)
    requires WfTable(keys, n) && Distinct(keys, n) && n < l < |keys| && count >= 2 && keys[l].size == 8 * count
    ensures
      var (keys', ls) := UnionStore(keys, n, l, count);
      && WfTable(keys', n) && Distinct(keys', n) && InTable(keys', ls) && |ls| == count
      && Bytes8(keys', ls) && ByteWide(keys', ls) && Clean(keys', n, ls)
      && (keys[l].op.Load? ==> keys' == keys && keys[l].l2 == count
                               && forall i | 0 <= i < count :: ls[i] == keys[l].l1 + i <= n)
      && (!keys[l].op.Load? ==>
            forall i | 0 <= i < count :: ls[i] > n && keys'[ls[i]] == Key(l, 0, Extract, 8, 0, i * 8))
  {
    assert WfNode(keys[l], n, l);
    if !keys[l].op.Load? { ExtractsWf(keys, n, l, 0, count); }
  }

  /** Storing a label of two bytes or more and loading the same bytes gives the label back, for every
      label except a Load that was created over a concrete first byte. */
  lemma StoreLoadIdentity(keys: seq<Key>, n: nat, l: Label, count: nat, bytes: seq<Byte>)
    requires WfTable(keys, n) && Distinct(keys, n) && n < l < |keys|
    requires count >= 2 && keys[l].size == 8 * count == 8 * |bytes|
    requires !(keys[l].op.Load? && keys[l].l1 == 0)
    ensures
      var (keys', ls) := UnionStore(keys, n, l, count);
      && n < |keys'| && InTable(keys', ls) && ByteWide(keys', ls)
      && UnionLoad(keys', n, ls, bytes) == (keys', l)
  {
    StoredBytes(keys, n, l, count);
    var (keys', ls) := UnionStore(keys, n, l, count);
    assert ls[0] != 0;
    assert WfNode(keys[l], n, l);
    if keys[l].op.Load? {
      assert ShapeTest(keys, ls);
      var c := Call(ls[0], count, Load, U16(count * 8), 0, 0);
      assert UnionKey(c) == keys[l];
      assert Present(keys, n, UnionKey(c));
      SameKeySameLabel(keys, n, l, LabelOf(keys, n, UnionKey(c)));
    } else {
      assert keys'[ls[0]] == Key(l, 0, Extract, 8, 0, 0 * 8);
      ExtractRunOf(keys', ls, l, 0);
      assert ExtractTest(keys', ls);
    }
  }

  /** A Load over a concrete first byte does not come back: its first shadow byte is the constant. */
  lemma StoreLoadBroken(keys: seq<Key>, n: nat, l: Label, count: nat, bytes: seq<Byte>)
    requires WfTable(keys, n) && Distinct(keys, n) && n < l < |keys|
    requires count >= 2 && keys[l].size == 8 * count == 8 * |bytes|
    requires keys[l].op.Load? && keys[l].l1 == 0
    ensures
      var (keys', ls) := UnionStore(keys, n, l, count);
      && n < |keys'| && InTable(keys', ls) && ByteWide(keys', ls)
      && UnionLoad(keys', n, ls, bytes).1 != l
  {
    StoredBytes(keys, n, l, count);
    assert WfNode(keys[l], n, l);
    var ls := UnionStore(keys, n, l, count).1;
    assert ls[0] == 0 && ls[1] == 1;
    assert keys[ls[1]].op1 == 0;
    assert FirstTainted(ls, 1);
    var (keys', r) := Union(keys, n, ByteCall(0, 1, 1, bytes[1]));
    SlowByte(keys, n, 0, 1, ls, bytes, keys', r);
    UnionWf(keys, n, ByteCall(0, 1, 1, bytes[1]));
    var out := SlowIsConcat(keys', n, r, 2, ls, bytes);
  }

  lemma {:induction false} SlowIsConcat(keys: seq<Key>, n: nat, lbl: Label, i: nat, ls: seq<Label>, bytes: seq<Byte>)
    returns (out: (seq<Key>, Label))
    requires WfTable(keys, n) && Distinct(keys, n) && n < lbl < |keys| && keys[lbl].op.Concat?
    requires i <= |ls| == |bytes| < 0x2000 && InTable(keys, ls) && Bytes8(keys, ls)
    ensures out == Slow(keys, n, lbl, i, ls, bytes)
    ensures keys <= out.0 && out.1 < |out.0| && out.0[out.1].op.Concat?
    decreases |ls| - i
  {
    if i < |ls| {
      var c := ByteCall(lbl, ls[i], i, bytes[i]);
      UnionWf(keys, n, c);
      var (keys', l) := Union(keys, n, c);
      SlowByte(keys, n, lbl, i, ls, bytes, keys', l);
      out := SlowIsConcat(keys', n, l, i + 1, ls, bytes);
    } else {
      out := (keys, lbl);
    }
  }

  /** Store then load is the identity on labels of two bytes or more, exactly when the label is not a
      Load over a concrete first byte. */
  lemma StoreLoadExact(keys: seq<Key>, n: nat, l: Label, count: nat, bytes: seq<Byte>)
    requires WfTable(keys, n) && Distinct(keys, n) && n < l < |keys|
    requires count >= 2 && keys[l].size == 8 * count == 8 * |bytes|
    ensures
      var (keys', ls) := UnionStore(keys, n, l, count);
      && n < |keys'| && InTable(keys', ls) && ByteWide(keys', ls)
      && (UnionLoad(keys', n, ls, bytes).1 == l <==> !(keys[l].op.Load? && keys[l].l1 == 0))
  {
    if keys[l].op.Load? && keys[l].l1 == 0 {
      StoreLoadBroken(keys, n, l, count, bytes);
    } else {
      StoreLoadIdentity(keys, n, l, count, bytes);
    }
  }

  /** A single byte comes back unchanged unless it is itself cut from a one-byte label, in which case
      that label comes back. */
  lemma StoreLoadByte(keys: seq<Key>, n: nat, l: Label, b: Byte)
    requires WfTable(keys, n) && 0 < l < |keys| && keys[l].size == 8
    ensures UnionStore(keys, n, l, 1) == (keys, [l])
    ensures
      var r := UnionLoad(keys, n, [l], [b]).1;
      && (r == l <==> !(keys[l].op.Extract? && keys[l].op2 == 0 && keys[keys[l].l1].size == 8))
      && (r != l ==> r == keys[l].l1)
  {
    var ls := [l];
    if l > n { assert WfNode(keys[l], n, l); }
    assert !AllConstant(ls) by { assert ls[0] != 0; }
    if keys[l].op.Extract? {
      assert ExtractRun(keys, ls, keys[l].l1, 0, 0) == if keys[l].op2 == 0 then ExtractRun(keys, ls, keys[l].l1, 1, 8) else 0;
    }
  }

  // ---------------------------------------------------------------- loading part of what was stored

  lemma CutLowOfJoin(h: Value, l: Value, hi: nat, lo: nat)
    requires h.BV? && l.BV? && lo <= hi < l.width
    ensures CutBits(hi, lo, JoinBits(h, l)) == CutBits(hi, lo, l)
  {
    LowBits(h.val, l.val, l.width, lo, hi - lo + 1);
  }

  lemma LowBits(h: nat, l: nat, w: nat, lo: nat, k: nat)
    requires lo + k <= w
    ensures Shr(Arith.Shl(h, w) + l, lo) % Pow2(k) == Shr(l, lo) % Pow2(k)
  {
    var p, q, d := Pow2(lo), Pow2(k), Pow2(w - lo - k);
    assert Pow2(w) == (d * q) * p by { Pow2Add(w - lo - k, k); Pow2Add(w - lo, lo); }
    LowPart(h, l, p, q, d);
  }

  lemma LowPart(h: nat, l: nat, p: nat, q: nat, d: nat)
    requires p > 0 && q > 0
    ensures ((h * ((d * q) * p) + l) / p) % q == (l / p) % q
  {
    MulAssoc(h, d * q, p);
    ModAddMul(l, h * (d * q), p);
    MulAssoc(h, d, q);
    ModAddMul(l / p, h * d, q);
  }

  lemma CutHighOfJoin(h: Value, l: Value)
    requires h.BV? && l.BV? && h.width >= 1 && h.val < Pow2(h.width) && l.val < Pow2(l.width)
    ensures CutBits(h.width + l.width - 1, l.width, JoinBits(h, l)) == h
  {
    DivModUnique(Arith.Shl(h.val, l.width) + l.val, Pow2(l.width), h.val, l.val);
    ModSmall(h.val, Pow2(h.width));
  }

  /** Byte i of a multi-byte load is input byte off + i. */
  lemma {:induction false} LoadSlice(off: nat, count: nat, i: nat, f: File)
    requires i < count
    ensures CutBits(8 * i + 7, 8 * i, Denote(LoadExpr(off, count), f)) == BV(8, ByteAt(f, off + i))
    decreases count
  {
    assert Pow2(8) == 256 by { Pow2Values(); }
    if count == 1 {
      CutAll(8, ByteAt(f, off));
    } else {
      var h, l := BV(8, ByteAt(f, off + count - 1)), Denote(LoadExpr(off, count - 1), f);
      LoadExprSort(off, count - 1);
      DenoteSort(LoadExpr(off, count - 1), f);
      if i == count - 1 {
        CutHighOfJoin(h, l);
      } else {
        LoadSlice(off, count - 1, i, f);
        CutLowOfJoin(h, l, 8 * i + 7, 8 * i);
      }
    }
  }

  lemma LoadCovers(keys: seq<Key>, n: nat, l: Label)
    requires WfTable(keys, n) && n < l < |keys| && keys[l].op.Load?
    ensures Build(keys, n, l) == Some(LoadExpr(OffsetOf(keys[l].l1), keys[l].l2))
    ensures SortOf(LoadExpr(OffsetOf(keys[l].l1), keys[l].l2)) == Some(BVSort(keys[l].size))
  {
    assert WfNode(keys[l], n, l);
    BuildUnfold(keys, n, l);
    LoadExprSort(OffsetOf(keys[l].l1), keys[l].l2);
  }

  /** A Load that starts at the constant. */
  predicate FromConstant(key: Key) { key.op.Load? && key.l1 == 0 }

  /** A shadow byte written by a store of any size, over the concrete byte b, denotes its byte of the stored
      label exactly when the label's expression has that byte; a single byte of eight bits is stored as the
      label itself, which must then have eight. A Load is stored as consecutive labels; one that starts at
      the constant is stored one byte off: the constant for its first byte, and the previous input byte for
      every other. */
  lemma StoredByteMeans(keys: seq<Key>, n: nat, l: Label, count: nat, i: nat, b: Byte, f: File)
    requires WfTable(keys, n) && Distinct(keys, n) && 0 < l < |keys| && i < count < 0x2000_0000
    ensures
      var (keys', ls) := UnionStore(keys, n, l, count);
      && WfTable(keys', n)
      && (keys[l].op.Load? ==> ls[i] == keys[l].l1 + i)
      && (keys[l].op.Load? ==> i < keys[l].l2 ==>
            && ls[i] < |keys'|
            && (ByteVal(keys', n, ls[i], b, f) == CutOpt(8 * i + 7, 8 * i, Eval(keys, n, l, f)) <==>
                  (FromConstant(keys[l]) ==> ByteAt(f, i) == if i == 0 then b else ByteAt(f, i - 1))))
      && (!keys[l].op.Load? ==>
            && 0 < ls[i] < |keys'|
            && (Eval(keys', n, ls[i], f) == CutOpt(8 * i + 7, 8 * i, Eval(keys, n, l, f)) <==>
                  if count == 1 && keys[l].size == 8 then Sized(keys, n, l) else Covers(keys, n, l, 8 * i + 8)))
  {
    var (keys', ls) := UnionStore(keys, n, l, count);
    if l > n { assert WfNode(keys[l], n, l); }
    if keys[l].op.Load? {
      if i < keys[l].l2 { LoadedByte(keys, n, l, i, b, f); }
    } else if count == 1 && keys[l].size == 8 {
      CutWhole(keys, n, l, 1, f);
    } else {
      ExtractsWf(keys, n, l, 0, count);
      BuildStable(keys, keys', n, l);
      ExtractEval(keys', n, ls[i], i, f);
    }
  }

  lemma LoadedByte(keys: seq<Key>, n: nat, l: Label, i: nat, b: Byte, f: File)
    requires WfTable(keys, n) && n < l < |keys| && keys[l].op.Load? && i < keys[l].l2
    ensures
      && keys[l].l1 + i < |keys|
      && (ByteVal(keys, n, keys[l].l1 + i, b, f) == CutOpt(8 * i + 7, 8 * i, Eval(keys, n, l, f)) <==>
            (FromConstant(keys[l]) ==> ByteAt(f, i) == if i == 0 then b else ByteAt(f, i - 1)))
  {
    assert WfNode(keys[l], n, l);
    var off, count := OffsetOf(keys[l].l1), keys[l].l2;
    LoadCovers(keys, n, l);
    LoadEval(keys, n, l, f);
    if keys[l].l1 + i > 0 { InputEval(keys, n, keys[l].l1 + i, f); }
    LoadSlice(off, count, i, f);
    DenoteSort(LoadExpr(off, count), f);
  }

  /** The constant is stored as the constant. */
  lemma StoreConstant(keys: seq<Key>, n: nat, count: nat)
    requires WfTable(keys, n)
    ensures UnionStore(keys, n, 0, count).0 == keys && AllConstant(UnionStore(keys, n, 0, count).1)
  {}

  /** A label's expression exists and is a bit-vector. */
  ghost predicate HasBits(keys: seq<Key>, n: nat, l: Label)
    requires WfTable(keys, n) && l < |keys|
  {
    Build(keys, n, l).Some? && WidthOf(SortOf(Build(keys, n, l).value)).Some?
  }

  /** Bytes from..from+m-1 of the input equal the bytes one before them, with a zero before the first; a part
      that starts there must also be longer than one byte, which would be concrete, and below 32. */
  predicate ReadsPrevious(f: File, from: nat, m: nat) {
    && (forall i | from <= i < from + m :: ByteAt(f, i) == if i == 0 then 0 else ByteAt(f, i - 1))
    && (from == 0 ==> 2 <= m <= 31)
  }

  /** When loading bytes from..from+m-1 of a stored label of count bytes is right: for a Load always, unless
      it starts at the constant, where it reads the input one byte off; for the whole of another label if
      its expression is as wide as recorded; for up to 31 bytes if its expression has them; and for more
      only if there is nothing to denote. */
  ghost predicate SubrangeRight(keys: seq<Key>, n: nat, l: Label, count: nat, from: nat, m: nat, f: File)
    requires WfTable(keys, n) && l < |keys|
  {
    if FromConstant(keys[l]) then ReadsPrevious(f, from, m)
    else if keys[l].op.Load? then true
    else if m == count then Sized(keys, n, l)
    else if m <= 31 then Covers(keys, n, l, 8 * (from + m))
    else !HasBits(keys, n, l)
  }

  /** Loading bytes from..from+m-1 of a stored label denotes that bit slice of it, exactly as the condition
      above says. */
  lemma SubrangeMeans(keys: seq<Key>, n: nat, l: Label, count: nat, from: nat, m: nat, bytes: seq<Byte>, f: File)
    requires WfTable(keys, n) && Distinct(keys, n) && n < l < |keys|
    requires 2 <= count && keys[l].size == 8 * count
    requires 1 <= m == |bytes| && from + m <= count
    ensures
      var (keys', ls) := UnionStore(keys, n, l, count);
      var sub := ls[from..from + m];
      && n < |keys'| && InTable(keys', sub) && ByteWide(keys', sub)
      && (Denotes(keys', n, UnionLoad(keys', n, sub, bytes),
                  CutOpt(8 * (from + m) - 1, 8 * from, Eval(keys, n, l, f)), f)
          <==> SubrangeRight(keys, n, l, count, from, m, f))
  {
    StoredBytes(keys, n, l, count);
    var (keys', ls) := UnionStore(keys, n, l, count);
    BuildStable(keys, keys', n, l);
    assert WfNode(keys[l], n, l);
    if FromConstant(keys[l]) {
      PreviousPart(keys, n, l, count, from, m, bytes, f);
    } else if keys[l].op.Load? {
      LoadedPart(keys, n, l, count, from, m, bytes, f);
    } else if m == count {
      assert ls[from..from + m] == ls;
      StoreLoadIdentity(keys, n, l, count, bytes);
      CutWhole(keys, n, l, count, f);
    } else {
      ConcatenatedPart(keys, n, l, count, from, m, bytes, f);
    }
  }

  lemma CutWhole(keys: seq<Key>, n: nat, l: Label, count: nat, f: File)
    requires WfTable(keys, n) && l < |keys| && count >= 1 && keys[l].size == 8 * count
    ensures Eval(keys, n, l, f) == CutOpt(8 * count - 1, 0, Eval(keys, n, l, f)) <==> Sized(keys, n, l)
  {
    if Build(keys, n, l).Some? {
      EvalSort(keys, n, l, f);
      var v := Eval(keys, n, l, f).value;
      if v.BV? && v.width == 8 * count { CutAll(8 * count, v.val); }
    }
  }

  /** Part of a Load: consecutive input bytes. */
  lemma LoadedPart(keys: seq<Key>, n: nat, l: Label, count: nat, from: nat, m: nat, bytes: seq<Byte>, f: File)
    requires WfTable(keys, n) && Distinct(keys, n) && n < l < |keys|
    requires 2 <= count && keys[l].size == 8 * count && keys[l].op.Load? && keys[l].l1 > 0
    requires 1 <= m == |bytes| && from + m <= count
    ensures
      var (keys', ls) := UnionStore(keys, n, l, count);
      var sub := ls[from..from + m];
      && n < |keys'| && InTable(keys', sub) && ByteWide(keys', sub)
      && Denotes(keys', n, UnionLoad(keys', n, sub, bytes), CutOpt(8 * (from + m) - 1, 8 * from, Eval(keys, n, l, f)), f)
  {
    StoredBytes(keys, n, l, count);
    var (keys', ls) := UnionStore(keys, n, l, count);
    var sub := ls[from..from + m];
    assert WfNode(keys[l], n, l);
    LoadCovers(keys, n, l);
    assert forall i | 0 <= i < m :: sub[i] == keys[l].l1 + from + i <= n;
    SubrangeValue(keys, n, l, count, from, m, bytes, f);
    assert ShapeTest(keys, sub) && Clean(keys, n, sub);
    LoadMeans(keys', n, sub, bytes, f);
  }

  /** A part of consecutive input bytes is the load of that part. */
  lemma {:induction false} LoadCut(off: nat, count: nat, from: nat, m: nat, f: File)
    requires 1 <= m && from + m <= count
    ensures Denote(LoadExpr(off + from, m), f) == CutBits(8 * (from + m) - 1, 8 * from, Denote(LoadExpr(off, count), f))
    decreases m
  {
    var v := Denote(LoadExpr(off, count), f);
    LoadSlice(off, count, from + m - 1, f);
    if m > 1 {
      LoadCut(off, count, from, m - 1, f);
      JoinCuts(8 * (from + m) - 1, 8 * (from + m - 1), 8 * from, v);
      assert Denote(LoadExpr(off + from, m), f)
          == JoinBits(BV(8, ByteAt(f, off + from + m - 1)), Denote(LoadExpr(off + from, m - 1), f));
    }
  }

  lemma ConstantLoadCut(keys: seq<Key>, n: nat, l: Label, from: nat, m: nat, f: File)
    requires WfTable(keys, n) && n < l < |keys| && FromConstant(keys[l]) && 1 <= m && 8 * (from + m) <= keys[l].size
    ensures CutOpt(8 * (from + m) - 1, 8 * from, Eval(keys, n, l, f)) == Some(Denote(LoadExpr(from, m), f))
  {
    assert WfNode(keys[l], n, l);
    var count := keys[l].l2;
    LoadEval(keys, n, l, f);
    LoadExprSort(0, count);
    DenoteSort(LoadExpr(0, count), f);
    LoadCut(0, count, from, m, f);
  }

  /** Part of a Load that starts at the constant. */
  lemma PreviousPart(keys: seq<Key>, n: nat, l: Label, count: nat, from: nat, m: nat, bytes: seq<Byte>, f: File)
    requires WfTable(keys, n) && Distinct(keys, n) && n < l < |keys|
    requires 2 <= count && keys[l].size == 8 * count && FromConstant(keys[l])
    requires 1 <= m == |bytes| && from + m <= count
    ensures
      var (keys', ls) := UnionStore(keys, n, l, count);
      var sub := ls[from..from + m];
      && n < |keys'| && InTable(keys', sub) && ByteWide(keys', sub)
      && (Denotes(keys', n, UnionLoad(keys', n, sub, bytes),
                  CutOpt(8 * (from + m) - 1, 8 * from, Eval(keys, n, l, f)), f)
          <==> ReadsPrevious(f, from, m))
  {
    StoredBytes(keys, n, l, count);
    var (keys', ls) := UnionStore(keys, n, l, count);
    var sub := ls[from..from + m];
    ConstantLoadCut(keys, n, l, from, m, f);
    assert Counts(sub, from, n);
    if from > 0 {
      InputsBefore(keys, n, sub, bytes, from, f);
    } else {
      ConstantBefore(keys, n, sub, bytes, f);
    }
  }

  /** Consecutive labels, none created. */
  predicate Counts(sub: seq<Label>, from: nat, n: nat) {
    forall i | 0 <= i < |sub| :: sub[i] == from + i <= n
  }

  /** Input bytes from-1 on, taken for those from from on. */
  lemma InputsBefore(keys: seq<Key>, n: nat, sub: seq<Label>, bytes: seq<Byte>, from: nat, f: File)
    requires Range(keys, n, sub, bytes) && from > 0 && Counts(sub, from, n)
    ensures Denotes(keys, n, UnionLoad(keys, n, sub, bytes), Some(Denote(LoadExpr(from, |sub|), f)), f)
            <==> ReadsPrevious(f, from, |sub|)
  {
    var m := |sub|;
    forall i | 0 <= i < m ensures ByteVal(keys, n, sub[i], bytes[i], f) == Some(BV(8, ByteAt(f, from + i - 1))) {
      InputEval(keys, n, sub[i], f);
    }
    assert sub[0] == from && ShapeTest(keys, sub) && Clean(keys, n, sub);
    LoadMeans(keys, n, sub, bytes, f);
    CompareWithFile(keys, n, sub, bytes, from, m, f);
    if ReadsFile(keys, n, sub, bytes, from, m, f) {
      forall i | from <= i < from + m ensures ByteAt(f, i) == ByteAt(f, i - 1) {
        assert sub[i - from] == i;
      }
    }
  }

  /** A concrete byte and input bytes 0 on, taken for those from 0 on. */
  lemma ConstantBefore(keys: seq<Key>, n: nat, sub: seq<Label>, bytes: seq<Byte>, f: File)
    requires Range(keys, n, sub, bytes) && Counts(sub, 0, n)
    ensures Denotes(keys, n, UnionLoad(keys, n, sub, bytes), Some(Denote(LoadExpr(0, |sub|), f)), f)
            <==> ReadsPrevious(f, 0, |sub|)
  {
    var m := |sub|;
    assert sub[0] == 0;
    if m > 1 {
      assert sub[1] == 1 && FirstTainted(sub, 1);
      assert keys[sub[1]].op1 == 0 && TakesSlowPath(keys, sub);
      ConcreteStartSlow(keys, n, sub, bytes, 1, f);
      WrapCases(1, m);
      ZeroBefore(keys, n, sub, bytes, m, f);
    }
  }

  lemma ZeroBefore(keys: seq<Key>, n: nat, sub: seq<Label>, bytes: seq<Byte>, m: nat, f: File)
    requires WfTable(keys, n) && InTable(keys, sub) && 2 <= m == |sub| == |bytes|
    requires Counts(sub, 0, n)
    ensures Joined(keys, n, sub, bytes, 1, LostBytes(1), m, f) == Some(Denote(LoadExpr(0, m), f))
            <==> forall i | 0 <= i < m :: ByteAt(f, i) == if i == 0 then 0 else ByteAt(f, i - 1)
  {
    var zeroed := bytes[0 := 0];
    SameJoined(keys, n, sub, bytes, zeroed, m, f);
    forall i | 0 <= i < m
      ensures ByteVal(keys, n, sub[i], zeroed[i], f) == Some(BV(8, if i == 0 then 0 else ByteAt(f, i - 1)))
    {
      if i > 0 { InputEval(keys, n, sub[i], f); }
    }
    CompareWithFile(keys, n, sub, zeroed, 0, m, f);
    if ReadsFile(keys, n, sub, zeroed, 0, m, f) {
      forall i | 0 <= i < m ensures ByteAt(f, i) == if i == 0 then 0 else ByteAt(f, i - 1) {
        assert sub[i] == i;
      }
    }
  }

  /** With the first byte given, only the others matter. */
  lemma {:induction false} SameJoined(keys: seq<Key>, n: nat, sub: seq<Label>, bytes: seq<Byte>, zeroed: seq<Byte>, m: nat, f: File)
    requires WfTable(keys, n) && InTable(keys, sub) && 1 <= m <= |sub| == |bytes| && sub[0] == 0
    requires zeroed == bytes[0 := 0]
    ensures Joined(keys, n, sub, bytes, 1, LostBytes(1), m, f) == LoadedValue(keys, n, sub, zeroed, m, f)
    decreases m
  {
    if m > 1 {
      SameJoined(keys, n, sub, bytes, zeroed, m - 1, f);
      JoinedUnfold(keys, n, sub, bytes, 1, LostBytes(1), m, f);
      LoadedUnfold(keys, n, sub, zeroed, m, f);
    }
  }

  /** Part of another label: extracts that are concatenated. */
  lemma ConcatenatedPart(keys: seq<Key>, n: nat, l: Label, count: nat, from: nat, m: nat, bytes: seq<Byte>, f: File)
    requires WfTable(keys, n) && Distinct(keys, n) && n < l < |keys|
    requires 2 <= count && keys[l].size == 8 * count && !keys[l].op.Load?
    requires 1 <= m == |bytes| && from + m <= count && m < count
    ensures
      var (keys', ls) := UnionStore(keys, n, l, count);
      var sub := ls[from..from + m];
      && n < |keys'| && InTable(keys', sub) && ByteWide(keys', sub)
      && (Denotes(keys', n, UnionLoad(keys', n, sub, bytes),
                  CutOpt(8 * (from + m) - 1, 8 * from, Eval(keys, n, l, f)), f)
          <==> SubrangeRight(keys, n, l, count, from, m, f))
  {
    StoredBytes(keys, n, l, count);
    var (keys', ls) := UnionStore(keys, n, l, count);
    var sub := ls[from..from + m];
    assert WfNode(keys[l], n, l);
    PartIsSlow(keys', n, l, ls, from, m, bytes);
    EvalHasBits(keys, n, l, f);
    if m <= 31 {
      LoadMeans(keys', n, sub, bytes, f);
      if Covers(keys, n, l, 8 * (from + m)) {
        SubrangeValue(keys, n, l, count, from, m, bytes, f);
      } else {
        SubrangeNone(keys, n, l, count, from, m, bytes, f);
      }
    } else {
      LongLoadHasNoValue(keys', n, sub, bytes, f);
    }
  }

  lemma EvalHasBits(keys: seq<Key>, n: nat, l: Label, f: File)
    requires WfTable(keys, n) && l < |keys|
    ensures Eval(keys, n, l, f).Some? && Eval(keys, n, l, f).value.BV? <==> HasBits(keys, n, l)
  {
    if Build(keys, n, l).Some? { EvalSort(keys, n, l, f); }
  }

  lemma PartIsSlow(keys: seq<Key>, n: nat, l: Label, ls: seq<Label>, from: nat, m: nat, bytes: seq<Byte>)
    requires WfTable(keys, n) && Distinct(keys, n) && InTable(keys, ls) && l < |keys| && |ls| < 0x2000
    requires keys[l].size == 8 * |ls| && 1 <= m == |bytes| && from + m <= |ls| && m < |ls|
    requires forall i | 0 <= i < |ls| :: ls[i] > n && keys[ls[i]] == Key(l, 0, Extract, 8, 0, i * 8)
    ensures
      var sub := ls[from..from + m];
      Shadow(keys, n, sub, bytes) && Bytes8(keys, sub) && sub[0] != 0 && TakesSlowPath(keys, sub)
  {
    var sub := ls[from..from + m];
    assert forall i | 0 <= i < m :: sub[i] == ls[from + i];
    assert sub[0] == ls[from] && keys[sub[0]] == Key(l, 0, Extract, 8, 0, from * 8);
  }

  lemma SubrangeValue(keys: seq<Key>, n: nat, l: Label, count: nat, from: nat, m: nat, bytes: seq<Byte>, f: File)
    requires WfTable(keys, n) && Distinct(keys, n) && n < l < |keys|
    requires 2 <= count && keys[l].size == 8 * count && !FromConstant(keys[l])
    requires 1 <= m == |bytes| && from + m <= count && Covers(keys, n, l, 8 * (from + m))
    ensures
      var (keys', ls) := UnionStore(keys, n, l, count);
      var sub := ls[from..from + m];
      && WfTable(keys', n) && InTable(keys', sub)
      && LoadedValue(keys', n, sub, bytes, m, f) == CutOpt(8 * (from + m) - 1, 8 * from, Eval(keys, n, l, f))
  {
    StoredBytes(keys, n, l, count);
    var (keys', ls) := UnionStore(keys, n, l, count);
    var v := Eval(keys, n, l, f);
    forall i | 0 <= i < from + m ensures ls[i] != 0 && Eval(keys', n, ls[i], f) == CutOpt(8 * i + 7, 8 * i, v) {
      if l > n { assert WfNode(keys[l], n, l); }
      StoredByteMeans(keys, n, l, count, i, 0, f);
    }
    SubrangeOfBytes(keys', n, ls, from, m, bytes, v, f);
  }

  lemma SubrangeOfBytes(keys: seq<Key>, n: nat, ls: seq<Label>, from: nat, m: nat, bytes: seq<Byte>, v: Option<Value>, f: File)
    requires WfTable(keys, n) && InTable(keys, ls) && 1 <= m == |bytes| && from + m <= |ls|
    requires forall i | 0 <= i < from + m :: ls[i] != 0 && Eval(keys, n, ls[i], f) == CutOpt(8 * i + 7, 8 * i, v)
    ensures
      var sub := ls[from..from + m];
      InTable(keys, sub) && LoadedValue(keys, n, sub, bytes, m, f) == CutOpt(8 * (from + m) - 1, 8 * from, v)
  {
    var sub := ls[from..from + m];
    forall i | 0 <= i < m
      ensures ByteVal(keys, n, sub[i], bytes[i], f) == CutOpt(8 * (from + i) + 7, 8 * (from + i), v)
    {
      assert sub[i] == ls[from + i];
    }
    JoinSlices(keys, n, sub, bytes, m, from, v, f);
  }

  /** A part that reaches past the label's expression has no value. */
  lemma SubrangeNone(keys: seq<Key>, n: nat, l: Label, count: nat, from: nat, m: nat, bytes: seq<Byte>, f: File)
    requires WfTable(keys, n) && Distinct(keys, n) && n < l < |keys|
    requires 2 <= count && keys[l].size == 8 * count && !keys[l].op.Load?
    requires 1 <= m == |bytes| && from + m <= count && !Covers(keys, n, l, 8 * (from + m))
    ensures
      var (keys', ls) := UnionStore(keys, n, l, count);
      var sub := ls[from..from + m];
      WfTable(keys', n) && InTable(keys', sub) && LoadedValue(keys', n, sub, bytes, m, f).None?
  {
    StoredBytes(keys, n, l, count);
    var (keys', ls) := UnionStore(keys, n, l, count);
    var sub := ls[from..from + m];
    var last := from + m - 1;
    assert WfNode(keys[l], n, l);
    assert sub[m - 1] == ls[last] != 0;
    BuildStable(keys, keys', n, l);
    PastExtract(keys', n, ls[last], last);
    LoadedIsValued(keys', n, sub, bytes, m, f);
    assert ByteVal(keys', n, sub[m - 1], bytes[m - 1], f).None?;
  }

  lemma PastExtract(keys: seq<Key>, n: nat, l: Label, j: nat)
    requires WfTable(keys, n) && n < l < |keys| && keys[l].op.Extract? && keys[l].size == 8 && keys[l].op2 == 8 * j < 0x1_0000
    requires !Covers(keys, n, keys[l].l1, 8 * j + 8)
    ensures Build(keys, n, l).None?
  {
    BuildUnfold(keys, n, l);
    BuildSorted(keys, n, keys[l].l1);
    ByteSlice(Build(keys, n, keys[l].l1).value, j);
  }

  // ---------------------------------------------------------------- untainted loads

  /** A single byte cut from the constant, a label that no store creates. */
  predicate CutsConstant(keys: seq<Key>, ls: seq<Label>)
    requires InTable(keys, ls)
  {
    |ls| == 1 && keys[ls[0]].op.Extract? && keys[ls[0]].l1 == 0 && keys[ls[0]].op2 == 0 && keys[ls[0]].size == 8
  }

  /** A load is untainted exactly when all its bytes are, or it is one byte cut from the constant, and then leaves
      the table alone. */
  lemma UntaintedLoad(keys: seq<Key>, n: nat, ls: seq<Label>, bytes: seq<Byte>)
    requires Range(keys, n, ls, bytes)
    ensures UnionLoad(keys, n, ls, bytes).1 == 0 <==> AllConstant(ls) || CutsConstant(keys, ls)
    ensures UnionLoad(keys, n, ls, bytes).1 == 0 ==> UnionLoad(keys, n, ls, bytes).0 == keys
  {
    ExtractOfConstant(keys, n, ls);
    if AllConstant(ls) || ShapeTest(keys, ls) {
      if !AllConstant(ls) && |ls| == 1 { assert ls[0] != 0; }
    } else if ExtractTest(keys, ls) {
    } else if ls[0] != 0 {
      SlowTainted(keys, n, ls[0], keys[ls[0]].size / 8, ls, bytes);
    } else {
      SlowTainted(keys, n, 0, 1, ls, bytes);
    }
  }

  lemma ExtractOfConstant(keys: seq<Key>, n: nat, ls: seq<Label>)
    requires WfTable(keys, n) && |ls| >= 1 && InTable(keys, ls)
    ensures CutsConstant(keys, ls) <==> ExtractTest(keys, ls) && keys[ls[0]].l1 == 0
  {
    assert keys[0].size == 8;
    if |ls| == 1 && keys[ls[0]].op.Extract? && keys[ls[0]].l1 == 0 {
      assert ExtractRun(keys, ls, 0, 0, 0) == if keys[ls[0]].op2 == 0 then ExtractRun(keys, ls, 0, 1, keys[ls[0]].size) else 0;
    }
  }

  /** The concatenation is tainted from its first tainted byte on. */
  lemma {:induction false} SlowTainted(keys: seq<Key>, n: nat, lbl: Label, i: nat, ls: seq<Label>, bytes: seq<Byte>)
    requires WfTable(keys, n) && Distinct(keys, n) && lbl < |keys| && |bytes| == |ls| && InTable(keys, ls) && ByteWide(keys, ls)
    ensures Slow(keys, n, lbl, i, ls, bytes).1 != 0 <==> lbl != 0 || exists j :: i <= j < |ls| && ls[j] != 0
    ensures Slow(keys, n, lbl, i, ls, bytes).1 == 0 ==> Slow(keys, n, lbl, i, ls, bytes).0 == keys
    decreases |ls| - i
  {
    if i < |ls| {
      SlowStepWf(keys, n, lbl, i, ls, bytes);
      SlowUnfold(keys, n, lbl, i, ls, bytes);
      var (keys', l, i') := SlowStep(keys, n, lbl, i, ls, bytes);
      assert l == 0 <==> lbl == 0 && ls[i] == 0;
      SlowTainted(keys', n, l, i', ls, bytes);
    }
  }
}
