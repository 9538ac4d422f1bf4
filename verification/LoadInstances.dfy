/** Concrete tables on which loads and stores go wrong, one for each way they can. */
module LoadInstances {
  import opened Arith
  import opened Options
  import opened Expressions
  import opened Labels
  import opened LoadStore
  import opened LoadMeaning
  import opened LoadTheorems

  // ---------------------------------------------------------------- the shape test

  /** Two input bytes and the label of 1 + (byte 0). */
  function ConfusedTable(): seq<Key> {
    [InputKey(0), InputKey(0), InputKey(1), Key(0, 1, Add, 8, 1, 0)]
  }

  lemma SumValue(f: File)
    requires ByteAt(f, 0) == 0
    ensures WfTable(ConfusedTable(), 2) && Eval(ConfusedTable(), 2, 3, f) == Some(BV(8, 1))
  {
    var keys := ConfusedTable();
    assert WfNode(keys[3], 2, 3);
    BuildUnfold(keys, 2, 3);
    BuildUnfold(keys, 2, 1);
    assert Pow2(8) == 256 by { Pow2Values(); }
    assert Build(keys, 2, 3) == Some(Bin(BvAdd, BVConst(8, 1), Sym(0)));
    assert Denote(BVConst(8, 1), f) == BV(8, 1) && Denote(Sym(0), f) == BV(8, 0);
    assert Apply(BvAdd, 8, 1, 0) == 1;
  }

  /** The test compares first operands only, so a sum with the right constant is taken for an input
      byte: here byte 0 followed by 1 + (byte 0) loads as the file's two bytes. */
  lemma ShapeConfusion(f: File)
    requires f == [0, 5]
    ensures
      var keys, ls := ConfusedTable(), [1, 3];
      && WfTable(keys, 2) && ShapeTest(keys, ls) && !Clean(keys, 2, ls)
      && var r := UnionLoad(keys, 2, ls, [0, 1]);
         WfTable(r.0, 2) && r.1 < |r.0| && Eval(r.0, 2, r.1, f) != LoadedValue(keys, 2, ls, [0, 1], 2, f)
  {
    var keys, ls: seq<Label>, bytes: seq<Byte> := ConfusedTable(), [1, 3], [0, 1];
    SumValue(f);
    InputEval(keys, 2, 1, f);
    assert ls[1] == 3;
    ShapeExact(keys, 2, ls, bytes, f);
    assert ByteVal(keys, 2, ls[1], bytes[1], f) != Some(BV(8, ByteAt(f, 0 + 1)));
  }

  /** A file of one byte and the label of 1 + (byte 0). */
  function ShortTable(): seq<Key> {
    [InputKey(0), InputKey(0), Key(0, 1, Add, 8, 1, 0)]
  }

  /** The same confusion past the end of the file: the load asks for a second byte of a one-byte file. */
  lemma PastEndConfusion()
    ensures
      var keys, ls := ShortTable(), [1, 2];
      && Range(keys, 1, ls, [0, 1]) && ShapeTest(keys, ls) && !InFile(keys, 1, ls)
      && !WfTable(UnionLoad(keys, 1, ls, [0, 1]).0, 1)
  {
    var keys, ls: seq<Label>, bytes: seq<Byte> := ShortTable(), [1, 2], [0, 1];
    assert WfNode(keys[2], 1, 2);
    assert ls[0] == 1 && ls[1] == 2;
    assert !AllConstant(ls);
    PastEndLoad(keys, 1, 1, 2);
  }

  // ---------------------------------------------------------------- concrete bytes at the start

  /** A file of two bytes and nothing else. */
  function PlainTable(): seq<Key> {
    [InputKey(0), InputKey(0), InputKey(1)]
  }

  /** A concrete 7 followed by byte 1: the shape test reads byte 0 in place of the 7. */
  lemma SevenReadFromFile(f: File)
    requires f == [0, 5]
    ensures
      var keys, ls := PlainTable(), [0, 2];
      && Shadow(keys, 2, ls, [7, 5]) && ShapeTest(keys, ls)
      && var r := UnionLoad(keys, 2, ls, [7, 5]);
         WfTable(r.0, 2) && r.1 < |r.0| && Eval(r.0, 2, r.1, f) != LoadedValue(keys, 2, ls, [7, 5], 2, f)
  {
    var keys, ls: seq<Label>, bytes: seq<Byte> := PlainTable(), [0, 2], [7, 5];
    assert ls[0] == 0 && ls[1] == 2;
    assert bytes[0] == 7;
    ConcreteStartShape(keys, 2, ls, bytes, f);
  }

  /** A concrete 7 followed by byte 0 is concatenated: zero stands for the 7. */
  lemma SevenReadAsZero(f: File)
    ensures
      var keys, ls := PlainTable(), [0, 1];
      && Range(keys, 2, ls, [7, 0]) && TakesSlowPath(keys, ls)
      && !Denotes(keys, 2, UnionLoad(keys, 2, ls, [7, 0]), LoadedValue(keys, 2, ls, [7, 0], 2, f), f)
  {
    var keys, ls: seq<Label>, bytes: seq<Byte> := PlainTable(), [0, 1], [7, 0];
    assert ls[0] == 0 && ls[1] == 1;
    assert FirstTainted(ls, 1);
    InputEval(keys, 2, 1, f);
    assert bytes[0] == 7 && !ZeroBytes(bytes, 1);
    ConcreteStartExact(keys, 2, ls, bytes, 1, f);
  }

  // ---------------------------------------------------------------- widths

  /** Byte 0 thirty-two times: every byte has a value and the load has none. */
  lemma ThirtyTwoBytes(f: File)
    ensures
      var keys, ls, bytes := PlainTable(), seq(32, i => 1 as Label), seq(32, i => 0 as Byte);
      && Range(keys, 2, ls, bytes) && Valued(keys, 2, ls, bytes, 32, f)
      && Denotes(keys, 2, UnionLoad(keys, 2, ls, bytes), None, f)
  {
    var keys, ls, bytes := PlainTable(), seq(32, i => 1 as Label), seq(32, i => 0 as Byte);
    InputEval(keys, 2, 1, f);
    assert ls[0] == 1 && ls[1] == 1;
    LongLoadHasNoValue(keys, 2, ls, bytes, f);
  }

  /** Sixteen input bytes, the two loads of eight of them, their comparison as memcmp records it, with
      the number of bytes as its size, and its lowest byte. */
  function CompareTable(): (keys: seq<Key>)
    ensures |keys| == 21
    ensures forall k | 0 <= k <= 16 :: keys[k] == InputKey(OffsetOf(k))
    ensures keys[17] == Key(1, 8, Load, 64, 0, 0) && keys[18] == Key(9, 8, Load, 64, 0, 0)
    ensures keys[19] == Key(17, 18, FMemcmp, 8, 0, 0) && keys[20] == Key(19, 0, Extract, 8, 0, 0)
  {
    seq(17, k requires 0 <= k => InputKey(OffsetOf(k)))
    + [Key(1, 8, Load, 64, 0, 0), Key(9, 8, Load, 64, 0, 0), Key(17, 18, FMemcmp, 8, 0, 0), Key(19, 0, Extract, 8, 0, 0)]
  }

  lemma CompareTableWf()
    ensures WfTable(CompareTable(), 16) && Distinct(CompareTable(), 16)
  {
    var keys := CompareTable();
    forall k | 16 < k < |keys| ensures WfNode(keys[k], 16, k) {
      assert k == 17 || k == 18 || k == 19 || k == 20;
    }
  }

  /** The comparison is 32 bits wide although its record says eight. */
  lemma CompareNotSized()
    ensures WfTable(CompareTable(), 16) && !Sized(CompareTable(), 16, 19)
  {
    var keys := CompareTable();
    CompareTableWf();
    BuildUnfold(keys, 16, 19);
    LoadCovers(keys, 16, 17);
    LoadCovers(keys, 16, 18);
    assert Build(keys, 16, 19) == Some(BytesDiffer(LoadExpr(0, 8), LoadExpr(8, 8)));
  }

  /** Loading the lowest byte of the result of a comparison of eight bytes returns the whole result: on
      every input the load has a wrong value. */
  lemma LowByteOfComparison(f: File)
    ensures
      var keys, ls := CompareTable(), [20];
      && Shadow(keys, 16, ls, [0]) && Bytes8(keys, ls) && ExtractTest(keys, ls)
      && var r := UnionLoad(keys, 16, ls, [0]);
         r == (keys, 19) && Eval(keys, 16, 19, f) != LoadedValue(keys, 16, ls, [0], 1, f)
  {
    var keys, ls: seq<Label>, bytes: seq<Byte> := CompareTable(), [20], [0];
    CompareNotSized();
    assert ls[0] == 20;
    assert ExtractRun(keys, ls, 19, 0, 0) == ExtractRun(keys, ls, 19, 1, 8) == 8;
    ExtractExact(keys, 16, ls, bytes, f);
  }

  // ---------------------------------------------------------------- store, then load

  /** Two input bytes and the Load of both that starts at the constant. */
  function ConstantLoadTable(): seq<Key> {
    [InputKey(0), InputKey(0), InputKey(1), Key(0, 2, Load, 16, 0, 0)]
  }

  /** It is stored as the constant and byte 0, and another label comes back. */
  lemma ConstantLoadIsLost(bytes: seq<Byte>)
    requires |bytes| == 2
    ensures
      var keys := ConstantLoadTable();
      && WfTable(keys, 2) && UnionStore(keys, 2, 3, 2) == (keys, [0, 1])
      && UnionLoad(keys, 2, [0, 1], bytes).1 != 3
  {
    var keys := ConstantLoadTable();
    assert WfNode(keys[3], 2, 3);
    StoreLoadBroken(keys, 2, 3, 2, bytes);
    assert UnionStore(keys, 2, 3, 2).1 == [0, 1];
  }
}
