/** Joining the labels of consecutive shadow bytes into one label, and splitting a label into bytes. */
module LoadStore {
  import opened Options
  import opened Expressions
  import opened Labels

  function U16(x: nat): nat { x % 0x1_0000 }

  /** A char argument widened to 64 bits. */
  function SignExtendByte(b: Byte): nat {
    if b < 128 then b else 0xFFFF_FFFF_FFFF_FF00 + b
  }

  predicate InTable(keys: seq<Key>, ls: seq<Label>) {
    forall i | 0 <= i < |ls| :: ls[i] < |keys|
  }

  /** Shadow labels are at least a byte wide; a narrower one would keep the load from advancing. */
  predicate ByteWide(keys: seq<Key>, ls: seq<Label>)
    requires InTable(keys, ls)
  {
    forall i | 0 <= i < |ls| :: keys[ls[i]].size >= 8
  }

  // ---------------------------------------------------------------- loading

  /** The labels look like consecutive raw input bytes. Only op1 of the later ones is compared. */
  predicate ShapeTest(keys: seq<Key>, ls: seq<Label>)
    requires |ls| >= 1 && InTable(keys, ls)
  {
    && keys[ls[0]].op.Input?
    && forall i | 1 <= i < |ls| :: keys[ls[i]].op1 == keys[ls[0]].op1 + i
  }

  /** Bits covered by the leading run of labels cut in order from one parent. */
  function ExtractRun(keys: seq<Key>, ls: seq<Label>, parent: Label, i: nat, offset: nat): nat
    requires i <= |ls| && InTable(keys, ls)
    decreases |ls| - i
  {
    if i == |ls| then offset
    else
      var key := keys[ls[i]];
      if !key.op.Extract? || offset != key.op2 || parent != key.l1 then offset
      else ExtractRun(keys, ls, parent, i + 1, offset + key.size)
  }

  predicate ExtractTest(keys: seq<Key>, ls: seq<Label>)
    requires |ls| >= 1 && InTable(keys, ls)
  {
    var key := keys[ls[0]];
    && key.op.Extract? && key.l1 < |keys|
    && keys[key.l1].size == ExtractRun(keys, ls, key.l1, 0, 0) == |ls| * 8
  }

  /** One turn of the byte-by-byte concatenation: table, label and next byte. */
  ghost function SlowStep(keys: seq<Key>, n: nat, lbl: Label, i: nat, ls: seq<Label>, bytes: seq<Byte>)
    : (r: (seq<Key>, Label, nat))
    requires n < |keys| && |bytes| == |ls| && i < |ls|
    requires InTable(keys, ls) && ByteWide(keys, ls)
    ensures keys <= r.0 && i < r.2
  {
    var next := ls[i];
    var size := keys[next].size;
    if next == CONST_LABEL then
      var (keys', l) := Union(keys, n, Call(lbl, 0, Concat, U16((i + 1) * 8), 0, SignExtendByte(bytes[i])));
      (keys', l, i + 1)
    else if size <= (|ls| - i) * 8 then
      var i' := i + size / 8;
      var (keys', l) := Union(keys, n, Call(lbl, next, Concat, U16(i' * 8), 0, 0));
      (keys', l, i')
    else
      var (keys', trunc) := Union(keys, n, Call(next, CONST_LABEL, Trunc, U16((|ls| - i) * 8), 0, 0));
      var (keys'', l) := Union(keys', n, Call(lbl, trunc, Concat, U16(|ls| * 8), 0, 0));
      (keys'', l, |ls|)
  }

  /** Byte-by-byte concatenation from byte i on. */
  ghost function Slow(keys: seq<Key>, n: nat, lbl: Label, i: nat, ls: seq<Label>, bytes: seq<Byte>): (seq<Key>, Label)
    requires n < |keys| && |bytes| == |ls|
    requires InTable(keys, ls) && ByteWide(keys, ls)
    decreases |ls| - i, 2
  {
    if i >= |ls| then (keys, lbl) else SlowMore(keys, n, lbl, i, ls, bytes)
  }

  ghost function SlowMore(keys: seq<Key>, n: nat, lbl: Label, i: nat, ls: seq<Label>, bytes: seq<Byte>): (seq<Key>, Label)
    requires n < |keys| && |bytes| == |ls| && i < |ls|
    requires InTable(keys, ls) && ByteWide(keys, ls)
    decreases |ls| - i, 1
  {
    SlowFrom(keys, n, SlowStep(keys, n, lbl, i, ls, bytes), i, ls, bytes)
  }

  ghost function SlowFrom(keys: seq<Key>, n: nat, r: (seq<Key>, Label, nat), i: nat, ls: seq<Label>, bytes: seq<Byte>)
    : (seq<Key>, Label)
    requires n < |keys| && |bytes| == |ls| && i < |ls|
    requires InTable(keys, ls) && ByteWide(keys, ls) && keys <= r.0 && i < r.2
    decreases |ls| - i, 0
  {
    Slow(r.0, n, r.1, r.2, ls, bytes)
  }

  lemma SlowUnfold(keys: seq<Key>, n: nat, lbl: Label, i: nat, ls: seq<Label>, bytes: seq<Byte>)
    requires n < |keys| && |bytes| == |ls| && i < |ls|
    requires InTable(keys, ls) && ByteWide(keys, ls)
    ensures
      var (keys', l, i') := SlowStep(keys, n, lbl, i, ls, bytes);
      Slow(keys, n, lbl, i, ls, bytes) == Slow(keys', n, l, i', ls, bytes)
  {
    var r := SlowStep(keys, n, lbl, i, ls, bytes);
    assert Slow(keys, n, lbl, i, ls, bytes) == SlowMore(keys, n, lbl, i, ls, bytes);
    assert SlowMore(keys, n, lbl, i, ls, bytes) == SlowFrom(keys, n, r, i, ls, bytes);
  }

  predicate AllConstant(ls: seq<Label>) {
    forall i | 0 <= i < |ls| :: ls[i] == CONST_LABEL
  }

  /** Table and label after loading the bytes whose labels are ls and whose concrete values are
      bytes. */
  ghost function UnionLoad(keys: seq<Key>, n: nat, ls: seq<Label>, bytes: seq<Byte>): (seq<Key>, Label)
    requires n < |keys| && |bytes| == |ls| >= 1
    requires InTable(keys, ls) && ByteWide(keys, ls)
  {
    if AllConstant(ls) then (keys, CONST_LABEL)
    else if ShapeTest(keys, ls) then
      if |ls| == 1 then (keys, ls[0])
      else Union(keys, n, Call(ls[0], |ls|, Load, U16(|ls| * 8), 0, 0))
    else if ExtractTest(keys, ls) then (keys, keys[ls[0]].l1)
    else Slow(keys, n, ls[0], keys[ls[0]].size / 8, ls, bytes)
  }

  // ---------------------------------------------------------------- storing

  /** Labels for bytes i..count-1 cut out of l. */
  ghost function Extracts(keys: seq<Key>, n: nat, l: Label, i: nat, count: nat): (r: (seq<Key>, seq<Label>))
    requires n < |keys| && i <= count
    ensures |r.1| == count - i && keys <= r.0
    decreases count - i
  {
    if i == count then (keys, [])
    else
      var (keys', e) := Union(keys, n, Call(l, CONST_LABEL, Extract, 8, 0, i * 8));
      var (keys'', es) := Extracts(keys', n, l, i + 1, count);
      (keys'', [e] + es)
  }

  /** Table and shadow bytes after storing label l into count bytes. */
  ghost function UnionStore(keys: seq<Key>, n: nat, l: Label, count: nat): (r: (seq<Key>, seq<Label>))
    requires n < |keys| && l < |keys|
    ensures |r.1| == count && keys <= r.0
  {
    if l == CONST_LABEL then (keys, seq(count, i => CONST_LABEL))
    else if count == 1 && keys[l].size == 8 then (keys, [l])
    else if keys[l].op.Load? then (keys, seq(count, i requires 0 <= i => keys[l].l1 + i))
    else Extracts(keys, n, l, 0, count)
  }

  // ---------------------------------------------------------------- what a load should mean

  /** Value of one shadow byte: its label's, or the concrete byte. */
  function ByteVal(keys: seq<Key>, n: nat, l: Label, b: Byte, f: File): Option<Value>
    requires WfTable(keys, n) && l < |keys|
  {
    if l == CONST_LABEL then Some(BV(8, b)) else Eval(keys, n, l, f)
  }

  function JoinOpt(hi: Option<Value>, lo: Option<Value>): Option<Value> {
    if hi.Some? && lo.Some? && hi.value.BV? && lo.value.BV? then Some(JoinBits(hi.value, lo.value)) else None
  }

  /** Bytes m..count-1 joined above a value for the bytes before them. */
  function Joined(keys: seq<Key>, n: nat, ls: seq<Label>, bytes: seq<Byte>, m: nat, base: Option<Value>, count: nat,
                  f: File): Option<Value>
    requires WfTable(keys, n) && m <= count <= |ls| == |bytes| && InTable(keys, ls)
    decreases count, 2
  {
    if count == m then base else JoinedMore(keys, n, ls, bytes, m, base, count, f)
  }

  function JoinedMore(keys: seq<Key>, n: nat, ls: seq<Label>, bytes: seq<Byte>, m: nat, base: Option<Value>, count: nat,
                      f: File): Option<Value>
    requires WfTable(keys, n) && m < count <= |ls| == |bytes| && InTable(keys, ls)
    decreases count, 1
  {
    JoinedTop(keys, n, ls, bytes, m, base, count, f, ByteVal(keys, n, ls[count - 1], bytes[count - 1], f))
  }

  function JoinedTop(keys: seq<Key>, n: nat, ls: seq<Label>, bytes: seq<Byte>, m: nat, base: Option<Value>, count: nat,
                     f: File, top: Option<Value>): Option<Value>
    requires WfTable(keys, n) && m < count <= |ls| == |bytes| && InTable(keys, ls)
    decreases count, 0
  {
    JoinOpt(top, Joined(keys, n, ls, bytes, m, base, count - 1, f))
  }

  lemma JoinedUnfold(keys: seq<Key>, n: nat, ls: seq<Label>, bytes: seq<Byte>, m: nat, base: Option<Value>, count: nat,
                     f: File)
    requires WfTable(keys, n) && m < count <= |ls| == |bytes| && InTable(keys, ls)
    ensures Joined(keys, n, ls, bytes, m, base, count, f)
         == JoinOpt(ByteVal(keys, n, ls[count - 1], bytes[count - 1], f),
                    Joined(keys, n, ls, bytes, m, base, count - 1, f))
  {
    var top := ByteVal(keys, n, ls[count - 1], bytes[count - 1], f);
    assert Joined(keys, n, ls, bytes, m, base, count, f) == JoinedMore(keys, n, ls, bytes, m, base, count, f);
    assert JoinedMore(keys, n, ls, bytes, m, base, count, f) == JoinedTop(keys, n, ls, bytes, m, base, count, f, top);
  }

  /** Little-endian concatenation of the first count byte values. */
  function LoadedValue(keys: seq<Key>, n: nat, ls: seq<Label>, bytes: seq<Byte>, count: nat, f: File): Option<Value>
    requires WfTable(keys, n) && 1 <= count <= |ls| == |bytes| && InTable(keys, ls)
  {
    Joined(keys, n, ls, bytes, 1, ByteVal(keys, n, ls[0], bytes[0], f), count, f)
  }

  lemma LoadedUnfold(keys: seq<Key>, n: nat, ls: seq<Label>, bytes: seq<Byte>, count: nat, f: File)
    requires WfTable(keys, n) && 2 <= count <= |ls| == |bytes| && InTable(keys, ls)
    ensures LoadedValue(keys, n, ls, bytes, count, f)
         == JoinOpt(ByteVal(keys, n, ls[count - 1], bytes[count - 1], f), LoadedValue(keys, n, ls, bytes, count - 1, f))
  {
    JoinedUnfold(keys, n, ls, bytes, 1, ByteVal(keys, n, ls[0], bytes[0], f), count, f);
  }
}
