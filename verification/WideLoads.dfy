/** The concatenation path over shadow labels of several bytes each. */
module WideLoads {
  import opened Arith
  import opened Options
  import opened Expressions
  import opened Labels
  import opened LoadStore
  import opened LoadMeaning
  import opened LoadTheorems
  import Operators

  /** Shadow labels are whole bytes wide. */
  predicate WholeBytes(keys: seq<Key>, ls: seq<Label>)
    requires InTable(keys, ls)
  {
    forall i | 0 <= i < |ls| :: keys[ls[i]].size % 8 == 0
  }

  /** The low w bits of a number that has them. */
  function Low(w: nat, v: Option<Value>): Option<Value> {
    if v.Some? && v.value.BV? && w <= v.value.width then Some(BV(w, v.value.val % Pow2(w))) else None
  }

  /** The value found at byte i and the byte after it: a concrete byte, the whole of a label, or as many of its
      low bytes as the load still has room for. */
  ghost function Piece(keys: seq<Key>, n: nat, ls: seq<Label>, bytes: seq<Byte>, i: nat, f: File): (r: (Option<Value>, nat))
    requires WfTable(keys, n) && i < |ls| == |bytes| && InTable(keys, ls) && ByteWide(keys, ls)
    ensures i < r.1 <= |ls|
  {
    var size, room := keys[ls[i]].size, 8 * (|ls| - i);
    if ls[i] == 0 then (Some(BV(8, bytes[i])), i + 1)
    else if size <= room then (Eval(keys, n, ls[i], f), i + size / 8)
    else (Low(room, Eval(keys, n, ls[i], f)), |ls|)
  }

  /** Pieces from byte i on, each above what came before; nothing once the width is a multiple of 256 bits. */
  ghost function Gathered(keys: seq<Key>, n: nat, ls: seq<Label>, bytes: seq<Byte>, i: nat, below: Option<Value>, f: File)
    : Option<Value>
    requires WfTable(keys, n) && |ls| == |bytes| && InTable(keys, ls) && ByteWide(keys, ls)
    decreases |ls| - i
  {
    if i >= |ls| then below
    else
      var (v, i') := Piece(keys, n, ls, bytes, i, f);
      Gathered(keys, n, ls, bytes, i', if i' % 32 == 0 then None else JoinOpt(v, below), f)
  }

  /** The same from the first tainted byte on, with zeros for the concrete bytes before it. */
  ghost function GatheredAfter(keys: seq<Key>, n: nat, ls: seq<Label>, bytes: seq<Byte>, i: nat, f: File): Option<Value>
    requires WfTable(keys, n) && |ls| == |bytes| && InTable(keys, ls) && ByteWide(keys, ls)
    decreases |ls| - i
  {
    if i >= |ls| then None
    else if ls[i] == 0 then GatheredAfter(keys, n, ls, bytes, i + 1, f)
    else
      var (v, i') := Piece(keys, n, ls, bytes, i, f);
      Gathered(keys, n, ls, bytes, i', if i % 32 == 0 then None else JoinOpt(v, LostBytes(i)), f)
  }

  // ---------------------------------------------------------------- one piece

  lemma StackedIsJoined(h: Value, l: Value)
    requires h.BV? && l.BV?
    ensures Operators.Stacked(h, l) == JoinBits(h, l)
  {}

  /** Concatenating a label, or a concrete byte, above a label of i bytes. */
  lemma AppendPiece(keys: seq<Key>, n: nat, lbl: Label, next: Label, i: nat, i': nat, b: Byte, f: File)
    requires WfTable(keys, n) && Distinct(keys, n) && lbl < |keys| && next < |keys|
    requires (lbl > 0 ==> keys[lbl].size == 8 * i) && (lbl > 0 || next > 0) && i < i' < 0x2000
    requires next == 0 ==> i' == i + 1
    requires lbl == 0 ==> keys[next].size == 8 * (i' - i)
    ensures
      var c := Call(lbl, next, Concat, 8 * i', 0, if next == 0 then SignExtendByte(b) else 0);
      var (keys', l) := Union(keys, n, c);
      && Extends(keys, keys', n, l) && l > n && keys'[l].size == 8 * i'
      && Eval(keys', n, l, f) ==
           if lbl > 0 then (if i' % 32 == 0 then None else JoinOpt(ByteVal(keys, n, next, b, f), Eval(keys, n, lbl, f)))
           else (if i % 32 == 0 then None else JoinOpt(Eval(keys, n, next, f), LostBytes(i)))
  {
    var c := Call(lbl, next, Concat, 8 * i', 0, if next == 0 then SignExtendByte(b) else 0);
    UnionWf(keys, n, c);
    var (keys', l) := Union(keys, n, c);
    BuildStable(keys, keys', n, lbl);
    BuildStable(keys, keys', n, next);
    AppendedValue(keys', n, l, lbl, next, i, i', b, f);
  }

  lemma AppendedValue(keys: seq<Key>, n: nat, l: Label, lbl: Label, next: Label, i: nat, i': nat, b: Byte, f: File)
    requires WfTable(keys, n) && n < l < |keys| && lbl < |keys| && next < |keys|
    requires (lbl > 0 ==> keys[lbl].size == 8 * i) && (lbl > 0 || next > 0) && i < i' < 0x2000
    requires next == 0 ==> i' == i + 1
    requires lbl == 0 ==> keys[next].size == 8 * (i' - i)
    requires keys[l] == Key(lbl, next, Concat, 8 * i', 0, if next == 0 then SignExtendByte(b) else 0)
    ensures Eval(keys, n, l, f) ==
              if lbl > 0 then (if i' % 32 == 0 then None else JoinOpt(ByteVal(keys, n, next, b, f), Eval(keys, n, lbl, f)))
              else (if i % 32 == 0 then None else JoinOpt(Eval(keys, n, next, f), LostBytes(i)))
  {
    Operators.ConcatValue(keys, n, l, f);
    if next == 0 {
      FilledByte(8 * i', 8 * i, b);
    } else if lbl == 0 {
      FilledZeros(8 * i', keys[next].size, i);
    }
    WidthsAre(keys, n, l, i, i');
    StackedOpt(Operators.HighPart(keys, n, l, f), Operators.LowPart(keys, n, l, f));
  }

  lemma WidthsAre(keys: seq<Key>, n: nat, l: Label, i: nat, i': nat)
    requires WfTable(keys, n) && n < l < |keys| && keys[l].size == 8 * i' && i < i'
    requires keys[l].l1 > 0 ==> keys[keys[l].l1].size == 8 * i
    requires keys[l].l1 == 0 ==> keys[keys[l].l2].size == 8 * (i' - i)
    requires keys[l].l2 == 0 ==> i' == i + 1
    ensures Operators.WidthsCount(keys, n, l) <==> if keys[l].l1 > 0 then i' % 32 != 0 else i % 32 != 0
  {
    EightBitWidths(i, i');
  }

  lemma StackedOpt(high: Option<Value>, low: Option<Value>)
    ensures
      JoinOpt(high, low) ==
        if high.Some? && low.Some? && high.value.BV? && low.value.BV? then Some(Operators.Stacked(high.value, low.value)) else None
  {
    if high.Some? && low.Some? && high.value.BV? && low.value.BV? { StackedIsJoined(high.value, low.value); }
  }

  lemma FilledByte(size: nat, other: nat, b: Byte)
    requires size == other + 8
    ensures Operators.FillValue(size, other, SignExtendByte(b)) == Some(BV(8, b))
  {
    assert Pow2(8) == 256 by { Pow2Values(); }
  }

  lemma FilledZeros(size: nat, other: nat, i: nat)
    requires size == other + 8 * i && size >= 8
    ensures Operators.FillValue(size, other, 0) == if i % 32 == 0 then None else LostBytes(i)
  {
    WidthWraps(i);
    ModSmall(0, Pow2(U8(8 * i)));
  }

  lemma EightBitWidths(i: nat, i': nat)
    ensures (8 * i') % 256 == 0 <==> i' % 32 == 0
    ensures (8 * i) % 256 == 0 <==> i % 32 == 0
  {}

  /** A label cut to its low bytes. */
  lemma CutPiece(keys: seq<Key>, n: nat, next: Label, room: nat, f: File)
    requires WfTable(keys, n) && Distinct(keys, n) && 0 < next < |keys| && 1 <= room < 0x1_0000
    ensures
      var (keys', l) := Union(keys, n, Call(next, 0, Trunc, room, 0, 0));
      Extends(keys, keys', n, l) && l > n && keys'[l].size == room && Eval(keys', n, l, f) == Low(room, Eval(keys, n, next, f))
  {
    var c := Call(next, 0, Trunc, room, 0, 0);
    UnionWf(keys, n, c);
    var (keys', l) := Union(keys, n, c);
    BuildStable(keys, keys', n, next);
    Operators.CutValue(keys', n, l, f);
    assert Pow2(0) == 1;
  }

  // ---------------------------------------------------------------- the loop

  /** After i bytes: a grown table whose label is i bytes wide and has the given value. */
  ghost predicate WideInv(keys0: seq<Key>, n: nat, r: (seq<Key>, Label), i: nat, ls: seq<Label>, bytes: seq<Byte>,
                          v: Option<Value>, f: File) {
    && WfTable(keys0, n) && |ls| == |bytes| < 0x2000
    && InTable(keys0, ls) && ByteWide(keys0, ls) && WholeBytes(keys0, ls)
    && keys0 <= r.0 && WfTable(r.0, n) && Distinct(r.0, n)
    && 0 < r.1 < |r.0| && (i < |ls| ==> r.0[r.1].size == 8 * i) && Eval(r.0, n, r.1, f) == v
  }

  /** One turn, from a label of i bytes or from nothing. */
  lemma PieceStep(keys0: seq<Key>, n: nat, keys: seq<Key>, lbl: Label, i: nat, ls: seq<Label>, bytes: seq<Byte>, f: File)
    requires WfTable(keys0, n) && i < |ls| == |bytes| < 0x2000
    requires InTable(keys0, ls) && ByteWide(keys0, ls) && WholeBytes(keys0, ls)
    requires keys0 <= keys && WfTable(keys, n) && Distinct(keys, n)
    requires lbl < |keys| && (lbl > 0 ==> keys[lbl].size == 8 * i) && (lbl > 0 || ls[i] > 0)
    ensures
      var (v, i') := Piece(keys0, n, ls, bytes, i, f);
      var (keys', l, next) := SlowStep(keys, n, lbl, i, ls, bytes);
      && next == i'
      && WideInv(keys0, n, (keys', l), i', ls, bytes,
                 if lbl > 0 then (if i' % 32 == 0 then None else JoinOpt(v, Eval(keys, n, lbl, f)))
                 else (if i % 32 == 0 then None else JoinOpt(v, LostBytes(i))), f)
  {
    EvalStable(keys0, keys, n, ls[i], f);
    if ls[i] == 0 || keys[ls[i]].size <= 8 * (|ls| - i) {
      WholeStep(keys, n, lbl, i, ls, bytes, f);
    } else {
      CutStep(keys, n, lbl, i, ls, f);
    }
  }

  /** The turn that takes a concrete byte or a whole label. */
  lemma WholeStep(keys: seq<Key>, n: nat, lbl: Label, i: nat, ls: seq<Label>, bytes: seq<Byte>, f: File)
    requires WfTable(keys, n) && Distinct(keys, n) && i < |ls| == |bytes| < 0x2000 && InTable(keys, ls) && ByteWide(keys, ls)
    requires lbl < |keys| && (lbl > 0 ==> keys[lbl].size == 8 * i) && (lbl > 0 || ls[i] > 0)
    requires keys[ls[i]].size % 8 == 0 && (ls[i] == 0 || keys[ls[i]].size <= 8 * (|ls| - i))
    ensures
      var i' := if ls[i] == 0 then i + 1 else i + keys[ls[i]].size / 8;
      var v := ByteVal(keys, n, ls[i], bytes[i], f);
      var (keys', l, next) := SlowStep(keys, n, lbl, i, ls, bytes);
      && next == i' && Extends(keys, keys', n, l) && l > n && keys'[l].size == 8 * i'
      && Eval(keys', n, l, f) ==
           if lbl > 0 then (if i' % 32 == 0 then None else JoinOpt(v, Eval(keys, n, lbl, f)))
           else (if i % 32 == 0 then None else JoinOpt(v, LostBytes(i)))
  {
    var i' := if ls[i] == 0 then i + 1 else i + keys[ls[i]].size / 8;
    assert U16(i' * 8) == 8 * i';
    AppendPiece(keys, n, lbl, ls[i], i, i', bytes[i], f);
  }

  /** The turn that takes part of a label only. */
  lemma CutStep(keys: seq<Key>, n: nat, lbl: Label, i: nat, ls: seq<Label>, f: File)
    requires WfTable(keys, n) && Distinct(keys, n) && i < |ls| < 0x2000 && InTable(keys, ls) && ls[i] > 0
    requires lbl < |keys| && (lbl > 0 ==> keys[lbl].size == 8 * i)
    ensures
      var room := 8 * (|ls| - i);
      var (keys1, trunc) := Union(keys, n, Call(ls[i], 0, Trunc, U16((|ls| - i) * 8), 0, 0));
      var (keys2, l) := Union(keys1, n, Call(lbl, trunc, Concat, U16(|ls| * 8), 0, 0));
      var v := Low(room, Eval(keys, n, ls[i], f));
      && Extends(keys, keys2, n, l) && l > n
      && Eval(keys2, n, l, f) ==
           if lbl > 0 then (if |ls| % 32 == 0 then None else JoinOpt(v, Eval(keys, n, lbl, f)))
           else (if i % 32 == 0 then None else JoinOpt(v, LostBytes(i)))
  {
    var room := 8 * (|ls| - i);
    assert U16((|ls| - i) * 8) == room && U16(|ls| * 8) == 8 * |ls|;
    CutPiece(keys, n, ls[i], room, f);
    var (keys1, trunc) := Union(keys, n, Call(ls[i], 0, Trunc, room, 0, 0));
    BuildStable(keys, keys1, n, lbl);
    AppendPiece(keys1, n, lbl, trunc, i, |ls|, 0, f);
  }

  lemma {:induction false} GatherMeaning(keys0: seq<Key>, n: nat, r: (seq<Key>, Label), i: nat, ls: seq<Label>,
                                         bytes: seq<Byte>, v: Option<Value>, f: File)
    requires WideInv(keys0, n, r, i, ls, bytes, v, f)
    ensures InTable(r.0, ls) && ByteWide(r.0, ls)
    ensures
      var out := Slow(r.0, n, r.1, i, ls, bytes);
      Extends(keys0, out.0, n, out.1) && Eval(out.0, n, out.1, f) == Gathered(keys0, n, ls, bytes, i, v, f)
    decreases |ls| - i
  {
    if i < |ls| {
      PieceStep(keys0, n, r.0, r.1, i, ls, bytes, f);
      SlowUnfold(r.0, n, r.1, i, ls, bytes);
      var (u, i') := Piece(keys0, n, ls, bytes, i, f);
      var (keys', l, _) := SlowStep(r.0, n, r.1, i, ls, bytes);
      GatherMeaning(keys0, n, (keys', l), i', ls, bytes, if i' % 32 == 0 then None else JoinOpt(u, v), f);
    }
  }

  lemma {:induction false} GatherAfterMeaning(keys: seq<Key>, n: nat, i: nat, ls: seq<Label>, bytes: seq<Byte>, f: File)
    requires Range(keys, n, ls, bytes) && WholeBytes(keys, ls) && i <= |ls|
    ensures
      var out := Slow(keys, n, 0, i, ls, bytes);
      Extends(keys, out.0, n, out.1) && Eval(out.0, n, out.1, f) == GatheredAfter(keys, n, ls, bytes, i, f)
    decreases |ls| - i
  {
    if i < |ls| {
      SlowUnfold(keys, n, 0, i, ls, bytes);
      if ls[i] == 0 {
        GatherAfterMeaning(keys, n, i + 1, ls, bytes, f);
      } else {
        PieceStep(keys, n, keys, 0, i, ls, bytes, f);
        var (v, i') := Piece(keys, n, ls, bytes, i, f);
        var (keys', l, _) := SlowStep(keys, n, 0, i, ls, bytes);
        GatherMeaning(keys, n, (keys', l), i', ls, bytes, if i % 32 == 0 then None else JoinOpt(v, LostBytes(i)), f);
      }
    }
  }

  /** A load that takes neither fast path denotes its pieces, joined little-endian: the whole first label, even
      if it is wider than the load, then what fits of the others; zeros stand for concrete bytes before
      the first tainted one. */
  lemma WideMeans(keys: seq<Key>, n: nat, ls: seq<Label>, bytes: seq<Byte>, f: File)
    requires Range(keys, n, ls, bytes) && WholeBytes(keys, ls) && TakesSlowPath(keys, ls)
    ensures Denotes(keys, n, UnionLoad(keys, n, ls, bytes),
                    if ls[0] != 0 then Gathered(keys, n, ls, bytes, keys[ls[0]].size / 8, Eval(keys, n, ls[0], f), f)
                    else GatheredAfter(keys, n, ls, bytes, 1, f), f)
  {
    SlowIsTaken(keys, n, ls, bytes);
    if ls[0] != 0 { TaintedStart(keys, n, ls, bytes, f); } else { ConcreteStart(keys, n, ls, bytes, f); }
  }

  lemma SlowIsTaken(keys: seq<Key>, n: nat, ls: seq<Label>, bytes: seq<Byte>)
    requires Range(keys, n, ls, bytes) && TakesSlowPath(keys, ls)
    ensures UnionLoad(keys, n, ls, bytes) == Slow(keys, n, ls[0], keys[ls[0]].size / 8, ls, bytes)
    ensures ls[0] == 0 ==> keys[ls[0]].size / 8 == 1
  {}

  lemma ConcreteStart(keys: seq<Key>, n: nat, ls: seq<Label>, bytes: seq<Byte>, f: File)
    requires Range(keys, n, ls, bytes) && WholeBytes(keys, ls)
    ensures Denotes(keys, n, Slow(keys, n, 0, 1, ls, bytes), GatheredAfter(keys, n, ls, bytes, 1, f), f)
  {
    GatherAfterMeaning(keys, n, 1, ls, bytes, f);
  }

  lemma TaintedStart(keys: seq<Key>, n: nat, ls: seq<Label>, bytes: seq<Byte>, f: File)
    requires Range(keys, n, ls, bytes) && WholeBytes(keys, ls) && ls[0] != 0
    ensures
      var i := keys[ls[0]].size / 8;
      Denotes(keys, n, Slow(keys, n, ls[0], i, ls, bytes), Gathered(keys, n, ls, bytes, i, Eval(keys, n, ls[0], f), f), f)
  {
    var i := keys[ls[0]].size / 8;
    assert WideInv(keys, n, (keys, ls[0]), i, ls, bytes, Eval(keys, n, ls[0], f), f);
    GatherMeaning(keys, n, (keys, ls[0]), i, ls, bytes, Eval(keys, n, ls[0], f), f);
  }
}
