/** The taint runtime: label records, the table over them, and the constraints of the path so far. */
module Runtime {
  import opened Options
  import opened Expressions
  import opened Labels
  import opened HashTable
  import opened Memo
  import opened LoadStore
  import opened LoadMeaning
  import opened Slicing
  import opened BranchFilter
  import opened Arith
  import Operators

  const UNION_TABLE_SIZE := 0x4_0000

  /** index is the map from keys to the labels beyond the inputs. */
  ghost predicate IndexOk(keys: seq<Key>, n: nat, index: map<Key, Label>) {
    && (forall l | n < l < |keys| :: keys[l] in index && index[keys[l]] == l)
    && (forall k | k in index :: n < index[k] < |keys| && keys[index[k]] == k)
  }

  /** Appending a record under a new key keeps table and index in step. */
  lemma AppendIndex(keys: seq<Key>, n: nat, index: map<Key, Label>, key: Key)
    requires n < |keys| && IndexOk(keys, n, index) && key !in index
    ensures IndexOk(keys + [key], n, index[key := |keys|])
  {
    var keys' := keys + [key];
    forall l | n < l < |keys'| ensures keys'[l] in index[key := |keys|] && index[key := |keys|][keys'[l]] == l {
      if l < |keys| { assert keys'[l] == keys[l]; }
    }
  }

  /** The index answers what the specification of a call asks. */
  lemma IndexPresent(keys: seq<Key>, n: nat, index: map<Key, Label>, key: Key)
    requires n < |keys| && IndexOk(keys, n, index)
    ensures Present(keys, n, key) <==> key in index
    ensures key in index ==> LabelOf(keys, n, key) == index[key]
  {}

  lemma AppendKeys(infos: seq<LabelInfo>, info: LabelInfo)
    ensures KeysOf(infos + [info]) == KeysOf(infos) + [info.key]
  {}

  lemma RangeGrows(keys: seq<Key>, keys': seq<Key>, ls: seq<Label>)
    requires keys <= keys' && InTable(keys, ls) && ByteWide(keys, ls)
    ensures InTable(keys', ls) && ByteWide(keys', ls)
  {
    forall i | 0 <= i < |ls| ensures ls[i] < |keys'| && keys'[ls[i]].size >= 8 {
      assert keys'[ls[i]] == keys[ls[i]];
    }
  }

  lemma ExtractsStep(keys: seq<Key>, n: nat, l: Label, i: nat, count: nat)
    requires n < |keys| && i < count
    ensures
      var (keys', e) := Labels.Union(keys, n, Call(l, CONST_LABEL, Extract, 8, 0, i * 8));
      var (keys'', es) := Extracts(keys', n, l, i + 1, count);
      Extracts(keys, n, l, i, count) == (keys'', [e] + es)
  {}

  /** What became of an instrumentation call; Aborted ends the program. */
  datatype Trace = Ignored | Aborted | Solved(outcome: Outcome)

  /** A label's expression on f is the concrete value c in size bits; a constant needs none. */
  ghost predicate Tracks(keys: seq<Key>, n: nat, l: Label, size: nat, c: nat, f: File)
    requires WfTable(keys, n) && l < |keys|
  {
    l == 0 || Eval(keys, n, l, f) == Some(BV(size, c % Pow2(size)))
  }

  /** The outcome of a branch on a label. */
  ghost predicate Answers(out: Outcome, keys: seq<Key>, n: nat, l: Label, result: bool, path: seq<Expr>, orig: File,
                          oracle: Oracle)
    requires WfTable(keys, n) && l < |keys|
  {
    Build(keys, n, l).Some? && Delivers(out, Build(keys, n, l).value, result, path, orig, oracle)
  }

  /** A label with a truth value on some input is a condition. */
  lemma ConditionFromValue(keys: seq<Key>, n: nat, l: Label, b: bool, f: File)
    requires WfTable(keys, n) && l < |keys| && Eval(keys, n, l, f) == Some(BoolVal(b))
    ensures Build(keys, n, l).Some? && IsBool(Build(keys, n, l).value)
    ensures Truth(Denote(Taken(Build(keys, n, l).value, b), f))
  {
    EvalSort(keys, n, l, f);
    FlippedMeans(Build(keys, n, l).value, b, f);
  }

  /** What the program computes from the concrete operands of a comparison. */
  function ConcreteResult(predNo: nat, size: nat, c1: nat, c2: nat): bool
    requires PredOf(predNo).Some?
  {
    Compare(PredOf(predNo).value, size, c1 % Pow2(size), c2 % Pow2(size))
  }

  /** The relation of the concrete operands, in size bits. */
  predicate Related(predNo: nat, size: nat, c1: nat, c2: nat) {
    size >= 1 && Operators.Relates(predNo, size, c1 % Pow2(size), c2 % Pow2(size))
  }

  lemma ConcreteIsRelated(predNo: nat, size: nat, c1: nat, c2: nat)
    requires size >= 1
    ensures PredOf(predNo).Some? <==> Operators.IsRelation(predNo)
    ensures PredOf(predNo).Some? ==> ConcreteResult(predNo, size, c1, c2) == Related(predNo, size, c1, c2)
  {
    Operators.RelationKnown(predNo);
    if PredOf(predNo).Some? { Operators.CompareLaw(predNo, size, c1 % Pow2(size), c2 % Pow2(size)); }
  }

  /** The values of both operands are the concrete ones. */
  ghost predicate TracksBoth(keys: seq<Key>, n: nat, op1: Label, op2: Label, size: nat, c1: nat, c2: nat, f: File)
    requires WfTable(keys, n) && op1 < |keys| && op2 < |keys|
  {
    1 < size < 256 && Tracks(keys, n, op1, size, c1, f) && Tracks(keys, n, op2, size, c2, f)
  }

  /** A label is a condition that holds with the given truth value on f. */
  ghost predicate HoldsAs(keys: seq<Key>, n: nat, l: Label, result: bool, f: File)
    requires WfTable(keys, n) && l < |keys|
  {
    var e := Build(keys, n, l);
    e.Some? && IsBool(e.value) && Truth(Denote(Taken(e.value, result), f))
  }

  /** The operand of a comparison has its concrete value. */
  lemma OperandTracks(keys: seq<Key>, keys': seq<Key>, n: nat, l: Label, size: nat, c: nat, f: File)
    requires WfTable(keys, n) && WfTable(keys', n) && keys <= keys' && l < |keys| && 1 < size < 256
    requires Tracks(keys, n, l, size, c, f)
    ensures (if l > 0 then Eval(keys', n, l, f) else Operators.ConstantValue(size, c)) == Some(BV(size, c % Pow2(size)))
  {
    BuildStable(keys, keys', n, l);
  }

  /** A comparison of labels has the truth value of the relation between the concrete operands. */
  lemma ComparisonMatches(keys: seq<Key>, keys': seq<Key>, n: nat, l: Label, op1: Label, op2: Label, predNo: nat,
                          size: nat, c1: nat, c2: nat, f: File)
    requires WfTable(keys, n) && WfTable(keys', n) && keys <= keys' && op1 < |keys| && op2 < |keys|
    requires n < l < |keys'| && Operators.IsRelation(predNo) && TracksBoth(keys, n, op1, op2, size, c1, c2, f)
    requires keys'[l] == Key(op1, op2, ICmp(predNo), size, if op1 > 0 then 0 else c1, if op2 > 0 then 0 else c2)
    ensures Eval(keys', n, l, f) == Some(BoolVal(Related(predNo, size, c1, c2)))
    ensures HoldsAs(keys', n, l, Related(predNo, size, c1, c2), f)
  {
    OperandTracks(keys, keys', n, op1, size, c1, f);
    OperandTracks(keys, keys', n, op2, size, c2, f);
    Operators.ComparisonValue(keys', n, l, f);
    ConditionFromValue(keys', n, l, Related(predNo, size, c1, c2), f);
  }

  /** The request for the label of a comparison. The program keeps the predicate and the width in eight
      bits each. */
  function ComparisonOf(op1: Label, op2: Label, predNo: nat, size: nat, c1: nat, c2: nat): Call {
    Call(op1, op2, ICmp(predNo % 256), U8(size), c1, c2)
  }

  lemma ComparisonKey(op1: Label, op2: Label, predNo: nat, size: nat, c1: nat, c2: nat)
    requires size < 256 && Operators.IsRelation(predNo)
    ensures UnionKey(ComparisonOf(op1, op2, predNo, size, c1, c2))
         == Key(op1, op2, ICmp(predNo), size, if op1 > 0 then 0 else c1, if op2 > 0 then 0 else c2)
  {}

  lemma ComparisonCall(keys: seq<Key>, n: nat, op1: Label, op2: Label, predNo: nat, size: nat, c1: nat, c2: nat, f: File)
    requires WfTable(keys, n) && Distinct(keys, n) && op1 < |keys| && op2 < |keys| && (op1 > 0 || op2 > 0)
    requires Operators.IsRelation(predNo) && TracksBoth(keys, n, op1, op2, size, c1, c2, f)
    ensures
      var (keys', l) := Labels.Union(keys, n, ComparisonOf(op1, op2, predNo, size, c1, c2));
      WfTable(keys', n) && l < |keys'| && HoldsAs(keys', n, l, Related(predNo, size, c1, c2), f)
  {
    var call := ComparisonOf(op1, op2, predNo, size, c1, c2);
    UnionWf(keys, n, call);
    ComparisonKey(op1, op2, predNo, size, c1, c2);
    var (keys', l) := Labels.Union(keys, n, call);
    ComparisonMatches(keys, keys', n, l, op1, op2, predNo, size, c1, c2, f);
  }

  /** A comparison l that starts from deps0 collects the offsets of both operands and of the caches below them. A
      second operand that had no cache, and is not part of the first, is left with all of it; so its offsets
      are its own exactly when the rest is among them. */
  ghost predicate Spills(before: seq<LabelInfo>, infos: seq<LabelInfo>, n: nat, l: Label, deps0: set<nat>, deps: set<nat>)
    requires WfTable(KeysOf(before), n) && n < l < |before| == |infos|
  {
    var keys := KeysOf(before);
    var l1, l2 := keys[l].l1, keys[l].l2;
    var e1, e2 := Build(keys, n, l1), Build(keys, n, l2);
    e1.Some? && e2.Some? && Remembered(keys[l2].op) && before[l2].cached.None? && !Under(keys, n, l2, l1) ==>
      && infos[l2].cached == Some(Cached(e2.value, deps))
      && deps == deps0 + (Mentions(e1.value) + Mentions(e2.value)) + StoredBelow(before, n, l)
      && (deps == Mentions(e2.value) <==> deps0 + Mentions(e1.value) + StoredBelow(before, n, l) <= Mentions(e2.value))
  }

  /** Serialized one after the other, the second on top of the first. */
  lemma Accumulate(deps0: set<nat>, own1: set<nat>, own2: set<nat>, stored1: set<nat>, stored2: set<nat>, found2: set<nat>,
                   deps1: set<nat>, deps: set<nat>)
    requires deps1 == deps0 + own1 + stored1 && deps == deps1 + own2 + found2 && deps1 + found2 == deps1 + stored2
    ensures deps == deps0 + (own1 + own2) + (stored1 + stored2) && deps1 + deps == deps
    ensures deps == own2 <==> deps0 + own1 + (stored1 + stored2) <= own2
  {
    assert deps == deps1 + found2 + own2 == deps1 + stored2 + own2;
    assert deps == deps0 + own1 + (stored1 + stored2) + own2;
  }

  /** Serialized one after the other, the second on its own. */
  lemma AccumulateApart(deps0: set<nat>, own1: set<nat>, own2: set<nat>, stored1: set<nat>, stored2: set<nat>,
                        found2: set<nat>, deps1: set<nat>, deps2: set<nat>)
    requires deps1 == deps0 + own1 + stored1 && deps2 == {} + own2 + found2 && deps1 + found2 == deps1 + stored2
    ensures deps1 + deps2 == deps0 + (own1 + own2) + (stored1 + stored2)
  {
    assert deps1 + deps2 == deps1 + found2 + own2 == deps1 + stored2 + own2;
  }

  lemma {:induction false} SpillsBy(before: seq<LabelInfo>, between: seq<LabelInfo>, after: seq<LabelInfo>, n: nat, l: Label,
                                    deps0: set<nat>, deps1: set<nat>, e1: Expr, e2: Expr, deps: set<nat>)
    requires WfTable(KeysOf(before), n) && WfTable(KeysOf(between), n) && n < l < |before| == |after| == |between|
    requires before[l].key.op.FMemcmp? && before[l].key.l1 < l && before[l].key.l2 < l
    requires Serialized(before, n, before[l].key.l1, deps0, Some(e1), deps1)
    requires Serialized(between, n, before[l].key.l2, deps1, Some(e2), deps) && KeysOf(between) == KeysOf(before)
    requires deps1 + Stored(between, n, before[l].key.l2) == deps1 + Stored(before, n, before[l].key.l2)
    requires Grew(before, between, n, before[l].key.l1)
    requires between[before[l].key.l2].cached.None? && Remembered(before[before[l].key.l2].key.op) ==>
               after[before[l].key.l2].cached == Some(Cached(e2, deps))
    ensures deps == deps0 + (Mentions(e1) + Mentions(e2)) + StoredBelow(before, n, l) && deps1 + deps == deps
    ensures Spills(before, after, n, l, deps0, deps)
  {
    var a, b := before[l].key.l1, before[l].key.l2;
    Accumulate(deps0, Mentions(e1), Mentions(e2), Stored(before, n, a), Stored(before, n, b), Stored(between, n, b), deps1, deps);
    assert GrewAt(before, between, n, a, b);
    assert KeysOf(before)[l] == before[l].key && KeysOf(before)[b] == before[b].key;
  }

  /** Nothing but the mark of l changed, which is set if done. */
  ghost predicate MarksOnly(before: seq<LabelInfo>, infos: seq<LabelInfo>, l: Label, done: bool) {
    |infos| == |before| && forall k | 0 <= k < |infos| :: infos[k].flipped == (before[k].flipped || (k == l && done))
  }

  /** What an outcome does to the path. */
  ghost predicate PathAfter(path: seq<Expr>, path': seq<Expr>, out: Outcome, nested: bool, keys: seq<Key>, n: nat, l: Label,
                          result: bool)
    requires WfTable(keys, n) && l < |keys|
  {
    var e := Build(keys, n, l);
    if out.Skipped? || out.Failed? || !nested then path' == path
    else e.Some? && path' == path + [Taken(e.value, result)]
  }

  class TaintRuntime {
    const n: nat
    const original: File
    const table: UnionHashtable
    var infos: seq<LabelInfo>
    ghost var index: map<Key, Label>
    var store: Store
    ghost var joins: seq<set<nat>>
    ghost var path: seq<Expr>
    var branches: Branches

    /** Labels: records, their cache and the table over them agree. */
    ghost predicate LabelsOk()
      reads this, table, table.bucket
    {
      && n == |original|
      && InfosOk(infos, n)
      && Distinct(KeysOf(infos), n)
      && IndexOk(KeysOf(infos), n, index)
      && table.Valid(infos, index)
    }

    /** Constraints: the store holds the path. */
    ghost predicate PathValid()
      reads this
    {
      |store| == n && StoreInv(store, joins) && PathOk(store, joins, path) && WellSorted(path)
    }

    ghost predicate Valid()
      reads this, table, table.bucket
    {
      LabelsOk() && PathValid()
    }

    /** One record per input byte after the one for constants; nothing recorded. */
    constructor (file: File)
      ensures Valid() && original == file && path == [] && OwnBytes(joins, path) && branches == map[]
      ensures |infos| == n + 1 && fresh(table) && fresh(table.bucket)
      ensures forall k | 0 <= k < |infos| :: infos[k].cached.None? && !infos[k].flipped
    {
      n := |file|;
      original := file;
      var t := new UnionHashtable(UNION_TABLE_SIZE);
      table := t;
      var records := [LabelInfo(InputKey(0), false, None)];
      var offset := 0;
      while offset < |file|
        invariant 0 <= offset <= |file| && |records| == offset + 1
        invariant forall k | 0 <= k < |records| :: records[k] == LabelInfo(InputKey(OffsetOf(k)), false, None)
      {
        records := records + [LabelInfo(InputKey(offset), false, None)];
        offset := offset + 1;
      }
      infos := records;
      index := map[];
      store := seq(|file|, o => None);
      joins := [];
      path := [];
      branches := map[];
      new;
      EmptyStore(store);
      assert WfTable(KeysOf(infos), n);
    }

    // -------------------------------------------------------------- union

    /** A label for an operation on labels: the existing one, or a new record. */
    method Union(l1: Label, l2: Label, op: Op, size: nat, op1: nat, op2: nat) returns (r: Label)
      requires LabelsOk() && ValidCall(KeysOf(infos), n, Call(l1, l2, op, size, op1, op2))
      modifies this`infos, this`index, table.bucket
      ensures LabelsOk() && old(infos) <= infos
      ensures forall k | old(|infos|) <= k < |infos| :: infos[k].cached.None? && !infos[k].flipped
      ensures (KeysOf(infos), r) == Labels.Union(old(KeysOf(infos)), n, Call(l1, l2, op, size, op1, op2))
    {
      ghost var call := Call(l1, l2, op, size, op1, op2);
      ghost var keys := KeysOf(infos);
      UnionWf(keys, n, call);
      var a, b, x, y := l1, l2, op1, op2;
      if a > b && IsCommutative(op) {
        a, b, x, y := b, a, y, x;
      }
      if a == 0 && b == 0 {
        return 0;
      }
      if a > 0 {
        x := 0;
      }
      if b > 0 {
        y := 0;
      }
      var key := Key(a, b, op, size, x, y);
      assert key == UnionKey(call);
      IndexPresent(keys, n, index, key);
      var found := table.Lookup(infos, key, index);
      if found.Some? {
        return found.value;
      }
      r := NewLabel(key);
    }

    method NewLabel(key: Key) returns (r: Label)
      requires LabelsOk() && key !in index && WfTable(KeysOf(infos) + [key], n) && Distinct(KeysOf(infos) + [key], n)
      modifies this`infos, this`index, table.bucket
      ensures LabelsOk() && old(infos) <= infos
      ensures r == old(|infos|) && infos == old(infos) + [LabelInfo(key, false, None)]
      ensures KeysOf(infos) == old(KeysOf(infos)) + [key]
    {
      r := |infos|;
      var info := LabelInfo(key, false, None);
      AppendKeys(infos, info);
      AppendKeepsOk(infos, n, info);
      AppendIndex(KeysOf(infos), n, index, key);
      HoldsStable(table.bucket[..], infos, infos + [info], index);
      infos := infos + [info];
      table.Insert(infos, r, r, index);
      index := index[key := r];
    }

    // -------------------------------------------------------------- loads and stores

    /** The label of consecutive shadow bytes ls over the program's bytes. */
    method UnionLoad(ls: seq<Label>, bytes: seq<Byte>) returns (r: Label)
      requires LabelsOk() && Range(KeysOf(infos), n, ls, bytes) && InFile(KeysOf(infos), n, ls)
      modifies this`infos, this`index, table.bucket
      ensures LabelsOk() && old(infos) <= infos && r < |infos|
      ensures (KeysOf(infos), r) == LoadStore.UnionLoad(old(KeysOf(infos)), n, ls, bytes)
    {
      LoadWf(KeysOf(infos), n, ls, bytes);
      var label0 := ls[0];
      var constant := AllZero(ls);
      if constant {
        return CONST_LABEL;
      }
      var shape := IsShape(ls);
      if shape {
        if |ls| == 1 {
          return label0;
        }
        InputLabel(KeysOf(infos), n, label0);
        r := Union(label0, |ls|, Load, U16(|ls| * 8), 0, 0);
        return;
      }
      if infos[label0].key.op.Extract? {
        var parent := infos[label0].key.l1;
        var offset := CoveredByExtracts(ls, parent);
        if infos[parent].key.size == offset && offset == |ls| * 8 {
          return parent;
        }
      }
      r := LoadSlow(ls, bytes);
    }

    static method AllZero(ls: seq<Label>) returns (constant: bool)
      ensures constant == AllConstant(ls)
    {
      constant := true;
      var i := 0;
      while i < |ls|
        invariant 0 <= i <= |ls| && constant && AllConstant(ls[..i])
      {
        if ls[i] != CONST_LABEL {
          return false;
        }
        assert ls[..i + 1] == ls[..i] + [ls[i]];
        i := i + 1;
      }
      assert ls[..i] == ls;
    }

    method IsShape(ls: seq<Label>) returns (shape: bool)
      requires |ls| >= 1 && InTable(KeysOf(infos), ls)
      ensures shape == ShapeTest(KeysOf(infos), ls)
    {
      ghost var keys := KeysOf(infos);
      if !infos[ls[0]].key.op.Input? {
        return false;
      }
      var offset := infos[ls[0]].key.op1;
      var i := 1;
      while i < |ls|
        invariant 1 <= i <= |ls|
        invariant forall j | 1 <= j < i :: keys[ls[j]].op1 == offset + j
      {
        if infos[ls[i]].key.op1 != offset + i {
          assert keys[ls[i]].op1 != offset + i;
          return false;
        }
        i := i + 1;
      }
      return true;
    }

    /** Bits covered by the leading labels that are cut in order from parent. */
    method CoveredByExtracts(ls: seq<Label>, parent: Label) returns (offset: nat)
      requires InTable(KeysOf(infos), ls)
      ensures offset == ExtractRun(KeysOf(infos), ls, parent, 0, 0)
    {
      offset := 0;
      var i := 0;
      while i < |ls|
        invariant 0 <= i <= |ls|
        invariant ExtractRun(KeysOf(infos), ls, parent, i, offset) == ExtractRun(KeysOf(infos), ls, parent, 0, 0)
      {
        var key := infos[ls[i]].key;
        if !key.op.Extract? || offset != key.op2 || parent != key.l1 {
          return;
        }
        offset := offset + key.size;
        i := i + 1;
      }
    }

    /** Concatenation of the labels in order of address. */
    method LoadSlow(ls: seq<Label>, bytes: seq<Byte>) returns (r: Label)
      requires LabelsOk() && Range(KeysOf(infos), n, ls, bytes)
      modifies this`infos, this`index, table.bucket
      ensures LabelsOk() && old(infos) <= infos && r < |infos|
      ensures (KeysOf(infos), r)
           == Slow(old(KeysOf(infos)), n, ls[0], old(infos[ls[0]].key.size / 8), ls, bytes)
    {
      r := ls[0];
      var i := infos[r].key.size / 8;
      ghost var goal := Slow(KeysOf(infos), n, r, i, ls, bytes);
      while i < |ls|
        invariant LabelsOk() && old(infos) <= infos && r < |infos|
        invariant InTable(KeysOf(infos), ls) && ByteWide(KeysOf(infos), ls)
        invariant Slow(KeysOf(infos), n, r, i, ls, bytes) == goal
      {
        ghost var keys := KeysOf(infos);
        SlowUnfold(keys, n, r, i, ls, bytes);
        r, i := LoadNext(r, i, ls, bytes);
        RangeGrows(keys, KeysOf(infos), ls);
      }
    }

    /** Adds the next label, part of it, or a concrete byte. */
    method LoadNext(lbl: Label, i: nat, ls: seq<Label>, bytes: seq<Byte>) returns (r: Label, i': nat)
      requires LabelsOk() && lbl < |infos| && |bytes| == |ls| && i < |ls|
      requires InTable(KeysOf(infos), ls) && ByteWide(KeysOf(infos), ls)
      modifies this`infos, this`index, table.bucket
      ensures LabelsOk() && old(infos) <= infos && r < |infos| && i < i'
      ensures (KeysOf(infos), r, i') == SlowStep(old(KeysOf(infos)), n, lbl, i, ls, bytes)
    {
      SlowStepWf(KeysOf(infos), n, lbl, i, ls, bytes);
      if ls[i] != CONST_LABEL {
        r, i' := LoadTainted(lbl, i, ls, bytes);
      } else {
        i' := i + 1;
        r := Union(lbl, 0, Concat, U16(i' * 8), 0, SignExtendByte(bytes[i]));
      }
    }

    /** Concatenates as much of the next label as the load still has room for. */
    method LoadTainted(lbl: Label, i: nat, ls: seq<Label>, ghost bytes: seq<Byte>) returns (r: Label, i': nat)
      requires LabelsOk() && lbl < |infos| && |bytes| == |ls| && i < |ls| && ls[i] != CONST_LABEL
      requires InTable(KeysOf(infos), ls) && ByteWide(KeysOf(infos), ls)
      modifies this`infos, this`index, table.bucket
      ensures LabelsOk() && old(infos) <= infos && i < i'
      ensures (KeysOf(infos), r, i') == SlowStep(old(KeysOf(infos)), n, lbl, i, ls, bytes)
    {
      var next := ls[i];
      var size := infos[next].key.size;
      if size <= (|ls| - i) * 8 {
        i' := i + size / 8;
        r := Union(lbl, next, Concat, U16(i' * 8), 0, 0);
      } else {
        r := LoadPart(lbl, next, U16((|ls| - i) * 8), U16(|ls| * 8));
        i' := |ls|;
      }
    }

    /** Concatenates the low bits of next. */
    method LoadPart(lbl: Label, next: Label, part: nat, total: nat) returns (r: Label)
      requires LabelsOk() && lbl < |infos| && next < |infos| && part < 0x1_0000 && total < 0x1_0000
      modifies this`infos, this`index, table.bucket
      ensures LabelsOk() && old(infos) <= infos
      ensures
        var (keys', trunc) := Labels.Union(old(KeysOf(infos)), n, Call(next, CONST_LABEL, Trunc, part, 0, 0));
        (KeysOf(infos), r) == Labels.Union(keys', n, Call(lbl, trunc, Concat, total, 0, 0))
    {
      UnionWf(KeysOf(infos), n, Call(next, CONST_LABEL, Trunc, part, 0, 0));
      var trunc := Union(next, CONST_LABEL, Trunc, part, 0, 0);
      r := Union(lbl, trunc, Concat, total, 0, 0);
    }

    /** Writes the labels of the bytes of l to the shadow ls. */
    method UnionStore(l: Label, ls: array<Label>)
      requires LabelsOk() && l < |infos|
      modifies this`infos, this`index, table.bucket, ls
      ensures LabelsOk() && old(infos) <= infos
      ensures (KeysOf(infos), ls[..]) == LoadStore.UnionStore(old(KeysOf(infos)), n, l, ls.Length)
    {
      var i := 0;
      if l == CONST_LABEL {
        while i < ls.Length
          modifies ls
          invariant 0 <= i <= ls.Length && ls[..i] == seq(i, j => CONST_LABEL)
          invariant LabelsOk()
        {
          ls[i] := l;
          i := i + 1;
        }
        assert ls[..] == ls[..i];
        return;
      }
      if ls.Length == 1 && infos[l].key.size == 8 {
        ls[0] := l;
        assert ls[..] == [l];
        return;
      }
      if infos[l].key.op.Load? {
        var label0 := infos[l].key.l1;
        while i < ls.Length
          modifies ls
          invariant 0 <= i <= ls.Length && ls[..i] == seq(i, j requires 0 <= j => label0 + j)
          invariant LabelsOk()
        {
          ls[i] := label0 + i;
          i := i + 1;
        }
        assert ls[..] == ls[..i];
        return;
      }
      StoreExtracts(l, ls);
    }

    method StoreExtracts(l: Label, ls: array<Label>)
      requires LabelsOk() && 0 < l < |infos|
      modifies this`infos, this`index, table.bucket, ls
      ensures LabelsOk() && old(infos) <= infos
      ensures (KeysOf(infos), ls[..]) == Extracts(old(KeysOf(infos)), n, l, 0, ls.Length)
    {
      ghost var goal := Extracts(KeysOf(infos), n, l, 0, ls.Length);
      ghost var rest := goal.1;
      var i := 0;
      while i < ls.Length
        invariant 0 <= i <= ls.Length && LabelsOk() && old(infos) <= infos
        invariant Extracts(KeysOf(infos), n, l, i, ls.Length) == (goal.0, rest)
        invariant goal.1 == ls[..i] + rest
      {
        var e := ExtractByte(l, i, ls.Length);
        WriteLabel(ls, i, e);
        rest := rest[1..];
        i := i + 1;
      }
      assert goal.0 == KeysOf(infos) && goal.1 == ls[..i] == ls[..];
    }

    /** Shadow memory is apart from the label records. */
    method WriteLabel(ls: array<Label>, i: nat, e: Label)
      requires LabelsOk() && i < ls.Length
      modifies ls
      ensures LabelsOk() && ls[..i + 1] == old(ls[..i]) + [e]
    {
      ls[i] := e;
    }

    method ExtractByte(l: Label, i: nat, ghost count: nat) returns (e: Label)
      requires LabelsOk() && 0 < l < |infos| && i < count
      modifies this`infos, this`index, table.bucket
      ensures LabelsOk() && old(infos) <= infos
      ensures
        var before := Extracts(old(KeysOf(infos)), n, l, i, count);
        && Extracts(KeysOf(infos), n, l, i + 1, count) == (before.0, before.1[1..])
        && before.1 == [e] + before.1[1..]
    {
      ExtractsStep(KeysOf(infos), n, l, i, count);
      e := Union(l, CONST_LABEL, Extract, 8, 0, i * 8);
    }

    // -------------------------------------------------------------- serialize

    method CacheExpr(l: Label, e: Expr, deps: set<nat>)
      requires InfosOk(infos, n) && n < l < |infos| && CachedOk(KeysOf(infos), n, l, Cached(e, deps))
      requires infos[l].cached.None? && HeldBelow(infos, n, l, deps)
      modifies this`infos
      ensures InfosOk(infos, n) && Grew(old(infos), infos, n, l) && KeysOf(infos) == old(KeysOf(infos))
      ensures Held(infos, n, l, deps)
      ensures infos[l].cached == Some(Cached(e, deps))
    {
      CacheKeepsOk(infos, n, l, Cached(e, deps));
      infos := infos[l := infos[l].(cached := Some(Cached(e, deps)))];
      SameKeysOf(old(infos), infos);
    }

    /** Remembers what was built for l from its operands. */
    method Remember(l: Label, e: Option<Expr>, deps0: set<nat>, deps: set<nat>, ghost before: seq<LabelInfo>)
      requires InfosOk(infos, n) && InfosOk(before, n) && n < l < |infos| && Remembered(infos[l].key.op)
      requires KeysOf(before) == KeysOf(infos) && |before| == |infos| && Grew(before, infos, n, l) && infos[l].cached.None?
      requires Incoming(KeysOf(infos), n, l, deps0) && Serialized(before, n, l, deps0, e, deps)
      requires e.Some? ==> HeldBelow(infos, n, l, deps)
      modifies this`infos
      ensures InfosOk(infos, n) && Grew(before, infos, n, l) && KeysOf(infos) == old(KeysOf(infos))
      ensures e.Some? ==> Held(infos, n, l, deps) && infos[l].cached == Some(Cached(e.value, deps))
    {
      if e.Some? {
        ResultOk(before, n, l, deps0, e, deps);
        CacheExpr(l, e.value, deps);
        GrewTrans(before, old(infos), infos, n, l);
      }
    }

    /** The expression of a label, remembering what was built on the way. */
    method Serialize(l: Label, deps0: set<nat>) returns (e: Option<Expr>, deps: set<nat>)
      requires InfosOk(infos, n) && l < |infos| && Incoming(KeysOf(infos), n, l, deps0)
      modifies this`infos
      ensures InfosOk(infos, n) && Grew(old(infos), infos, n, l) && KeysOf(infos) == old(KeysOf(infos))
      ensures Serialized(old(infos), n, l, deps0, e, deps)
      ensures e.Some? ==> Held(infos, n, l, deps)
      ensures e.Some? && ExactAt(KeysOf(infos), n, l) ==> deps == deps0 + Mentions(e.value)
      ensures e.Some? && old(infos[l].cached.None?) && Remembered(infos[l].key.op) ==>
                infos[l].cached == Some(Cached(e.value, deps))
      ensures !Remembered(infos[l].key.op) ==> infos[l] == old(infos[l])
      ensures infos[l].key.op.FMemcmp? ==> Spills(old(infos), infos, n, l, deps0, deps)
      decreases l, 2
    {
      if l <= n {
        e, deps := SerializeInput(l, deps0);
      } else {
        e, deps := SerializeCreated(l, deps0);
      }
      if e.Some? { ExactReturns(old(infos), n, l, deps0, e, deps); }
    }

    /** A label that stands for an operation. */
    method SerializeCreated(l: Label, deps0: set<nat>) returns (e: Option<Expr>, deps: set<nat>)
      requires InfosOk(infos, n) && n < l < |infos| && Incoming(KeysOf(infos), n, l, deps0)
      modifies this`infos
      ensures InfosOk(infos, n) && Grew(old(infos), infos, n, l) && KeysOf(infos) == old(KeysOf(infos))
      ensures Serialized(old(infos), n, l, deps0, e, deps)
      ensures e.Some? ==> Held(infos, n, l, deps)
      ensures e.Some? && old(infos[l].cached.None?) && Remembered(infos[l].key.op) ==>
                infos[l].cached == Some(Cached(e.value, deps))
      ensures infos[l].key.op.FMemcmp? ==> infos[l] == old(infos[l]) && Spills(old(infos), infos, n, l, deps0, deps)
      decreases l, 1
    {
      var info := infos[l];
      assert EntryOk(infos, n, l);
      if info.cached.Some? {
        CachedStores(infos, n, l);
        e, deps := Some(info.cached.value.expr), deps0 + info.cached.value.deps;
        HeldMore(infos, n, l, info.cached.value.deps, deps);
        return;
      }
      assert WfNode(KeysOf(infos)[l], n, l);
      var op := info.key.op;
      if op.Load? {
        e, deps := SerializeLoad(l, deps0);
      } else if IsUnary(op) {
        e, deps := SerializeUnary(l, deps0);
      } else if op.Not? || op.Negate? {
        e, deps := SerializeNegation(l, deps0);
      } else if op.FMemcmp? {
        e, deps := SerializeMemcmp(l, deps0);
      } else {
        e, deps := SerializeCommon(l, deps0);
      }
    }

    /** An input byte, not cached; the constant has no expression. */
    method SerializeInput(l: Label, deps0: set<nat>) returns (e: Option<Expr>, deps: set<nat>)
      requires InfosOk(infos, n) && l <= n && Incoming(KeysOf(infos), n, l, deps0)
      ensures Serialized(infos, n, l, deps0, e, deps)
    {
      if l == CONST_LABEL {
        return None, deps0;
      }
      BuildUnfold(KeysOf(infos), n, l);
      BuildMentions(KeysOf(infos), n, l);
      deps := deps0 + {infos[l].key.op1};
      e := Some(Sym(infos[l].key.op1));
    }

    /** Consecutive input bytes, first one lowest. */
    method SerializeLoad(l: Label, deps0: set<nat>) returns (e: Option<Expr>, deps: set<nat>)
      requires InfosOk(infos, n) && n < l < |infos| && Incoming(KeysOf(infos), n, l, deps0)
      requires infos[l].key.op.Load? && infos[l].cached.None?
      modifies this`infos
      ensures InfosOk(infos, n) && Grew(old(infos), infos, n, l) && KeysOf(infos) == old(KeysOf(infos))
      ensures Serialized(old(infos), n, l, deps0, e, deps)
      ensures e.Some? && Held(infos, n, l, deps) && infos[l].cached == Some(Cached(e.value, deps))
    {
      var key := infos[l].key;
      LoadStep(KeysOf(infos), n, l);
      var out;
      out, deps := ConcatInputs(infos[key.l1].key.op1, key.l2, deps0);
      e := Some(out);
      StoredUnfold(infos, n, l, deps0, Mentions(out));
      assert deps == deps0 + Mentions(out) + Stored(infos, n, l);
      Remember(l, e, deps0, deps, infos);
    }

    static method ConcatInputs(offset: nat, count: nat, deps0: set<nat>) returns (out: Expr, deps: set<nat>)
      requires count >= 1
      ensures out == LoadExpr(offset, count) && deps == deps0 + Span(offset, count)
    {
      out := Sym(offset);
      deps := deps0 + {offset};
      var i := 1;
      while i < count
        invariant 1 <= i <= count
        invariant out == LoadExpr(offset, i) && deps == deps0 + Span(offset, i)
      {
        out := Cat(Sym(offset + i), out);
        deps := deps + {offset + i};
        i := i + 1;
      }
    }

    /** Widening, truncation and extraction of the first operand. */
    method SerializeUnary(l: Label, deps0: set<nat>) returns (e: Option<Expr>, deps: set<nat>)
      requires InfosOk(infos, n) && n < l < |infos| && Incoming(KeysOf(infos), n, l, deps0)
      requires IsUnary(infos[l].key.op) && infos[l].cached.None?
      modifies this`infos
      ensures InfosOk(infos, n) && Grew(old(infos), infos, n, l) && KeysOf(infos) == old(KeysOf(infos))
      ensures Serialized(old(infos), n, l, deps0, e, deps)
      ensures e.Some? ==> Held(infos, n, l, deps) && infos[l].cached == Some(Cached(e.value, deps))
      decreases l, 0
    {
      var key := infos[l].key;
      UnaryStep(KeysOf(infos), n, l);
      HandOn(KeysOf(infos), n, key.l1, l, deps0);
      var base;
      base, deps := Serialize(key.l1, deps0);
      GrewBelow(old(infos), infos, n, key.l1, l);
      e := if base.Some? then UnaryExpr(key, base.value) else None;
      StoredUnfold(old(infos), n, l, deps0, MentionsOf(base));
      Remember(l, e, deps0, deps, old(infos));
    }

    /** Logical and arithmetic negation of the second operand. */
    method SerializeNegation(l: Label, deps0: set<nat>) returns (e: Option<Expr>, deps: set<nat>)
      requires InfosOk(infos, n) && n < l < |infos| && Incoming(KeysOf(infos), n, l, deps0)
      requires (infos[l].key.op.Not? || infos[l].key.op.Negate?) && infos[l].cached.None?
      modifies this`infos
      ensures InfosOk(infos, n) && Grew(old(infos), infos, n, l) && KeysOf(infos) == old(KeysOf(infos))
      ensures Serialized(old(infos), n, l, deps0, e, deps)
      ensures e.Some? ==> Held(infos, n, l, deps) && infos[l].cached == Some(Cached(e.value, deps))
      decreases l, 0
    {
      var key := infos[l].key;
      NegationStep(KeysOf(infos), n, l);
      HandOn(KeysOf(infos), n, key.l2, l, deps0);
      if key.l2 == 0 || (key.op.Not? && key.size != 1) {
        return None, deps0;
      }
      var base;
      base, deps := Serialize(key.l2, deps0);
      GrewBelow(old(infos), infos, n, key.l2, l);
      e := if base.Some? then Checked(if key.op.Not? then LNot(base.value) else Neg(base.value)) else None;
      StoredUnfold(old(infos), n, l, deps0, MentionsOf(base));
      Remember(l, e, deps0, deps, old(infos));
    }

    /** Comparison of two memory blocks; not cached, and the second operand starts from the offsets of
        the first. */
    method SerializeMemcmp(l: Label, deps0: set<nat>) returns (e: Option<Expr>, deps: set<nat>)
      requires InfosOk(infos, n) && n < l < |infos| && Incoming(KeysOf(infos), n, l, deps0)
      requires infos[l].key.op.FMemcmp? && infos[l].cached.None?
      modifies this`infos
      ensures InfosOk(infos, n) && Grew(old(infos), infos, n, l) && KeysOf(infos) == old(KeysOf(infos))
      ensures Serialized(old(infos), n, l, deps0, e, deps) && infos[l] == old(infos[l])
      ensures e.Some? ==> Held(infos, n, l, deps)
      ensures Spills(old(infos), infos, n, l, deps0, deps)
      decreases l, 0
    {
      MemcmpStep(KeysOf(infos), n, l);
      var e1, e2;
      e1, e2, deps := SerializeBlocks(l, deps0);
      StoredUnfold(old(infos), n, l, deps0, {});
      e := if e1.Some? && e2.Some? then Checked(BytesDiffer(e1.value, e2.value)) else None;
    }

    /** The blocks of a memory comparison; the second is left out when the first cannot be built. */
    method SerializeBlocks(l: Label, deps0: set<nat>) returns (e1: Option<Expr>, e2: Option<Expr>, deps: set<nat>)
      requires InfosOk(infos, n) && n < l < |infos| && Incoming(KeysOf(infos), n, l, deps0)
      requires infos[l].key.op.FMemcmp? && infos[l].cached.None?
      modifies this`infos
      ensures InfosOk(infos, n) && Grew(old(infos), infos, n, l) && KeysOf(infos) == old(KeysOf(infos))
      ensures infos[l] == old(infos[l])
      ensures
        var key, keys := infos[l].key, KeysOf(infos);
        && key.l1 < l && key.l2 < l
        && e1 == Build(keys, n, key.l1) && (e1.Some? ==> e2 == Build(keys, n, key.l2))
      ensures deps0 <= deps <= Offsets(n)
      ensures e1.Some? && e2.Some? ==>
                && deps == deps0 + (Mentions(e1.value) + Mentions(e2.value)) + StoredBelow(old(infos), n, l)
                && HeldBelow(infos, n, l, deps)
      ensures Spills(old(infos), infos, n, l, deps0, deps)
      decreases l, 0, 0
    {
      var key := infos[l].key;
      HandOn(KeysOf(infos), n, key.l1, l, deps0);
      e1, deps := Serialize(key.l1, deps0);
      GrewBelow(old(infos), infos, n, key.l1, l);
      HandAcross(KeysOf(infos), n, l, deps);
      e2 := None;
      if e1.Some? {
        ghost var deps1, between := deps, infos;
        e2, deps := Serialize(key.l2, deps);
        GrewBelow(between, infos, n, key.l2, l);
        GrewTrans(old(infos), between, infos, n, l);
        if e2.Some? {
          BothStored(old(infos), between, infos, n, l, deps1, deps);
          SpillsBy(old(infos), between, infos, n, l, deps0, deps1, e1.value, e2.value, deps);
        }
      }
    }

    /** The two-operand operators. The second operand collects its offsets separately. */
    method SerializeCommon(l: Label, deps0: set<nat>) returns (e: Option<Expr>, deps: set<nat>)
      requires InfosOk(infos, n) && n < l < |infos| && Incoming(KeysOf(infos), n, l, deps0)
      requires IsBinary(infos[l].key.op) && infos[l].cached.None?
      modifies this`infos
      ensures InfosOk(infos, n) && Grew(old(infos), infos, n, l) && KeysOf(infos) == old(KeysOf(infos))
      ensures Serialized(old(infos), n, l, deps0, e, deps)
      ensures e.Some? ==> Held(infos, n, l, deps) && infos[l].cached == Some(Cached(e.value, deps))
      decreases l, 0
    {
      var key := infos[l].key;
      CommonStep(KeysOf(infos), n, l);
      var op1, op2;
      op1, op2, deps := SerializeOperands(l, deps0);
      StoredUnfold(old(infos), n, l, deps0, {});
      e := if op1.Some? && op2.Some? then BinaryExpr(key.op, key.size, op1.value, op2.value) else None;
      Remember(l, e, deps0, deps, old(infos));
    }

    /** The operands of a two-operand operator; none after the first that cannot be built. */
    method SerializeOperands(l: Label, deps0: set<nat>) returns (op1: Option<Expr>, op2: Option<Expr>, deps: set<nat>)
      requires InfosOk(infos, n) && n < l < |infos| && Incoming(KeysOf(infos), n, l, deps0)
      requires IsBinary(infos[l].key.op) && infos[l].cached.None?
      modifies this`infos
      ensures InfosOk(infos, n) && Grew(old(infos), infos, n, l) && KeysOf(infos) == old(KeysOf(infos))
      ensures infos[l] == old(infos[l]) && deps0 <= deps <= Offsets(n)
      ensures OperandsBuilt(KeysOf(infos), n, l, op1, op2)
      ensures op1.Some? && op2.Some? ==>
                && deps == deps0 + BytesBelow(KeysOf(infos), n, l) + StoredBelow(old(infos), n, l)
                && HeldBelow(infos, n, l, deps)
      decreases l, 0, 0
    {
      var key := infos[l].key;
      HandOn(KeysOf(infos), n, key.l1, l, deps0);
      op1, op2, deps := None, None, deps0;
      var w1 := ConstWidth1(key, infos[key.l2].key.size);
      if w1 == 0 {
        return;
      }
      op1, deps := SerializeOperand(key.l1, ConstOperand(key.size, w1, key.op1), deps0);
      GrewBelow(old(infos), infos, n, key.l1, l);
      var w2 := ConstWidth2(key, infos[key.l1].key.size, infos[key.l2].key.size);
      if op1.None? || w2 == 0 {
        return;
      }
      ghost var between := infos;
      var deps2;
      op2, deps2 := SerializeOperand(key.l2, ConstOperand(key.size, w2, key.op2), {});
      GrewBelow(between, infos, n, key.l2, l);
      GrewTrans(old(infos), between, infos, n, l);
      if op2.Some? {
        BothStored(old(infos), between, infos, n, l, deps, deps2);
        ghost var keys := KeysOf(infos);
        AccumulateApart(deps0, MentionsOf(Build(keys, n, key.l1)), MentionsOf(Build(keys, n, key.l2)),
                        Stored(old(infos), n, key.l1), Stored(old(infos), n, key.l2), Stored(between, n, key.l2), deps, deps2);
        deps := deps + deps2;
      }
    }

    /** An operand: a label's expression, or a constant. */
    method SerializeOperand(o: Label, constant: Expr, deps0: set<nat>) returns (r: Option<Expr>, deps: set<nat>)
      requires InfosOk(infos, n) && o < |infos| && Incoming(KeysOf(infos), n, o, deps0)
      modifies this`infos
      ensures InfosOk(infos, n) && Grew(old(infos), infos, n, o) && KeysOf(infos) == old(KeysOf(infos))
      ensures r == Operand(KeysOf(infos), n, o, constant) && deps0 <= deps <= Offsets(n)
      ensures r.Some? ==>
                && deps == deps0 + MentionsOf(Build(KeysOf(infos), n, o)) + Stored(old(infos), n, o)
                && Held(infos, n, o, deps)
      decreases o, 3
    {
      if o > 0 {
        r, deps := Serialize(o, deps0);
      } else {
        r, deps := Some(constant), deps0;
      }
    }

    // -------------------------------------------------------------- constraints and branches

    /** Serializes from scratch; the table over the records is not affected. */
    method SerializeLabel(l: Label) returns (e: Option<Expr>, deps: set<nat>)
      requires LabelsOk() && l < |infos|
      modifies this`infos
      ensures LabelsOk() && SameRecords(old(infos), infos)
      ensures e == Build(KeysOf(infos), n, l)
      ensures e.Some? ==> DepsOk(KeysOf(infos), n, l, e.value, deps) && SortOf(e.value).Some?
      ensures e.Some? && ExactAt(KeysOf(infos), n, l) ==> deps == Mentions(e.value)
    {
      e, deps := Serialize(l, {});
      HoldsStable(table.bucket[..], old(infos), infos, index);
      BuildSorted(KeysOf(infos), n, l);
    }

    method MarkFlipped(l: Label)
      requires LabelsOk() && l < |infos|
      modifies this`infos
      ensures LabelsOk() && infos == old(infos)[l := old(infos[l]).(flipped := true)]
      ensures KeysOf(infos) == old(KeysOf(infos))
    {
      FlagKeepsOk(infos, n, l);
      HoldsStable(table.bucket[..], infos, infos[l := infos[l].(flipped := true)], index);
      infos := infos[l := infos[l].(flipped := true)];
    }

    /** Records e, needed by the bytes seed, at all of inputs. */
    method RecordConstraint(seed: set<nat>, inputs: set<nat>, e: Expr)
      requires PathValid() && SortOf(e).Some? && Mentions(e) <= seed <= inputs <= Offsets(n)
      requires forall a, b | a in inputs && b in inputs :: Linked(joins + [seed], a, b)
      modifies this`store, this`joins, this`path
      ensures PathValid() && path == old(path) + [e] && joins == old(joins) + [seed]
      ensures store == Record(old(store), inputs, e)
      ensures old(OwnBytes(joins, path)) && seed == Mentions(e) ==> OwnBytes(joins, path)
    {
      RecordKeepsInv(store, joins, seed, inputs, e);
      RecordKeepsPath(store, joins, path, seed, inputs, e);
      store := RecordAt(store, inputs, e);
      joins := joins + [seed];
      path := path + [e];
    }

    /** Records e at its own bytes. */
    method RecordOwn(inputs: set<nat>, e: Expr)
      requires PathValid() && SortOf(e).Some? && Mentions(e) <= inputs <= Offsets(n)
      modifies this`store, this`joins, this`path
      ensures PathValid() && path == old(path) + [e] && joins == old(joins) + [inputs]
      ensures old(OwnBytes(joins, path)) && inputs == Mentions(e) ==> OwnBytes(joins, path)
      ensures Faithful(old(path), original) && Truth(Denote(e, original)) ==> Faithful(path, original)
    {
      forall a, b | a in inputs && b in inputs ensures Linked(joins + [inputs], a, b) {
        SelfLinked(joins, inputs, a, b);
      }
      RecordConstraint(inputs, inputs, e);
    }

    /** Adds a label's condition to the path, once per label. */
    method AddConstraints(l: Label)
      requires Valid() && l < |infos|
      modifies this`infos, this`store, this`joins, this`path
      ensures Valid() && KeysOf(infos) == old(KeysOf(infos))
      ensures forall k | 0 <= k < |infos| :: infos[k].flipped == (old(infos[k].flipped) || k == l)
      ensures
        var e := Build(KeysOf(infos), n, l);
        path == if old(infos[l].flipped) || e.None? then old(path) else old(path) + [e.value]
      ensures Faithful(old(path), original) && Eval(KeysOf(infos), n, l, original) == Some(BoolVal(true)) ==>
                Faithful(path, original)
      ensures old(OwnBytes(joins, path)) && ExactAt(KeysOf(infos), n, l) ==> OwnBytes(joins, path)
    {
      if infos[l].flipped {
        return;
      }
      var cond, inputs := SerializeLabel(l);
      SameKeysOf(old(infos), infos);
      if cond.Some? {
        RecordOwn(inputs, cond.value);
      }
      MarkFlipped(l);
    }

    /** Looks for an input that takes a branch the other way, then adds the branch to the path. */
    method SolveCond(l: Label, result: bool, addNested: bool, oracle: Oracle) returns (out: Outcome)
      requires Valid() && l < |infos| && SoundOracle(oracle)
      modifies this`infos, this`store, this`joins, this`path
      ensures Valid() && KeysOf(infos) == old(KeysOf(infos))
      ensures forall k | 0 <= k < |infos| :: infos[k].flipped == (old(infos[k].flipped) || (k == l && !out.Failed?))
      ensures out.Skipped? <==> old(infos[l].flipped)
      ensures
        var e := Build(KeysOf(infos), n, l);
        if out.Skipped? then path == old(path)
        else if e.None? || !IsBool(e.value) then out.Failed? && path == old(path)
        else
          && Delivers(out, e.value, result, old(path), original, oracle)
          && path == if addNested && !out.Failed? then old(path) + [Taken(e.value, result)] else old(path)
      ensures old(OwnBytes(joins, path)) && ExactAt(KeysOf(infos), n, l) ==> OwnBytes(joins, path)
    {
      if infos[l].flipped {
        return Skipped;
      }
      var cond, seed := SerializeLabel(l);
      SameKeysOf(old(infos), infos);
      if cond.None? {
        return Failed;
      }
      out := Decide(seed, cond.value, result, addNested, oracle);
      if !out.Failed? {
        MarkFlipped(l);
      }
    }

    /** Queries the solver about the other side of a branch with the constraints it is connected to. */
    method Decide(seed: set<nat>, cond: Expr, result: bool, addNested: bool, oracle: Oracle) returns (out: Outcome)
      requires PathValid() && n == |original| && SoundOracle(oracle)
      requires SortOf(cond).Some? && Mentions(cond) <= seed <= Offsets(n)
      modifies this`store, this`joins, this`path
      ensures PathValid() && !out.Skipped?
      ensures
        if !IsBool(cond) then out.Failed? && path == old(path)
        else
          && Delivers(out, cond, result, old(path), original, oracle)
          && path == if addNested && !out.Failed? then old(path) + [Taken(cond, result)] else old(path)
      ensures old(OwnBytes(joins, path)) && seed == Mentions(cond) ==> OwnBytes(joins, path)
    {
      var inputs := CollectInputs(store, seed, joins);
      if !IsBool(cond) {
        return Failed;
      }
      out := Query(store, inputs, cond, result, original, oracle, joins, path, seed);
      if addNested && !out.Failed? {
        RecordTaken(seed, inputs, cond, result);
      }
    }

    /** The branch as taken, recorded at everything it is connected to. */
    method RecordTaken(seed: set<nat>, inputs: set<nat>, cond: Expr, result: bool)
      requires PathValid() && IsBool(cond) && Mentions(cond) <= seed
      requires IsComponent(joins, seed, inputs) && inputs <= Offsets(n)
      modifies this`store, this`joins, this`path
      ensures PathValid() && path == old(path) + [Taken(cond, result)] && joins == old(joins) + [seed]
      ensures old(OwnBytes(joins, path)) && seed == Mentions(cond) ==> OwnBytes(joins, path)
    {
      FlippedMeans(cond, result, original);
      forall a, b | a in inputs && b in inputs ensures Linked(joins + [seed], a, b) {
        ComponentLinked(joins, seed, inputs, a, b);
      }
      RecordConstraint(seed, inputs, Taken(cond, result));
    }

    // -------------------------------------------------------------- instrumentation entry points

    method Admit(context: Context) returns (traced: bool)
      modifies this`branches
      ensures (traced, branches) == Visit(old(branches), context)
    {
      if context !in branches {
        branches := branches[context := 1];
      } else if branches[context] < MAX_BRANCH_COUNT {
        branches := branches[context := branches[context] + 1];
      } else {
        return false;
      }
      return true;
    }

    /** A conditional branch on a label. */
    method TraceCond(l: Label, r: nat, context: Context, oracle: Oracle) returns (t: Trace)
      requires Valid() && l < |infos| && SoundOracle(oracle)
      modifies this`infos, this`store, this`joins, this`path, this`branches
      ensures Valid() && KeysOf(infos) == old(KeysOf(infos))
      ensures t.Ignored? <==> l == 0 || !Visit(old(branches), context).0
      ensures branches == if l == 0 then old(branches) else Visit(old(branches), context).1
      ensures t.Ignored? ==> path == old(path) && infos == old(infos)
      ensures t.Solved? ==> MarksOnly(old(infos), infos, l, !t.outcome.Failed?) && (t.outcome.Skipped? <==> old(infos[l].flipped))
      ensures !t.Ignored? ==> t.Solved? && PathAfter(old(path), path, t.outcome, true, KeysOf(infos), n, l, r != 0)
      ensures t.Solved? && !old(infos[l].flipped) ==>
                var e := Build(KeysOf(infos), n, l);
                if e.Some? && IsBool(e.value) then Answers(t.outcome, KeysOf(infos), n, l, r != 0, old(path), original, oracle)
                else t.outcome.Failed?
      ensures Eval(KeysOf(infos), n, l, original) == Some(BoolVal(r != 0)) && Faithful(old(path), original) ==>
                Faithful(path, original)
    {
      if l == 0 {
        return Ignored;
      }
      var traced := Admit(context);
      if !traced {
        return Ignored;
      }
      if Eval(KeysOf(infos), n, l, original) == Some(BoolVal(r != 0)) {
        ConditionFromValue(KeysOf(infos), n, l, r != 0, original);
      }
      var out := SolveCond(l, r != 0, true, oracle);
      t := Solved(out);
    }

    /** A comparison of a switch: c1 and c2 are the operands' values in this execution. */
    method TraceCmp(op1: Label, op2: Label, size: nat, predNo: nat, c1: nat, c2: nat, context: Context, oracle: Oracle)
      returns (t: Trace, ghost temp: Label)
      requires Valid() && op1 < |infos| && op2 < |infos| && SoundOracle(oracle)
      modifies this`infos, this`index, this`store, this`joins, this`path, this`branches, table.bucket
      ensures Valid() && old(KeysOf(infos)) <= KeysOf(infos)
      ensures t.Ignored? <==> (op1 == 0 && op2 == 0) || !Visit(old(branches), context).0
      ensures branches == if op1 == 0 && op2 == 0 then old(branches) else Visit(old(branches), context).1
      ensures t.Ignored? ==> path == old(path) && infos == old(infos)
      ensures !t.Ignored? ==> (t.Aborted? <==> size == 0 || !Operators.IsRelation(predNo))
      ensures t.Aborted? ==> path == old(path)
      ensures !t.Ignored? ==>
                (KeysOf(infos), temp) == Labels.Union(old(KeysOf(infos)), n, ComparisonOf(op1, op2, predNo, size, c1, c2))
      ensures t.Solved? ==>
                && temp < |infos|
                && PathAfter(old(path), path, t.outcome, c1 == c2, KeysOf(infos), n, temp, Related(predNo, size, c1, c2))
                && (t.outcome.Failed? || infos[temp].flipped)
      ensures old(TracksBoth(KeysOf(infos), n, op1, op2, size, c1, c2, original)) && Faithful(old(path), original) ==>
                Faithful(path, original) && (t.Solved? ==> !t.outcome.Failed?)
      ensures t.Solved? && !t.outcome.Skipped? && old(TracksBoth(KeysOf(infos), n, op1, op2, size, c1, c2, original)) ==>
                temp < |infos| &&
                Answers(t.outcome, KeysOf(infos), n, temp, Related(predNo, size, c1, c2), old(path), original, oracle)
    {
      temp := 0;
      if op1 == 0 && op2 == 0 {
        t := Ignored;
        return;
      }
      var traced := Admit(context);
      if !traced {
        t := Ignored;
        return;
      }
      var l := LabelComparison(op1, op2, size, predNo, c1, c2);
      temp := l;
      Operators.RelationKnown(predNo);
      if size == 0 || PredOf(predNo).None? {
        t := Aborted;
        return;
      }
      ConcreteIsRelated(predNo, size, c1, c2);
      var result := ConcreteResult(predNo, size, c1, c2);
      var out := SolveCond(l, result, c1 == c2, oracle);
      t := Solved(out);
    }

    /** The label of a comparison. The program keeps its width in eight bits. */
    method LabelComparison(op1: Label, op2: Label, size: nat, predNo: nat, c1: nat, c2: nat) returns (l: Label)
      requires LabelsOk() && op1 < |infos| && op2 < |infos| && (op1 > 0 || op2 > 0)
      modifies this`infos, this`index, table.bucket
      ensures LabelsOk() && old(KeysOf(infos)) <= KeysOf(infos) && l < |infos|
      ensures (KeysOf(infos), l) == Labels.Union(old(KeysOf(infos)), n, ComparisonOf(op1, op2, predNo, size, c1, c2))
      ensures Operators.IsRelation(predNo) && old(TracksBoth(KeysOf(infos), n, op1, op2, size, c1, c2, original)) ==>
                HoldsAs(KeysOf(infos), n, l, Related(predNo, size, c1, c2), original)
    {
      ghost var keys := KeysOf(infos);
      UnionWf(keys, n, ComparisonOf(op1, op2, predNo, size, c1, c2));
      l := Union(op1, op2, ICmp(predNo % 256), U8(size), c1, c2);
      if Operators.IsRelation(predNo) && TracksBoth(keys, n, op1, op2, size, c1, c2, original) {
        ComparisonCall(keys, n, op1, op2, predNo, size, c1, c2, original);
      }
    }
  }

  /** Two loads of two bytes each and their comparison, on a file of four bytes. */
  lemma BlockKeys(keys: seq<Key>)
    requires |keys| == 5 && WfTable(keys, 4)
    ensures
      var keys1 := keys + [Key(1, 2, Load, 16, 0, 0)];
      var keys2 := keys1 + [Key(3, 2, Load, 16, 0, 0)];
      && Labels.Union(keys, 4, Call(1, 2, Load, 16, 0, 0)) == (keys1, 5)
      && Labels.Union(keys1, 4, Call(3, 2, Load, 16, 0, 0)) == (keys2, 6)
      && Labels.Union(keys2, 4, Call(5, 6, FMemcmp, 2, 0, 0)) == (keys2 + [Key(5, 6, FMemcmp, 2, 0, 0)], 7)
  {}

  /** The bytes that the two loads mention. */
  lemma BlockMentions(keys: seq<Key>, e: Expr)
    requires WfTable(keys, 4) && |keys| == 8
    requires keys[5] == Key(1, 2, Load, 16, 0, 0) && keys[6] == Key(3, 2, Load, 16, 0, 0)
    requires Build(keys, 4, 6) == Some(e)
    ensures Build(keys, 4, 5).Some? && Mentions(Build(keys, 4, 5).value) == {0, 1} && Mentions(e) == {2, 3}
  {
    assert keys[1].op1 == 0 && keys[3].op1 == 2;
    LoadStep(keys, 4, 5);
    LoadStep(keys, 4, 6);
  }

  method ComparedBlocks() returns (t: TaintRuntime)
    ensures fresh(t) && t.LabelsOk() && t.n == 4
    ensures |t.infos| == 8 && forall k | 0 <= k < 8 :: t.infos[k].cached.None?
    ensures t.infos[5].key == Key(1, 2, Load, 16, 0, 0) && t.infos[6].key == Key(3, 2, Load, 16, 0, 0)
    ensures t.infos[7].key == Key(5, 6, FMemcmp, 2, 0, 0)
  {
    t := new TaintRuntime([0, 0, 0, 0]);
    BlockKeys(KeysOf(t.infos));
    var a := t.Union(1, 2, Load, 16, 0, 0);
    assert t.infos[5].key == KeysOf(t.infos)[5];
    var b := t.Union(3, 2, Load, 16, 0, 0);
    assert t.infos[6].key == KeysOf(t.infos)[6];
    var c := t.Union(5, 6, FMemcmp, 2, 0, 0);
    assert t.infos[7].key == KeysOf(t.infos)[7];
  }

  /** Nothing is stored below the comparison, and its first operand does not contain the second. */
  lemma {:induction false} BlocksUntouched(infos: seq<LabelInfo>)
    requires WfTable(KeysOf(infos), 4) && |infos| == 8 && forall k | 0 <= k < 8 :: infos[k].cached.None?
    requires infos[5].key == Key(1, 2, Load, 16, 0, 0) && infos[7].key == Key(5, 6, FMemcmp, 2, 0, 0)
    ensures StoredBelow(infos, 4, 7) == {} && !Under(KeysOf(infos), 4, 6, 5)
  {
    UntouchedStores(infos, 4, 5);
    UntouchedStores(infos, 4, 6);
  }

  lemma {:induction false} BlocksSpill(before: seq<LabelInfo>, infos: seq<LabelInfo>, deps: set<nat>)
    requires WfTable(KeysOf(before), 4) && |before| == 8 == |infos| && forall k | 0 <= k < 8 :: before[k].cached.None?
    requires before[5].key == Key(1, 2, Load, 16, 0, 0) && before[6].key == Key(3, 2, Load, 16, 0, 0)
    requires before[7].key == Key(5, 6, FMemcmp, 2, 0, 0) && Spills(before, infos, 4, 7, {}, deps)
    ensures
      var c := infos[6].cached;
      c.Some? && c.value.deps == {0, 1, 2, 3} && Mentions(c.value.expr) == {2, 3}
  {
    var keys := KeysOf(before);
    BlocksUntouched(before);
    LoadStep(keys, 4, 6);
    BlockMentions(keys, Build(keys, 4, 6).value);
  }

  /** Serializing the comparison leaves the second load with the offsets of all four bytes in its cache,
      although it mentions two. */
  method SpilledOffsets() returns (cached: set<nat>, mentioned: set<nat>)
    ensures cached == {0, 1, 2, 3} && mentioned == {2, 3}
  {
    var t := ComparedBlocks();
    ghost var before := t.infos;
    var e, deps := t.Serialize(7, {});
    BlocksSpill(before, t.infos, deps);
    var second := t.infos[6].cached.value;
    cached, mentioned := second.deps, Mentions(second.expr);
  }

  /** Six input bytes, the loads of two of them each, the comparison of the first two loads, and one more than
      the third load. */
  function BesideComparison(): seq<Key> {
    [InputKey(0), InputKey(0), InputKey(1), InputKey(2), InputKey(3), InputKey(4), InputKey(5),
     Key(1, 2, Load, 16, 0, 0), Key(3, 2, Load, 16, 0, 0), Key(7, 8, FMemcmp, 2, 0, 0), Key(5, 2, Load, 16, 0, 0),
     Key(0, 10, Add, 16, 1, 0)]
  }

  lemma {:induction false} OnlySecondIsExposed(k: Label)
    ensures WfTable(BesideComparison(), 6) && (Exposed(BesideComparison(), 6, k) <==> k == 8)
  {
    var keys := BesideComparison();
    assert HandedOn(keys, 6, k, 8) <==> k == 8;
    assert keys[9].op.FMemcmp? && keys[9].l2 == 8;
  }

  lemma {:induction false} UnderBesideComparison()
    ensures
      var keys := BesideComparison();
      && WfTable(keys, 6) && Under(keys, 6, 8, 8) && Under(keys, 6, 8, 9)
      && !Under(keys, 6, 8, 7) && !Under(keys, 6, 8, 10) && !Under(keys, 6, 8, 11)
  {
    OnlySecondIsExposed(8);
  }

  /** The offsets of what has nothing to do with the comparison are exact, those of its first operand as well;
      the second operand is exposed. */
  lemma {:induction false} ExactBesideComparison()
    ensures
      var keys := BesideComparison();
      && WfTable(keys, 6) && ExactAt(keys, 6, 7) && !ExactAt(keys, 6, 8) && !ExactAt(keys, 6, 9)
      && ExactAt(keys, 6, 10) && ExactAt(keys, 6, 11)
  {
    forall k { OnlySecondIsExposed(k); }
    UnderBesideComparison();
  }
}
