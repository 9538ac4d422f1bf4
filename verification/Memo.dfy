/** What the cache in the label records guarantees. */
module Memo {
  import opened Options
  import opened Expressions
  import opened Labels
  import opened HashTable

  function KeysOf(infos: seq<LabelInfo>): (keys: seq<Key>)
    ensures |keys| == |infos|
    ensures forall k | 0 <= k < |infos| :: keys[k] == infos[k].key
  {
    seq(|infos|, k requires 0 <= k < |infos| => infos[k].key)
  }

  // ---------------------------------------------------------------- which labels serialization visits

  /** The results of these operators are cached. */
  predicate Remembered(op: Op) { !op.Input? && !op.FMemcmp? }

  /** The operands that serializing a label visits; zero for none. */
  function First(key: Key): Label {
    if key.op.Input? || key.op.Load? || key.op.Not? || key.op.Negate? then 0 else key.l1
  }

  function Second(key: Key): Label {
    if key.op.Input? || key.op.Load? || IsUnary(key.op) then 0 else key.l2
  }

  /** k is l or one of the created labels l is built from. A Load is built from input bytes, which are not
      created. */
  ghost predicate Under(keys: seq<Key>, n: nat, k: Label, l: Label)
    requires WfTable(keys, n) && l < |keys|
    decreases l
  {
    n < l && (k == l || Under(keys, n, k, First(keys[l])) || Under(keys, n, k, Second(keys[l])))
  }

  /** These operators serialize their second operand on top of the offsets collected so far; the others
      start it from none. */
  predicate HandsSecond(op: Op) { op.Not? || op.Negate? || op.FMemcmp? }

  /** Offsets that the serialization of l starts with are handed on to k. */
  ghost predicate HandedOn(keys: seq<Key>, n: nat, k: Label, l: Label)
    requires WfTable(keys, n) && l < |keys|
    decreases l
  {
    n < l && (k == l || HandedOn(keys, n, k, First(keys[l]))
              || (HandsSecond(keys[l].op) && HandedOn(keys, n, k, Second(keys[l]))))
  }

  lemma {:induction false} UnderTrans(keys: seq<Key>, n: nat, j: Label, k: Label, l: Label)
    requires WfTable(keys, n) && l < |keys| && k < |keys| && Under(keys, n, j, k) && Under(keys, n, k, l)
    ensures Under(keys, n, j, l)
    decreases l
  {
    if k != l {
      if Under(keys, n, k, First(keys[l])) {
        UnderTrans(keys, n, j, k, First(keys[l]));
      } else {
        UnderTrans(keys, n, j, k, Second(keys[l]));
      }
    }
  }

  lemma {:induction false} HandedOnTrans(keys: seq<Key>, n: nat, j: Label, k: Label, l: Label)
    requires WfTable(keys, n) && l < |keys| && k < |keys| && HandedOn(keys, n, j, k) && HandedOn(keys, n, k, l)
    ensures HandedOn(keys, n, j, l)
    decreases l
  {
    if k != l {
      if HandedOn(keys, n, k, First(keys[l])) {
        HandedOnTrans(keys, n, j, k, First(keys[l]));
      } else {
        HandedOnTrans(keys, n, j, k, Second(keys[l]));
      }
    }
  }

  lemma {:induction false} UnderStable(keys: seq<Key>, more: seq<Key>, n: nat, k: Label, l: Label)
    requires WfTable(keys, n) && WfTable(more, n) && keys <= more && l < |keys|
    ensures Under(more, n, k, l) <==> Under(keys, n, k, l)
    ensures HandedOn(more, n, k, l) <==> HandedOn(keys, n, k, l)
    ensures Under(keys, n, k, l) ==> n < k <= l
    decreases l
  {
    if n < l {
      UnderStable(keys, more, n, k, First(keys[l]));
      UnderStable(keys, more, n, k, Second(keys[l]));
    }
  }

  /** Some memory comparison hands the offsets of its first operand to k, by way of its second. */
  ghost predicate Exposed(keys: seq<Key>, n: nat, k: Label)
    requires WfTable(keys, n)
  {
    exists c :: n < c < |keys| && keys[c].op.FMemcmp? && HandedOn(keys, n, k, keys[c].l2)
  }

  /** Nothing that l is built from is exposed to a memory comparison. */
  ghost predicate ExactAt(keys: seq<Key>, n: nat, l: Label)
    requires WfTable(keys, n) && l < |keys|
  {
    forall k | n < k < |keys| && Under(keys, n, k, l) :: !Exposed(keys, n, k)
  }

  lemma {:induction false} OperandsUnder(keys: seq<Key>, n: nat, l: Label)
    requires WfTable(keys, n) && n < l < |keys|
    ensures First(keys[l]) < l && Second(keys[l]) < l
    ensures n < First(keys[l]) ==> Under(keys, n, First(keys[l]), l)
    ensures n < Second(keys[l]) ==> Under(keys, n, Second(keys[l]), l)
  {
    assert WfNode(keys[l], n, l);
  }

  /** What a label is built from is exact with it. */
  lemma {:induction false} OperandExact(keys: seq<Key>, n: nat, o: Label, l: Label)
    requires WfTable(keys, n) && n < l < |keys| && (o == First(keys[l]) || o == Second(keys[l]))
    ensures o < l && (ExactAt(keys, n, l) ==> ExactAt(keys, n, o))
  {
    OperandsUnder(keys, n, l);
    if ExactAt(keys, n, l) && n < o {
      forall k | n < k < |keys| && Under(keys, n, k, o) ensures !Exposed(keys, n, k) {
        UnderTrans(keys, n, k, o, l);
      }
    }
  }

  /** New labels can expose more, never less. */
  lemma {:induction false} ExactStable(keys: seq<Key>, more: seq<Key>, n: nat, l: Label)
    requires WfTable(keys, n) && WfTable(more, n) && keys <= more && l < |keys|
    ensures ExactAt(more, n, l) ==> ExactAt(keys, n, l)
  {
    if ExactAt(more, n, l) {
      forall k | n < k < |keys| && Under(keys, n, k, l) ensures !Exposed(keys, n, k) {
        UnderStable(keys, more, n, k, l);
        assert !Exposed(more, n, k);
        forall c | n < c < |keys| && keys[c].op.FMemcmp? ensures !HandedOn(keys, n, k, keys[c].l2) {
          UnderStable(keys, more, n, k, keys[c].l2);
          assert more[c].op.FMemcmp?;
        }
      }
    }
  }

  /** Offsets handed into the serialization of lbl: none unless it is exposed or not created. */
  ghost predicate Incoming(keys: seq<Key>, n: nat, lbl: Label, deps: set<nat>)
    requires WfTable(keys, n)
  {
    deps <= Offsets(n) && (n < lbl && !Exposed(keys, n, lbl) ==> deps == {})
  }

  /** An operand may be handed what its label was handed. */
  lemma {:induction false} HandOn(keys: seq<Key>, n: nat, o: Label, lbl: Label, deps: set<nat>)
    requires WfTable(keys, n) && n < lbl < |keys| && Incoming(keys, n, lbl, deps)
    requires o == First(keys[lbl]) || (HandsSecond(keys[lbl].op) && o == Second(keys[lbl]))
    ensures o < lbl && Incoming(keys, n, o, deps)
  {
    OperandsUnder(keys, n, lbl);
    if n < o && Exposed(keys, n, lbl) {
      var c :| n < c < |keys| && keys[c].op.FMemcmp? && HandedOn(keys, n, lbl, keys[c].l2);
      assert HandedOn(keys, n, o, o);
      HandedOnTrans(keys, n, o, lbl, keys[c].l2);
    }
  }

  /** The second operand of a memory comparison may be handed anything. */
  lemma {:induction false} HandAcross(keys: seq<Key>, n: nat, lbl: Label, deps: set<nat>)
    requires WfTable(keys, n) && n < lbl < |keys| && keys[lbl].op.FMemcmp? && deps <= Offsets(n)
    ensures keys[lbl].l2 < lbl && Incoming(keys, n, keys[lbl].l2, deps)
  {
    assert WfNode(keys[lbl], n, lbl);
    var o := keys[lbl].l2;
    assert n < o ==> HandedOn(keys, n, o, o);
  }

  // ---------------------------------------------------------------- the cache

  /** deps covers the bytes of e, the expression of lbl, and stays inside the file; it is exact unless
      something lbl is built from is exposed to a memory comparison. */
  ghost predicate DepsOk(keys: seq<Key>, n: nat, lbl: Label, e: Expr, deps: set<nat>)
    requires WfTable(keys, n) && lbl < |keys|
  {
    && Mentions(e) <= deps <= Offsets(n)
    && (ExactAt(keys, n, lbl) ==> deps == Mentions(e))
  }

  ghost predicate CachedOk(keys: seq<Key>, n: nat, lbl: Label, c: Cached)
    requires WfTable(keys, n) && lbl < |keys|
  {
    && Remembered(keys[lbl].op)
    && Build(keys, n, lbl) == Some(c.expr) && DepsOk(keys, n, lbl, c.expr, c.deps)
  }

  /** Everything that l is built from is cached, if its kind is, with offsets from bound. */
  ghost predicate Held(infos: seq<LabelInfo>, n: nat, l: Label, bound: set<nat>)
    requires WfTable(KeysOf(infos), n) && l < |infos|
    decreases l
  {
    n < l ==>
      && (Remembered(infos[l].key.op) ==> infos[l].cached.Some? && infos[l].cached.value.deps <= bound)
      && HeldBelow(infos, n, l, bound)
  }

  ghost predicate HeldBelow(infos: seq<LabelInfo>, n: nat, l: Label, bound: set<nat>)
    requires WfTable(KeysOf(infos), n) && n < l < |infos|
    decreases l, 0
  {
    var key := KeysOf(infos)[l];
    Held(infos, n, First(key), bound) && Held(infos, n, Second(key), bound)
  }

  /** The cache of k is correct, and holds the offsets of all the caches below it. */
  ghost predicate EntryOk(infos: seq<LabelInfo>, n: nat, k: Label)
    requires WfTable(KeysOf(infos), n) && k < |infos|
  {
    infos[k].cached.Some? ==>
      CachedOk(KeysOf(infos), n, k, infos[k].cached.value) && Held(infos, n, k, infos[k].cached.value.deps)
  }

  /** Every cached expression is the one the label stands for. */
  ghost predicate InfosOk(infos: seq<LabelInfo>, n: nat) {
    WfTable(KeysOf(infos), n) && forall k | 0 <= k < |infos| :: EntryOk(infos, n, k)
  }

  /** Keys and flags are the same; caches may differ. */
  ghost predicate SameRecords(infos: seq<LabelInfo>, infos': seq<LabelInfo>) {
    && |infos| == |infos'|
    && forall k | 0 <= k < |infos| :: infos[k].key == infos'[k].key && infos[k].flipped == infos'[k].flipped
  }

  lemma {:induction false} SameKeysOf(infos: seq<LabelInfo>, infos': seq<LabelInfo>)
    requires SameRecords(infos, infos')
    ensures KeysOf(infos) == KeysOf(infos')
  {}

  /** The record of k is the same, or it got a cache and is part of what l is built from. */
  ghost predicate GrewAt(infos: seq<LabelInfo>, infos': seq<LabelInfo>, n: nat, l: Label, k: Label)
    requires WfTable(KeysOf(infos), n) && l < |infos| && k < |infos| == |infos'|
  {
    infos'[k] == infos[k] || (k <= l && infos[k].cached.None? && Under(KeysOf(infos), n, k, l))
  }

  /** Caches were added for labels that l is built from. */
  ghost predicate Grew(infos: seq<LabelInfo>, infos': seq<LabelInfo>, n: nat, l: Label)
    requires WfTable(KeysOf(infos), n) && l < |infos|
  {
    SameRecords(infos, infos') && forall k | 0 <= k < |infos| :: GrewAt(infos, infos', n, l, k)
  }

  /** The offsets in the caches of what l is built from. */
  ghost function Stored(infos: seq<LabelInfo>, n: nat, l: Label): set<nat>
    requires WfTable(KeysOf(infos), n) && l < |infos|
    decreases l
  {
    if l <= n then {} else (if infos[l].cached.Some? then infos[l].cached.value.deps else {}) + StoredBelow(infos, n, l)
  }

  ghost function StoredBelow(infos: seq<LabelInfo>, n: nat, l: Label): set<nat>
    requires WfTable(KeysOf(infos), n) && n < l < |infos|
    decreases l, 0
  {
    var key := KeysOf(infos)[l];
    Stored(infos, n, First(key)) + Stored(infos, n, Second(key))
  }

  /** A label without a cache adds nothing to what its operands store. */
  lemma {:induction false} StoredUnfold(infos: seq<LabelInfo>, n: nat, l: Label, deps0: set<nat>, own: set<nat>)
    requires WfTable(KeysOf(infos), n) && n < l < |infos| && infos[l].cached.None?
    ensures First(infos[l].key) < l && Second(infos[l].key) < l
    ensures Stored(infos, n, l) == StoredBelow(infos, n, l)
    ensures
      First(infos[l].key) == 0 ==>
        deps0 + own + Stored(infos, n, Second(infos[l].key)) == deps0 + own + Stored(infos, n, l)
    ensures
      Second(infos[l].key) == 0 ==>
        deps0 + own + Stored(infos, n, First(infos[l].key)) == deps0 + own + Stored(infos, n, l)
  {
    OperandsUnder(KeysOf(infos), n, l);
    var a, b := First(infos[l].key), Second(infos[l].key);
    assert {} + Stored(infos, n, b) == Stored(infos, n, b);
    assert Stored(infos, n, a) + {} == Stored(infos, n, a);
  }

  /** What a serialization returns: the label's expression; and exactly the offsets it started with, those
      the expression mentions and those it found in the caches of what the label is built from. */
  ghost predicate Serialized(infos: seq<LabelInfo>, n: nat, lbl: Label, deps0: set<nat>, e: Option<Expr>, deps: set<nat>)
    requires WfTable(KeysOf(infos), n) && lbl < |infos|
  {
    && e == Build(KeysOf(infos), n, lbl)
    && deps0 <= deps <= Offsets(n)
    && (e.Some? ==> deps == deps0 + Mentions(e.value) + Stored(infos, n, lbl))
  }

  /** The offsets a serialization returns decide the label's value: two inputs that agree on them agree
      on it. */
  lemma {:induction false} DepsDecideValue(infos: seq<LabelInfo>, n: nat, lbl: Label, deps0: set<nat>, e: Option<Expr>, deps: set<nat>,
                        f: File, g: File)
    requires WfTable(KeysOf(infos), n) && lbl < |infos| && Serialized(infos, n, lbl, deps0, e, deps)
    requires Agree(f, g, deps)
    ensures Eval(KeysOf(infos), n, lbl, f) == Eval(KeysOf(infos), n, lbl, g)
  {
    if e.Some? { DenoteDepends(e.value, f, g); }
  }

  /** So they are the label's own exactly when the caches hold nothing else. */
  lemma {:induction false} ExactWhen(infos: seq<LabelInfo>, n: nat, lbl: Label, deps0: set<nat>, e: Expr, deps: set<nat>)
    requires WfTable(KeysOf(infos), n) && lbl < |infos| && Serialized(infos, n, lbl, deps0, Some(e), deps)
    ensures deps == Mentions(e) <==> deps0 + Stored(infos, n, lbl) <= Mentions(e)
  {
    var stored := Stored(infos, n, lbl);
    if deps0 + stored <= Mentions(e) {
      assert deps0 + Mentions(e) + stored == Mentions(e);
    }
  }

  /** Nothing that l is built from is cached. */
  ghost predicate Untouched(infos: seq<LabelInfo>, n: nat, l: Label)
    requires WfTable(KeysOf(infos), n) && l < |infos|
  {
    forall k | n < k < |infos| && Under(KeysOf(infos), n, k, l) :: infos[k].cached.None?
  }

  lemma {:induction false} UntouchedStores(infos: seq<LabelInfo>, n: nat, l: Label)
    requires WfTable(KeysOf(infos), n) && l < |infos| && Untouched(infos, n, l)
    ensures Stored(infos, n, l) == {}
    decreases l
  {
    if n < l {
      var keys := KeysOf(infos);
      OperandsUnder(keys, n, l);
      var a, b := First(keys[l]), Second(keys[l]);
      assert infos[l].cached.None? by { assert Under(keys, n, l, l); }
      assert Untouched(infos, n, a);
      assert Untouched(infos, n, b);
      UntouchedStores(infos, n, a);
      UntouchedStores(infos, n, b);
    }
  }

  /** The first serialization returns the label's own offsets on top of those it started with, whether memory
      comparisons are involved or not. */
  lemma {:induction false} UntouchedReturns(infos: seq<LabelInfo>, n: nat, l: Label, deps0: set<nat>, e: Expr, deps: set<nat>)
    requires WfTable(KeysOf(infos), n) && l < |infos| && Serialized(infos, n, l, deps0, Some(e), deps)
    requires Untouched(infos, n, l)
    ensures deps == deps0 + Mentions(e)
  {
    UntouchedStores(infos, n, l);
  }

  // ---------------------------------------------------------------- caches over time

  lemma {:induction false} HeldStores(infos: seq<LabelInfo>, n: nat, l: Label, bound: set<nat>)
    requires InfosOk(infos, n) && l < |infos| && Held(infos, n, l, bound)
    ensures Stored(infos, n, l) <= bound
    decreases l
  {
    if n < l {
      OperandsUnder(KeysOf(infos), n, l);
      HeldStores(infos, n, First(infos[l].key), bound);
      HeldStores(infos, n, Second(infos[l].key), bound);
      assert EntryOk(infos, n, l);
    }
  }

  /** A larger bound holds as well. */
  lemma {:induction false} HeldMore(infos: seq<LabelInfo>, n: nat, l: Label, bound: set<nat>, more: set<nat>)
    requires WfTable(KeysOf(infos), n) && l < |infos| && Held(infos, n, l, bound) && bound <= more
    ensures Held(infos, n, l, more)
    decreases l
  {
    if n < l {
      OperandsUnder(KeysOf(infos), n, l);
      HeldMore(infos, n, First(infos[l].key), bound, more);
      HeldMore(infos, n, Second(infos[l].key), bound, more);
    }
  }

  /** Existing caches are still there. */
  ghost predicate Kept(infos: seq<LabelInfo>, infos': seq<LabelInfo>) {
    && |infos| <= |infos'|
    && forall k | 0 <= k < |infos| ::
         infos'[k].key == infos[k].key && (infos[k].cached.Some? ==> infos'[k].cached == infos[k].cached)
  }

  lemma {:induction false} HeldKept(infos: seq<LabelInfo>, infos': seq<LabelInfo>, n: nat, l: Label, bound: set<nat>)
    requires WfTable(KeysOf(infos), n) && WfTable(KeysOf(infos'), n) && Kept(infos, infos')
    requires l < |infos| && Held(infos, n, l, bound)
    ensures Held(infos', n, l, bound)
    decreases l
  {
    if n < l {
      OperandsUnder(KeysOf(infos), n, l);
      HeldKept(infos, infos', n, First(infos[l].key), bound);
      HeldKept(infos, infos', n, Second(infos[l].key), bound);
    }
  }

  lemma {:induction false} HeldAt(infos: seq<LabelInfo>, n: nat, l: Label, bound: set<nat>, k: Label)
    requires WfTable(KeysOf(infos), n) && k < |infos| && l < |infos| && Held(infos, n, l, bound)
    requires Under(KeysOf(infos), n, k, l) && Remembered(infos[k].key.op)
    ensures infos[k].cached.Some? && infos[k].cached.value.deps <= bound
    decreases l
  {
    var keys := KeysOf(infos);
    if k != l {
      OperandsUnder(keys, n, l);
      if Under(keys, n, k, First(keys[l])) {
        HeldAt(infos, n, First(keys[l]), bound, k);
      } else {
        HeldAt(infos, n, Second(keys[l]), bound, k);
      }
    }
  }

  /** Serializing o meanwhile added nothing to what the caches below l hold, but offsets it returned. */
  lemma {:induction false} StoredGrew(infos: seq<LabelInfo>, infos': seq<LabelInfo>, n: nat, o: Label, bound: set<nat>, l: Label)
    requires WfTable(KeysOf(infos), n) && InfosOk(infos', n) && o < |infos| && l < |infos|
    requires Grew(infos, infos', n, o) && KeysOf(infos') == KeysOf(infos) && Held(infos', n, o, bound)
    ensures Stored(infos, n, l) <= Stored(infos', n, l) <= Stored(infos, n, l) + bound
    decreases l
  {
    if n < l {
      OperandsUnder(KeysOf(infos), n, l);
      StoredGrew(infos, infos', n, o, bound, First(infos[l].key));
      StoredGrew(infos, infos', n, o, bound, Second(infos[l].key));
      assert GrewAt(infos, infos', n, o, l);
      assert EntryOk(infos', n, l);
      if infos'[l] != infos[l] && infos'[l].cached.Some? { HeldAt(infos', n, o, bound, l); }
    }
  }

  lemma {:induction false} GrewKept(infos: seq<LabelInfo>, infos': seq<LabelInfo>, n: nat, l: Label)
    requires WfTable(KeysOf(infos), n) && l < |infos| && Grew(infos, infos', n, l)
    ensures Kept(infos, infos') && KeysOf(infos') == KeysOf(infos)
  {
    SameKeysOf(infos, infos');
    forall k | 0 <= k < |infos| && infos[k].cached.Some? ensures infos'[k].cached == infos[k].cached {
      assert GrewAt(infos, infos', n, l, k);
    }
  }

  /** Growing below an operand is growing below its label. */
  lemma {:induction false} GrewBelow(infos: seq<LabelInfo>, infos': seq<LabelInfo>, n: nat, o: Label, l: Label)
    requires WfTable(KeysOf(infos), n) && n < l < |infos| && (o == First(infos[l].key) || o == Second(infos[l].key))
    requires o < l && Grew(infos, infos', n, o)
    ensures Grew(infos, infos', n, l) && infos'[l] == infos[l]
  {
    forall k | 0 <= k < |infos| ensures GrewAt(infos, infos', n, l, k) {
      assert GrewAt(infos, infos', n, o, k);
    }
    assert GrewAt(infos, infos', n, o, l);
  }

  lemma {:induction false} GrewTrans(a: seq<LabelInfo>, b: seq<LabelInfo>, c: seq<LabelInfo>, n: nat, l: Label)
    requires WfTable(KeysOf(a), n) && l < |a| && Grew(a, b, n, l) && KeysOf(b) == KeysOf(a) && Grew(b, c, n, l)
    ensures Grew(a, c, n, l)
  {
    forall k | 0 <= k < |a| ensures GrewAt(a, c, n, l, k) {
      assert GrewAt(a, b, n, l, k) && GrewAt(b, c, n, l, k);
    }
  }

  /** Remembering a correct result keeps the caches correct, and each around those below it. */
  lemma {:induction false} CacheKeepsOk(infos: seq<LabelInfo>, n: nat, lbl: Label, c: Cached)
    requires InfosOk(infos, n) && n < lbl < |infos| && CachedOk(KeysOf(infos), n, lbl, c)
    requires infos[lbl].cached.None? && HeldBelow(infos, n, lbl, c.deps)
    ensures
      var infos' := infos[lbl := infos[lbl].(cached := Some(c))];
      InfosOk(infos', n) && Grew(infos, infos', n, lbl) && Held(infos', n, lbl, c.deps)
  {
    var infos' := infos[lbl := infos[lbl].(cached := Some(c))];
    SameKeysOf(infos, infos');
    OperandsUnder(KeysOf(infos), n, lbl);
    HeldKept(infos, infos', n, First(infos[lbl].key), c.deps);
    HeldKept(infos, infos', n, Second(infos[lbl].key), c.deps);
    forall k | 0 <= k < |infos| ensures EntryOk(infos', n, k) {
      assert EntryOk(infos, n, k);
      if k != lbl && infos[k].cached.Some? { HeldKept(infos, infos', n, k, infos[k].cached.value.deps); }
    }
    assert Under(KeysOf(infos), n, lbl, lbl);
  }

  /** A new record without a cache keeps every cached result correct. */
  lemma {:induction false} AppendKeepsOk(infos: seq<LabelInfo>, n: nat, info: LabelInfo)
    requires InfosOk(infos, n) && WfTable(KeysOf(infos + [info]), n) && info.cached.None?
    ensures InfosOk(infos + [info], n)
  {
    var infos' := infos + [info];
    var keys, keys' := KeysOf(infos), KeysOf(infos');
    assert keys <= keys';
    forall k | 0 <= k < |infos'| ensures EntryOk(infos', n, k) {
      if infos'[k].cached.Some? {
        assert EntryOk(infos, n, k);
        BuildStable(keys, keys', n, k);
        ExactStable(keys, keys', n, k);
        HeldKept(infos, infos', n, k, infos[k].cached.value.deps);
      }
    }
  }

  /** So does a changed flag. */
  lemma {:induction false} FlagKeepsOk(infos: seq<LabelInfo>, n: nat, lbl: Label)
    requires InfosOk(infos, n) && lbl < |infos|
    ensures
      var infos' := infos[lbl := infos[lbl].(flipped := true)];
      InfosOk(infos', n) && KeysOf(infos') == KeysOf(infos)
  {
    var infos' := infos[lbl := infos[lbl].(flipped := true)];
    assert KeysOf(infos') == KeysOf(infos);
    forall k | 0 <= k < |infos'| ensures EntryOk(infos', n, k) {
      assert EntryOk(infos, n, k);
      if infos[k].cached.Some? { HeldKept(infos, infos', n, k, infos[k].cached.value.deps); }
    }
  }

  /** One step of serialization for the operators that read their first operand only. */
  function UnaryExpr(key: Key, base: Expr): Option<Expr>
    requires IsUnary(key.op)
  {
    match key.op
    case ZExt => ZeroExtTo(key.size, base)
    case SExt => SignExtTo(key.size, base)
    case Trunc => SliceOf(key.size, 0, base)
    case Extract => SliceOf(key.size, key.op2, base)
  }

  lemma {:induction false} UnaryStep(keys: seq<Key>, n: nat, lbl: Label)
    requires WfTable(keys, n) && 0 < lbl < |keys| && IsUnary(keys[lbl].op)
    ensures
      var base, e := Build(keys, n, keys[lbl].l1), Build(keys, n, lbl);
      && (base.None? ==> e.None?)
      && (base.Some? ==> e == UnaryExpr(keys[lbl], base.value))
      && (base.Some? && e.Some? ==> Mentions(e.value) == Mentions(base.value))
  {
    var key := keys[lbl];
    BuildUnfold(keys, n, lbl);
    NodeMentions(key, keys[key.l1].op1, keys[key.l1].size, keys[key.l2].size,
                 Build(keys, n, key.l1), Build(keys, n, key.l2));
  }

  /** A load is the concatenation of consecutive input bytes of the file. */
  lemma {:induction false} LoadStep(keys: seq<Key>, n: nat, lbl: Label)
    requires WfTable(keys, n) && 0 < lbl < |keys| && keys[lbl].op.Load?
    ensures
      var key := keys[lbl];
      var off := keys[key.l1].op1;
      && key.l1 < lbl && key.l2 >= 1
      && Build(keys, n, lbl) == Some(LoadExpr(off, key.l2))
      && Mentions(LoadExpr(off, key.l2)) == Span(off, key.l2) <= Offsets(n)
  {
    assert WfNode(keys[lbl], n, lbl);
    BuildUnfold(keys, n, lbl);
    BuildMentions(keys, n, lbl);
    LoadExprSort(keys[keys[lbl].l1].op1, keys[lbl].l2);
  }

  /** A memory comparison needs both operands. */
  lemma {:induction false} MemcmpStep(keys: seq<Key>, n: nat, lbl: Label)
    requires WfTable(keys, n) && n < lbl < |keys| && keys[lbl].op.FMemcmp?
    ensures
      var key := keys[lbl];
      var a, b, e := Build(keys, n, key.l1), Build(keys, n, key.l2), Build(keys, n, lbl);
      && key.l1 < lbl && key.l2 < lbl
      && (a.None? || b.None? ==> e.None?)
      && (a.Some? && b.Some? ==> e == Checked(BytesDiffer(a.value, b.value)))
      && (e.Some? ==> Mentions(e.value) == MentionsOf(a) + MentionsOf(b))
  {
    var key := keys[lbl];
    assert WfNode(key, n, lbl);
    BuildUnfold(keys, n, lbl);
    NodeMentions(key, keys[key.l1].op1, keys[key.l1].size, keys[key.l2].size,
                 Build(keys, n, key.l1), Build(keys, n, key.l2));
  }

  function MentionsOf(e: Option<Expr>): set<nat> {
    if e.Some? then Mentions(e.value) else {}
  }

  /** An operand: its label's expression, or a constant. */
  function Operand(keys: seq<Key>, n: nat, l: Label, constant: Expr): Option<Expr>
    requires WfTable(keys, n) && l < |keys|
  {
    if l > 0 then Build(keys, n, l) else Some(constant)
  }

  lemma {:induction false} CommonStep(keys: seq<Key>, n: nat, lbl: Label)
    requires WfTable(keys, n) && 0 < lbl < |keys| && IsBinary(keys[lbl].op)
    ensures
      var key := keys[lbl];
      var w1, w2 := ConstWidth1(key, keys[key.l2].size), ConstWidth2(key, keys[key.l1].size, keys[key.l2].size);
      var a := Operand(keys, n, key.l1, ConstOperand(key.size, w1, key.op1));
      var b := Operand(keys, n, key.l2, ConstOperand(key.size, w2, key.op2));
      var e := Build(keys, n, lbl);
      && (w1 == 0 || w2 == 0 || a.None? || b.None? ==> e.None?)
      && (w1 != 0 && w2 != 0 && a.Some? && b.Some? ==> e == BinaryExpr(key.op, key.size, a.value, b.value))
      && (e.Some? ==> Mentions(e.value) == MentionsOf(Build(keys, n, key.l1)) + MentionsOf(Build(keys, n, key.l2)))
  {
    var key := keys[lbl];
    BuildUnfold(keys, n, lbl);
    NodeMentions(key, keys[key.l1].op1, keys[key.l1].size, keys[key.l2].size,
                 Build(keys, n, key.l1), Build(keys, n, key.l2));
  }

  lemma {:induction false} NegationStep(keys: seq<Key>, n: nat, lbl: Label)
    requires WfTable(keys, n) && n < lbl < |keys| && (keys[lbl].op.Not? || keys[lbl].op.Negate?)
    ensures
      var key := keys[lbl];
      var base, e := Build(keys, n, key.l2), Build(keys, n, lbl);
      && (key.l2 == 0 || (key.op.Not? && key.size != 1) || base.None? ==> e.None?)
      && (key.l2 > 0 && (key.op.Not? ==> key.size == 1) && base.Some? ==>
            e == Checked(if key.op.Not? then LNot(base.value) else Neg(base.value)))
      && (base.Some? && e.Some? ==> Mentions(e.value) == Mentions(base.value))
  {
    var key := keys[lbl];
    BuildUnfold(keys, n, lbl);
    NodeMentions(key, keys[key.l1].op1, keys[key.l1].size, keys[key.l2].size,
                 Build(keys, n, key.l1), Build(keys, n, key.l2));
  }

  /** The operands of a two-operand operator, None from the first on that cannot be built. */
  ghost predicate OperandsBuilt(keys: seq<Key>, n: nat, lbl: Label, op1: Option<Expr>, op2: Option<Expr>)
    requires WfTable(keys, n) && n < lbl < |keys|
  {
    var key := keys[lbl];
    var w1, w2 := ConstWidth1(key, keys[key.l2].size), ConstWidth2(key, keys[key.l1].size, keys[key.l2].size);
    && op1 == (if w1 == 0 then None else Operand(keys, n, key.l1, ConstOperand(key.size, w1, key.op1)))
    && op2 == (if op1.None? || w2 == 0 then None else Operand(keys, n, key.l2, ConstOperand(key.size, w2, key.op2)))
  }

  /** The bytes that the operands mention. */
  ghost function BytesBelow(keys: seq<Key>, n: nat, lbl: Label): set<nat>
    requires WfTable(keys, n) && n < lbl < |keys|
  {
    MentionsOf(Build(keys, n, keys[lbl].l1)) + MentionsOf(Build(keys, n, keys[lbl].l2))
  }

  /** Two operands, serialized one after the other: nothing is held but what they returned. */
  lemma {:induction false} BothStored(before: seq<LabelInfo>, between: seq<LabelInfo>, after: seq<LabelInfo>, n: nat, l: Label,
                   deps1: set<nat>, deps2: set<nat>)
    requires WfTable(KeysOf(before), n) && InfosOk(between, n) && InfosOk(after, n) && n < l < |before|
    requires KeysOf(before) == KeysOf(between) == KeysOf(after)
    requires First(before[l].key) < l && Second(before[l].key) < l
    requires Grew(before, between, n, First(before[l].key)) && Grew(between, after, n, Second(before[l].key))
    requires Held(between, n, First(before[l].key), deps1) && Held(after, n, Second(before[l].key), deps2)
    ensures deps1 + Stored(between, n, Second(before[l].key)) == deps1 + Stored(before, n, Second(before[l].key))
    ensures HeldBelow(after, n, l, deps1 + deps2)
  {
    var a, b := First(before[l].key), Second(before[l].key);
    assert between[l].key == KeysOf(between)[l] && after[l].key == KeysOf(after)[l];
    StoredGrew(before, between, n, a, deps1, b);
    GrewKept(between, after, n, b);
    HeldKept(between, after, n, a, deps1);
    HeldMore(after, n, a, deps1, deps1 + deps2);
    HeldMore(after, n, b, deps2, deps1 + deps2);
  }

  // ---------------------------------------------------------------- what a result may hold

  /** What a label is built from mentions no more than the label. */
  lemma {:induction false} OperandMentions(keys: seq<Key>, n: nat, o: Label, l: Label)
    requires WfTable(keys, n) && n < l < |keys| && n < o && (o == First(keys[l]) || o == Second(keys[l]))
    requires Build(keys, n, l).Some?
    ensures o < l && Build(keys, n, o).Some? && Mentions(Build(keys, n, o).value) <= Mentions(Build(keys, n, l).value)
  {
    var key := keys[l];
    OperandsUnder(keys, n, l);
    BuildUnfold(keys, n, l);
    NodeMentions(key, keys[key.l1].op1, keys[key.l1].size, keys[key.l2].size,
                 Build(keys, n, key.l1), Build(keys, n, key.l2));
  }

  /** Away from memory comparisons the caches hold nothing but the label's own bytes. */
  lemma {:induction false} ExactStores(infos: seq<LabelInfo>, n: nat, l: Label)
    requires InfosOk(infos, n) && l < |infos| && ExactAt(KeysOf(infos), n, l) && Build(KeysOf(infos), n, l).Some?
    ensures Stored(infos, n, l) <= Mentions(Build(KeysOf(infos), n, l).value)
    decreases l
  {
    if n < l {
      assert EntryOk(infos, n, l);
      ExactStoresBelow(infos, n, First(infos[l].key), l);
      ExactStoresBelow(infos, n, Second(infos[l].key), l);
    }
  }

  lemma {:induction false} ExactStoresBelow(infos: seq<LabelInfo>, n: nat, o: Label, l: Label)
    requires InfosOk(infos, n) && n < l < |infos| && (o == First(infos[l].key) || o == Second(infos[l].key))
    requires ExactAt(KeysOf(infos), n, l) && Build(KeysOf(infos), n, l).Some?
    ensures o < l && Stored(infos, n, o) <= Mentions(Build(KeysOf(infos), n, l).value)
    decreases l, 0
  {
    OperandExact(KeysOf(infos), n, o, l);
    if n < o {
      OperandMentions(KeysOf(infos), n, o, l);
      ExactStores(infos, n, o);
    }
  }

  /** The offsets returned for a label that nothing exposed is part of are those it started with and its
      own. */
  lemma {:induction false} ExactReturns(infos: seq<LabelInfo>, n: nat, l: Label, deps0: set<nat>, e: Option<Expr>, deps: set<nat>)
    requires InfosOk(infos, n) && l < |infos| && Serialized(infos, n, l, deps0, e, deps) && e.Some?
    ensures ExactAt(KeysOf(infos), n, l) ==> deps == deps0 + Mentions(e.value)
  {
    if ExactAt(KeysOf(infos), n, l) { ExactStores(infos, n, l); }
  }

  /** A result is fit to be cached. */
  lemma {:induction false} ResultOk(infos: seq<LabelInfo>, n: nat, l: Label, deps0: set<nat>, e: Option<Expr>, deps: set<nat>)
    requires InfosOk(infos, n) && n < l < |infos| && Remembered(infos[l].key.op)
    requires Incoming(KeysOf(infos), n, l, deps0) && Serialized(infos, n, l, deps0, e, deps) && e.Some?
    ensures CachedOk(KeysOf(infos), n, l, Cached(e.value, deps))
  {
    ExactReturns(infos, n, l, deps0, e, deps);
    assert Under(KeysOf(infos), n, l, l);
  }

  /** A cached result is what serializing again would collect. */
  lemma {:induction false} CachedStores(infos: seq<LabelInfo>, n: nat, l: Label)
    requires InfosOk(infos, n) && l < |infos| && infos[l].cached.Some?
    ensures n < l && infos[l].cached.value.deps == Mentions(infos[l].cached.value.expr) + Stored(infos, n, l)
  {
    assert EntryOk(infos, n, l);
    HeldStores(infos, n, l, infos[l].cached.value.deps);
  }
}
