/** Which recorded branch constraints have to accompany a condition to the solver. Constraints are
    recorded per input byte; the slice is what is connected to the condition's own bytes. */
module Slicing {
  import opened Options
  import opened Expressions
  import opened Labels

  /** What is recorded at one input byte. */
  datatype BranchDep = BranchDep(inputs: set<nat>, exprs: set<Expr>)

  type Store = seq<Option<BranchDep>>

  function InputsAt(st: Store, off: nat): set<nat> {
    if off < |st| && st[off].Some? then st[off].value.inputs else {}
  }

  function ExprsAt(st: Store, off: nat): set<Expr> {
    if off < |st| && st[off].Some? then st[off].value.exprs else {}
  }

  /** Recording constraint e at every byte of inputs. */
  function Record(st: Store, inputs: set<nat>, e: Expr): (st': Store)
    ensures |st'| == |st|
    ensures forall o | 0 <= o < |st| ::
      st'[o] == if o in inputs then Some(BranchDep(InputsAt(st, o) + inputs, ExprsAt(st, o) + {e})) else st[o]
  {
    seq(|st|, o requires 0 <= o < |st| =>
      if o in inputs then Some(BranchDep(InputsAt(st, o) + inputs, ExprsAt(st, o) + {e})) else st[o])
  }

  // ---------------------------------------------------------------- connected bytes

  /** X is a union of connected components: no constraint joins a byte inside to one outside. */
  ghost predicate Closed(joins: seq<set<nat>>, X: set<nat>) {
    forall i | 0 <= i < |joins| :: joins[i] * X == {} || joins[i] <= X
  }

  /** W is the connected component of seed: the least closed set that contains it. */
  ghost predicate IsComponent(joins: seq<set<nat>>, seed: set<nat>, W: set<nat>) {
    && seed <= W && Closed(joins, W)
    && forall X: set<nat> | seed <= X && Closed(joins, X) :: W <= X
  }

  /** Every closed set with a contains b. */
  ghost predicate Linked(joins: seq<set<nat>>, a: nat, b: nat) {
    forall X: set<nat> | a in X && Closed(joins, X) :: b in X
  }

  /** One constraint mentions both bytes. */
  ghost predicate Joined(joins: seq<set<nat>>, a: nat, b: nat) {
    exists i :: 0 <= i < |joins| && a in joins[i] && b in joins[i]
  }

  /** A walk from p[0] whose neighbours are joined by one constraint each. */
  ghost predicate IsWalk(joins: seq<set<nat>>, p: seq<nat>) {
    p != [] && forall k | 0 < k < |p| :: Joined(joins, p[k - 1], p[k])
  }

  ghost predicate Reaches(joins: seq<set<nat>>, seed: set<nat>, b: nat) {
    exists p: seq<nat> :: IsWalk(joins, p) && p[0] in seed && p[|p| - 1] == b
  }

  lemma {:induction false} WalkStaysClosed(joins: seq<set<nat>>, p: seq<nat>, X: set<nat>, k: nat)
    requires IsWalk(joins, p) && Closed(joins, X) && p[0] in X && k < |p|
    ensures p[k] in X
    decreases k
  {
    if k > 0 {
      WalkStaysClosed(joins, p, X, k - 1);
      assert Joined(joins, p[k - 1], p[k]);
      var i :| 0 <= i < |joins| && p[k - 1] in joins[i] && p[k] in joins[i];
      assert p[k - 1] in joins[i] * X;
    }
  }

  lemma WalkExtends(joins: seq<set<nat>>, seed: set<nat>, a: nat, b: nat)
    requires Reaches(joins, seed, a) && Joined(joins, a, b)
    ensures Reaches(joins, seed, b)
  {
    var p: seq<nat> :| IsWalk(joins, p) && p[0] in seed && p[|p| - 1] == a;
    var q := p + [b];
    forall k | 0 < k < |q| ensures Joined(joins, q[k - 1], q[k]) {
      if k < |p| { assert Joined(joins, p[k - 1], p[k]); }
    }
    assert IsWalk(joins, q);
    assert q[0] in seed && q[|q| - 1] == b;
  }

  /** The component is exactly what walks from the seed reach. */
  lemma ComponentIsReachable(joins: seq<set<nat>>, seed: set<nat>, W: set<nat>, b: nat)
    requires IsComponent(joins, seed, W)
    ensures b in W <==> Reaches(joins, seed, b)
  {
    if Reaches(joins, seed, b) {
      var p: seq<nat> :| IsWalk(joins, p) && p[0] in seed && p[|p| - 1] == b;
      WalkStaysClosed(joins, p, W, |p| - 1);
    }
    var R := set x | x in W && Reaches(joins, seed, x);
    forall x | x in seed ensures x in R {
      assert IsWalk(joins, [x]) && [x][0] in seed && [x][|[x]| - 1] == x;
    }
    forall i | 0 <= i < |joins| ensures joins[i] * R == {} || joins[i] <= R {
      if joins[i] * R != {} {
        var a :| a in joins[i] * R;
        assert a in joins[i] * W;
        forall x | x in joins[i] ensures x in R {
          assert Joined(joins, a, x);
          WalkExtends(joins, seed, a, x);
        }
      }
    }
    assert Closed(joins, R);
  }

  // ---------------------------------------------------------------- the store over a run

  /** What every run of recordings keeps. joins lists the byte set of each recorded constraint as its
      expression needs it, before any closing. */
  ghost predicate StoreInv(st: Store, joins: seq<set<nat>>) {
    && DepsCover(st) && EverywhereMentioned(st) && JoinsCovered(st, joins) && DepsLinked(st, joins)
  }

  /** A byte's dependencies include every byte its constraints mention. */
  ghost predicate DepsCover(st: Store) {
    forall off, e | e in ExprsAt(st, off) :: Mentions(e) <= InputsAt(st, off)
  }

  /** A constraint is recorded at every byte it mentions. */
  ghost predicate EverywhereMentioned(st: Store) {
    forall off, e, o | e in ExprsAt(st, off) && o in Mentions(e) :: e in ExprsAt(st, o)
  }

  ghost predicate JoinsCovered(st: Store, joins: seq<set<nat>>) {
    forall i, o | 0 <= i < |joins| && o in joins[i] :: joins[i] <= InputsAt(st, o)
  }

  /** Dependencies never reach beyond the connected component. */
  ghost predicate DepsLinked(st: Store, joins: seq<set<nat>>) {
    forall off, j | j in InputsAt(st, off) :: j < |st| && Linked(joins, off, j)
  }

  lemma EmptyStore(st: Store)
    requires forall o | 0 <= o < |st| :: st[o] == None
    ensures StoreInv(st, [])
  {}

  lemma ClosedPrefix(joins: seq<set<nat>>, s: set<nat>, X: set<nat>)
    requires Closed(joins + [s], X)
    ensures Closed(joins, X) && (s * X == {} || s <= X)
  {
    assert (joins + [s])[|joins|] == s;
    forall i | 0 <= i < |joins| ensures joins[i] * X == {} || joins[i] <= X {
      assert (joins + [s])[i] == joins[i];
    }
  }

  lemma DifferenceClosed(joins: seq<set<nat>>, W: set<nat>, X: set<nat>)
    requires Closed(joins, W) && Closed(joins, X)
    ensures Closed(joins, W - X)
  {
    forall i | 0 <= i < |joins| ensures joins[i] * (W - X) == {} || joins[i] <= W - X {
      var s := joins[i];
      if s * (W - X) != {} {
        var y :| y in s * (W - X);
        assert y in s * W && !(s <= X);
        assert s <= W && s * X == {};
        forall x | x in s ensures x in W - X { assert x !in s * X; }
      }
    }
  }

  /** Any two bytes of a component are linked once the seed is itself a constraint. */
  lemma ComponentLinked(joins: seq<set<nat>>, seed: set<nat>, W: set<nat>, a: nat, b: nat)
    requires IsComponent(joins, seed, W) && a in W && b in W
    ensures Linked(joins + [seed], a, b)
  {
    forall X: set<nat> | a in X && Closed(joins + [seed], X) ensures b in X {
      ClosedPrefix(joins, seed, X);
      // otherwise the rest of W would be a smaller closed set around the seed
      DifferenceClosed(joins, W, X);
      assert !(W <= W - X);
      assert !(seed <= W - X);
      var y :| y in seed && y !in W - X;
      assert y in seed * X;
    }
  }

  lemma LinkedMono(joins: seq<set<nat>>, s: set<nat>, a: nat, b: nat)
    requires Linked(joins, a, b)
    ensures Linked(joins + [s], a, b)
  {
    forall X: set<nat> | a in X && Closed(joins + [s], X) ensures b in X { ClosedPrefix(joins, s, X); }
  }

  lemma RecordDeps(st: Store, joins: seq<set<nat>>, seed: set<nat>, W: set<nat>, e: Expr)
    requires JoinsCovered(st, joins) && DepsLinked(st, joins) && seed <= W <= Offsets(|st|)
    requires forall a, b | a in W && b in W :: Linked(joins + [seed], a, b)
    ensures JoinsCovered(Record(st, W, e), joins + [seed]) && DepsLinked(Record(st, W, e), joins + [seed])
  {
    var st', joins' := Record(st, W, e), joins + [seed];
    forall i, o | 0 <= i < |joins'| && o in joins'[i] ensures joins'[i] <= InputsAt(st', o) {
      if i < |joins| { assert joins[i] <= InputsAt(st, o); }
    }
    forall off, j | j in InputsAt(st', off) ensures j < |st'| && Linked(joins', off, j) {
      if j in InputsAt(st, off) { LinkedMono(joins, seed, off, j); }
    }
  }

  lemma RecordCovers(st: Store, W: set<nat>, e: Expr)
    requires DepsCover(st) && Mentions(e) <= W
    ensures DepsCover(Record(st, W, e))
  {
    var st' := Record(st, W, e);
    forall off, x | x in ExprsAt(st', off) ensures Mentions(x) <= InputsAt(st', off) {
      if x !in ExprsAt(st, off) { assert x == e && W <= InputsAt(st', off); }
    }
  }

  lemma RecordEverywhere(st: Store, W: set<nat>, e: Expr)
    requires EverywhereMentioned(st) && Mentions(e) <= W <= Offsets(|st|)
    ensures EverywhereMentioned(Record(st, W, e))
  {
    var st' := Record(st, W, e);
    forall off, x, o | x in ExprsAt(st', off) && o in Mentions(x) ensures x in ExprsAt(st', o) {
      if x in ExprsAt(st, off) { assert x in ExprsAt(st, o); } else { assert x == e && o in W; }
    }
  }

  /** Recording a constraint keeps the invariant, whether the recorded set is the constraint's own
      bytes or their whole component. */
  lemma RecordKeepsInv(st: Store, joins: seq<set<nat>>, seed: set<nat>, W: set<nat>, e: Expr)
    requires StoreInv(st, joins) && W <= Offsets(|st|) && Mentions(e) <= seed <= W
    requires forall a, b | a in W && b in W :: Linked(joins + [seed], a, b)
    ensures StoreInv(Record(st, W, e), joins + [seed])
  {
    RecordDeps(st, joins, seed, W, e);
    RecordCovers(st, W, e);
    RecordEverywhere(st, W, e);
  }

  /** A set is linked within itself once it is a constraint. */
  lemma SelfLinked(joins: seq<set<nat>>, s: set<nat>, a: nat, b: nat)
    requires a in s && b in s
    ensures Linked(joins + [s], a, b)
  {
    forall X: set<nat> | a in X && Closed(joins + [s], X) ensures b in X {
      ClosedPrefix(joins, s, X);
      assert a in s * X;
    }
  }

  // ---------------------------------------------------------------- the worklist

  /** Every byte of inputs that is not waiting has its dependencies in inputs. */
  ghost predicate Drained(st: Store, inputs: set<nat>, worklist: seq<nat>)
    requires inputs <= Offsets(|st|)
  {
    && (forall k | 0 <= k < |worklist| :: worklist[k] in inputs)
    && (forall o | o in inputs && o !in worklist :: InputsAt(st, o) <= inputs)
  }

  /** Drained but for off, which was just taken from the worklist. */
  ghost predicate DrainedBut(st: Store, inputs: set<nat>, worklist: seq<nat>, off: nat)
    requires inputs <= Offsets(|st|)
  {
    && (forall k | 0 <= k < |worklist| :: worklist[k] in inputs)
    && (forall o | o in inputs && o !in worklist :: o == off || InputsAt(st, o) <= inputs)
  }

  /** Every closed set around seed contains inputs. */
  ghost predicate Needed(joins: seq<set<nat>>, seed: set<nat>, inputs: set<nat>) {
    forall X: set<nat> | seed <= X && Closed(joins, X) :: inputs <= X
  }

  lemma Popped(st: Store, inputs: set<nat>, worklist: seq<nat>)
    requires inputs <= Offsets(|st|) && Drained(st, inputs, worklist) && worklist != []
    ensures DrainedBut(st, inputs, worklist[..|worklist| - 1], worklist[|worklist| - 1])
  {
    assert forall o | o in worklist :: o == worklist[|worklist| - 1] || o in worklist[..|worklist| - 1];
  }

  /** Collects the bytes connected to seed, as a worklist over the recorded dependencies. */
  method CollectInputs(st: Store, seed: set<nat>, ghost joins: seq<set<nat>>) returns (inputs: set<nat>)
    requires StoreInv(st, joins) && seed <= Offsets(|st|)
    ensures IsComponent(joins, seed, inputs)
    ensures inputs <= Offsets(|st|)
  {
    inputs := seed;
    var worklist := SetToSeq(seed);
    while worklist != []
      invariant seed <= inputs <= Offsets(|st|)
      invariant Drained(st, inputs, worklist) && Needed(joins, seed, inputs)
      decreases Offsets(|st|) - inputs, |worklist|
    {
      Popped(st, inputs, worklist);
      var off := worklist[|worklist| - 1];
      worklist := worklist[..|worklist| - 1];
      inputs, worklist := AddDeps(st, off, inputs, worklist, seed, joins);
    }
    WorklistDone(st, seed, joins, inputs);
  }

  /** Inserts the dependencies of one byte; those that are new go onto the worklist. */
  method AddDeps(st: Store, off: nat, inputs0: set<nat>, worklist0: seq<nat>, ghost seed: set<nat>,
                 ghost joins: seq<set<nat>>) returns (inputs: set<nat>, worklist: seq<nat>)
    requires StoreInv(st, joins) && off in inputs0 && seed <= inputs0 <= Offsets(|st|)
    requires DrainedBut(st, inputs0, worklist0, off) && Needed(joins, seed, inputs0)
    ensures inputs0 <= inputs <= Offsets(|st|)
    ensures inputs == inputs0 ==> worklist == worklist0
    ensures Drained(st, inputs, worklist) && Needed(joins, seed, inputs)
  {
    inputs, worklist := inputs0, worklist0;
    var deps := InputsAt(st, off);
    while deps != {}
      invariant deps <= InputsAt(st, off) && InputsAt(st, off) - deps <= inputs
      invariant inputs0 <= inputs <= Offsets(|st|) && inputs <= inputs0 + InputsAt(st, off)
      invariant inputs == inputs0 ==> worklist == worklist0
      invariant forall k | 0 <= k < |worklist| :: worklist[k] in inputs
      invariant forall o | o in inputs && o !in worklist :: o == off || (o in inputs0 && o !in worklist0)
      decreases deps
    {
      var i :| i in deps;
      deps := deps - {i};
      if i !in inputs {
        ghost var before := worklist;
        inputs := inputs + {i};
        worklist := worklist + [i];
        assert forall o | o in before :: o in worklist;
        assert worklist[|worklist| - 1] == i;
      }
    }
    forall X: set<nat> | seed <= X && Closed(joins, X) ensures inputs <= X {
      forall j | j in InputsAt(st, off) ensures j in X { assert Linked(joins, off, j); }
    }
  }

  lemma WorklistDone(st: Store, seed: set<nat>, joins: seq<set<nat>>, inputs: set<nat>)
    requires StoreInv(st, joins) && seed <= inputs <= Offsets(|st|)
    requires Drained(st, inputs, []) && Needed(joins, seed, inputs)
    ensures IsComponent(joins, seed, inputs)
  {
    forall i | 0 <= i < |joins| ensures joins[i] * inputs == {} || joins[i] <= inputs {
      if joins[i] * inputs != {} {
        var o :| o in joins[i] * inputs;
        assert joins[i] <= InputsAt(st, o);
      }
    }
  }

  method SetToSeq(s: set<nat>) returns (q: seq<nat>)
    ensures forall x :: x in q <==> x in s
  {
    q := [];
    var rest := s;
    while rest != {}
      invariant rest <= s
      invariant forall x :: x in q <==> x in s && x !in rest
      decreases rest
    {
      var x :| x in rest;
      rest := rest - {x};
      q := q + [x];
    }
  }

  // ---------------------------------------------------------------- slicing is sound

  /** The branch taken the other way, and the branch as it was taken. */
  function Flipped(cond: Expr, result: bool): Expr { Cmp(Neq, cond, BoolConst(result)) }

  function Taken(cond: Expr, result: bool): Expr { Cmp(Eq, cond, BoolConst(result)) }

  /** Every recorded constraint holds on f. */
  ghost predicate AllHold(st: Store, f: File) {
    forall off, e | e in ExprsAt(st, off) :: Truth(Denote(e, f))
  }

  /** The constraints recorded at the given bytes. */
  ghost function Sliced(st: Store, inputs: set<nat>): set<Expr> {
    set off, e | off in inputs && e in ExprsAt(st, off) :: e
  }

  ghost predicate AllTrue(es: set<Expr>, f: File) {
    forall e | e in es :: Truth(Denote(e, f))
  }

  /** The original file with the bytes of W taken from g. */
  function Merge(orig: File, g: File, W: set<nat>): (h: File)
    ensures |h| == |orig|
    ensures forall o | 0 <= o < |orig| :: h[o] == if o in W then ByteAt(g, o) else orig[o]
  {
    seq(|orig|, o requires 0 <= o < |orig| => if o in W then ByteAt(g, o) else orig[o])
  }

  /** A change confined to a component keeps every constraint outside it, and carries over every
      constraint inside it. */
  lemma MergeHolds(st: Store, joins: seq<set<nat>>, seed: set<nat>, W: set<nat>, orig: File, g: File)
    requires StoreInv(st, joins) && IsComponent(joins, seed, W) && W <= Offsets(|st|) && |orig| == |st|
    requires forall off | off in W :: InputsAt(st, off) <= W
    requires AllHold(st, orig) && AllTrue(Sliced(st, W), g)
    ensures AllHold(st, Merge(orig, g, W))
  {
    var h := Merge(orig, g, W);
    forall off, e | e in ExprsAt(st, off) ensures Truth(Denote(e, h)) {
      if Mentions(e) * W == {} {
        assert Agree(orig, h, Mentions(e)) by {
          forall o | o in Mentions(e) ensures ByteAt(orig, o) == ByteAt(h, o) {
            if o in W { assert o in Mentions(e) * W; }
          }
        }
        DenoteDepends(e, orig, h);
      } else {
        var o :| o in Mentions(e) * W;
        assert e in ExprsAt(st, o) && e in Sliced(st, W);
        assert Mentions(e) <= InputsAt(st, o) <= W;
        assert Agree(g, h, Mentions(e));
        DenoteDepends(e, g, h);
      }
    }
  }

  /** A component is closed under the recorded dependencies. */
  lemma ComponentClosed(st: Store, joins: seq<set<nat>>, seed: set<nat>, W: set<nat>, off: nat)
    requires StoreInv(st, joins) && IsComponent(joins, seed, W) && off in W
    ensures InputsAt(st, off) <= W
  {
    forall j | j in InputsAt(st, off) ensures j in W { assert Linked(joins, off, j); }
  }

  /** Sending only the slice loses nothing: flipping a condition is possible together with its slice
      exactly when it is possible together with every recorded constraint. */
  lemma SliceEquisatisfiable(st: Store, joins: seq<set<nat>>, seed: set<nat>, W: set<nat>, flip: Expr, orig: File)
    requires StoreInv(st, joins) && IsComponent(joins, seed, W) && W <= Offsets(|st|) && |orig| == |st|
    requires AllHold(st, orig) && Mentions(flip) <= seed
    ensures (exists g: File :: Truth(Denote(flip, g)) && AllTrue(Sliced(st, W), g))
       <==> (exists g: File :: Truth(Denote(flip, g)) && AllHold(st, g))
  {
    forall g: File | Truth(Denote(flip, g)) && AllTrue(Sliced(st, W), g)
      ensures exists h: File :: Truth(Denote(flip, h)) && AllHold(st, h)
    {
      var h := Merge(orig, g, W);
      forall off | off in W ensures InputsAt(st, off) <= W { ComponentClosed(st, joins, seed, W, off); }
      MergeHolds(st, joins, seed, W, orig, g);
      DenoteDepends(flip, g, h);
      assert Truth(Denote(flip, h)) && AllHold(st, h);
    }
    forall g: File | Truth(Denote(flip, g)) && AllHold(st, g)
      ensures Truth(Denote(flip, g)) && AllTrue(Sliced(st, W), g) {}
  }

  // ---------------------------------------------------------------- the solver

  /** Answer of one satisfiability check; a model assigns some bytes. */
  datatype Answer = Sat(model: map<nat, Byte>) | Unsat | Unknown

  ghost predicate Matches(f: File, m: map<nat, Byte>) {
    forall o | o in m :: ByteAt(f, o) == m[o]
  }

  /** Every completion of the model satisfies the formulas, and the model only assigns bytes that
      occur in them. */
  ghost predicate IsModel(asserted: set<Expr>, m: map<nat, Byte>) {
    && (forall o | o in m :: exists e :: e in asserted && o in Mentions(e))
    && (forall f: File | Matches(f, m) :: AllTrue(asserted, f))
  }

  ghost predicate SoundAnswer(asserted: set<Expr>, a: Answer) {
    && (a.Sat? ==> IsModel(asserted, a.model))
    && (a.Unsat? ==> forall f: File :: !AllTrue(asserted, f))
  }

  /** The k-th check of a query, with the formulas asserted so far. */
  type Oracle = (nat, set<Expr>) -> Answer

  /** The only thing assumed of the solver: its answers are right when it gives one. */
  ghost predicate SoundOracle(oracle: Oracle) {
    forall k: nat, es: set<Expr> :: SoundAnswer(es, oracle(k, es))
  }

  /** The solver never gives up. */
  ghost predicate Decisive(oracle: Oracle) {
    forall k: nat, es: set<Expr> :: !oracle(k, es).Unknown?
  }

  /** The generated input: the original file with the model's bytes written over it. */
  function Patch(orig: File, m: map<nat, Byte>): (g: File)
    ensures |g| == |orig|
    ensures forall o | 0 <= o < |orig| :: g[o] == if o in m then m[o] else orig[o]
  {
    seq(|orig|, o requires 0 <= o < |orig| => if o in m then m[o] else orig[o])
  }

  /** A model of the slice assigns bytes of the component only. */
  lemma ModelInside(st: Store, W: set<nat>, flip: Expr, m: map<nat, Byte>, o: nat)
    requires DepsCover(st)
    requires forall off | off in W :: InputsAt(st, off) <= W
    requires Mentions(flip) <= W && IsModel({flip} + Sliced(st, W), m) && o in m
    ensures o in W
  {
    var e :| e in {flip} + Sliced(st, W) && o in Mentions(e);
    if e != flip {
      var off :| off in W && e in ExprsAt(st, off);
      assert Mentions(e) <= InputsAt(st, off);
    }
  }

  lemma ModelInSlice(st: Store, joins: seq<set<nat>>, seed: set<nat>, W: set<nat>, flip: Expr, m: map<nat, Byte>)
    requires StoreInv(st, joins) && IsComponent(joins, seed, W) && Mentions(flip) <= seed
    requires IsModel({flip} + Sliced(st, W), m)
    ensures forall o | o in m :: o in W
  {
    forall off | off in W ensures InputsAt(st, off) <= W { ComponentClosed(st, joins, seed, W, off); }
    forall o | o in m ensures o in W { ModelInside(st, W, flip, m, o); }
  }

  /** A model of the slice, written over the original file, flips the condition and keeps every
      recorded constraint, sent to the solver or not. */
  lemma PatchSound(st: Store, joins: seq<set<nat>>, seed: set<nat>, W: set<nat>, flip: Expr, orig: File, m: map<nat, Byte>)
    requires StoreInv(st, joins) && IsComponent(joins, seed, W) && W <= Offsets(|st|) && |orig| == |st|
    requires AllHold(st, orig) && Mentions(flip) <= seed
    requires IsModel({flip} + Sliced(st, W), m)
    ensures Truth(Denote(flip, Patch(orig, m))) && AllHold(st, Patch(orig, m))
  {
    ModelInSlice(st, joins, seed, W, flip, m);
    var g := Patch(orig, m);
    PatchedSlice(st, W, flip, orig, m);
    MergeHolds(st, joins, seed, W, orig, g);
    assert Merge(orig, g, W) == g;
  }

  lemma PatchedSlice(st: Store, W: set<nat>, flip: Expr, orig: File, m: map<nat, Byte>)
    requires IsModel({flip} + Sliced(st, W), m) && forall o | o in m :: o in Offsets(|orig|)
    ensures Truth(Denote(flip, Patch(orig, m))) && AllTrue(Sliced(st, W), Patch(orig, m))
  {
    assert Matches(Patch(orig, m), m);
    assert flip in {flip} + Sliced(st, W);
    forall e | e in Sliced(st, W) ensures e in {flip} + Sliced(st, W) {}
  }

  /** A model of the condition alone still flips the condition. */
  lemma OptimisticPatch(flip: Expr, orig: File, m: map<nat, Byte>)
    requires IsModel({flip}, m) && Mentions(flip) <= Offsets(|orig|)
    ensures Truth(Denote(flip, Patch(orig, m)))
  {
    assert Matches(Patch(orig, m), m);
  }

  // ---------------------------------------------------------------- the path

  /** Every constraint of the path so far holds on f. */
  ghost predicate Faithful(path: seq<Expr>, f: File) {
    forall i | 0 <= i < |path| :: Truth(Denote(path[i], f))
  }

  /** The store holds exactly the constraints of the path, each at all the bytes it was recorded for. */
  ghost predicate PathOk(st: Store, joins: seq<set<nat>>, path: seq<Expr>) {
    && |path| == |joins|
    && (forall i | 0 <= i < |path| :: Mentions(path[i]) <= joins[i] <= Offsets(|st|))
    && (forall i, o | 0 <= i < |path| && o in joins[i] :: path[i] in ExprsAt(st, o))
    && (forall off, e | e in ExprsAt(st, off) :: e in path)
  }

  /** Every constraint was recorded for exactly the bytes it mentions, so that the components of joins are
      those of the constraints themselves. */
  ghost predicate OwnBytes(joins: seq<set<nat>>, path: seq<Expr>) {
    |joins| == |path| && forall i | 0 <= i < |path| :: joins[i] == Mentions(path[i])
  }

  lemma RecordKeepsPath(st: Store, joins: seq<set<nat>>, path: seq<Expr>, seed: set<nat>, W: set<nat>, e: Expr)
    requires PathOk(st, joins, path) && Mentions(e) <= seed <= W <= Offsets(|st|)
    ensures PathOk(Record(st, W, e), joins + [seed], path + [e])
  {
    var st', joins', path' := Record(st, W, e), joins + [seed], path + [e];
    forall i, o | 0 <= i < |path'| && o in joins'[i] ensures path'[i] in ExprsAt(st', o) {
      if i < |path| { assert o in joins[i] && path[i] in ExprsAt(st, o); }
    }
    forall off, x | x in ExprsAt(st', off) ensures x in path' {
      if x in ExprsAt(st, off) { assert x in path; } else { assert path'[|path|] == x; }
    }
  }

  lemma PathInStore(st: Store, joins: seq<set<nat>>, path: seq<Expr>, f: File)
    requires PathOk(st, joins, path) && Faithful(path, f)
    ensures AllHold(st, f)
  {
    forall off, e | e in ExprsAt(st, off) ensures Truth(Denote(e, f)) {
      assert e in path;
      var i :| 0 <= i < |path| && path[i] == e;
    }
  }

  lemma StoreInPath(st: Store, joins: seq<set<nat>>, path: seq<Expr>, orig: File, g: File)
    requires PathOk(st, joins, path) && Faithful(path, orig) && AllHold(st, g)
    ensures Faithful(path, g)
  {
    forall i | 0 <= i < |path| ensures Truth(Denote(path[i], g)) {
      if o :| o in Mentions(path[i]) {
        assert o in joins[i] && path[i] in ExprsAt(st, o);
      } else {
        DenoteDepends(path[i], orig, g);
      }
    }
  }

  /** What the full check decides: with a path that the original input satisfies, the slice plus the
      flipped condition is satisfiable exactly when some input flips the condition and keeps the whole
      path. */
  lemma SliceDecidesPath(st: Store, joins: seq<set<nat>>, path: seq<Expr>, seed: set<nat>, W: set<nat>, flip: Expr, orig: File)
    requires StoreInv(st, joins) && PathOk(st, joins, path) && Faithful(path, orig)
    requires IsComponent(joins, seed, W) && W <= Offsets(|st|) && |orig| == |st| && Mentions(flip) <= seed
    ensures (exists g: File :: AllTrue({flip} + Sliced(st, W), g))
       <==> (exists g: File :: Truth(Denote(flip, g)) && Faithful(path, g))
  {
    PathInStore(st, joins, path, orig);
    SliceEquisatisfiable(st, joins, seed, W, flip, orig);
    forall g: File ensures AllTrue({flip} + Sliced(st, W), g) <==> Truth(Denote(flip, g)) && AllTrue(Sliced(st, W), g) {
      if AllTrue({flip} + Sliced(st, W), g) { assert flip in {flip} + Sliced(st, W); }
    }
    forall g: File | AllHold(st, g) ensures Faithful(path, g) { StoreInPath(st, joins, path, orig, g); }
    forall g: File | Faithful(path, g) ensures AllHold(st, g) { PathInStore(st, joins, path, g); }
  }

  // ---------------------------------------------------------------- the loops over a slice

  /** The formulas that accompany a condition, each once. */
  method Gather(st: Store, inputs: set<nat>) returns (added: set<Expr>)
    ensures added == Sliced(st, inputs)
  {
    added := {};
    var rest := inputs;
    while rest != {}
      invariant rest <= inputs && added == Sliced(st, inputs - rest)
      decreases rest
    {
      var off :| off in rest;
      added := added + ExprsAt(st, off);
      rest := rest - {off};
      assert inputs - rest == (inputs - rest - {off}) + {off};
    }
  }

  /** Records e at every byte of inputs. */
  method RecordAt(st: Store, inputs: set<nat>, e: Expr) returns (st': Store)
    requires inputs <= Offsets(|st|)
    ensures st' == Record(st, inputs, e)
  {
    st' := st;
    var rest := inputs;
    while rest != {}
      invariant rest <= inputs && |st'| == |st|
      invariant forall o | 0 <= o < |st| ::
        st'[o] == if o in inputs - rest then Some(BranchDep(InputsAt(st, o) + inputs, ExprsAt(st, o) + {e})) else st[o]
      decreases rest
    {
      var off :| off in rest;
      var c := if st'[off].Some? then st'[off].value else BranchDep({}, {});
      st' := st'[off := Some(BranchDep(c.inputs + inputs, c.exprs + {e}))];
      rest := rest - {off};
    }
  }

  // ---------------------------------------------------------------- outcomes of a query

  /** What became of a branch: seen before, an exception, no input found, an input for the whole path,
      or an input for the branch alone. */
  datatype Outcome = Skipped | Failed | Infeasible | Full(file: File) | Optimistic(file: File)

  predicate IsBool(e: Expr) { SortOf(e) == Some(BoolSort) }

  predicate AllBool(es: set<Expr>) { forall e | e in es :: IsBool(e) }

  predicate WellSorted(path: seq<Expr>) { forall i | 0 <= i < |path| :: SortOf(path[i]).Some? }

  lemma FlippedMeans(cond: Expr, result: bool, f: File)
    requires IsBool(cond)
    ensures IsBool(Flipped(cond, result)) && IsBool(Taken(cond, result))
    ensures Mentions(Flipped(cond, result)) == Mentions(cond) == Mentions(Taken(cond, result))
    ensures Truth(Denote(Flipped(cond, result), f)) <==> Denote(cond, f) == BoolVal(!result)
    ensures Truth(Denote(Taken(cond, result), f)) <==> Denote(cond, f) == BoolVal(result)
  {
    DenoteSort(cond, f);
  }

  /** Recorded constraints that hold are conditions, so the solver takes them. */
  lemma FaithfulIsBool(st: Store, joins: seq<set<nat>>, path: seq<Expr>, W: set<nat>, f: File)
    requires PathOk(st, joins, path) && WellSorted(path) && Faithful(path, f)
    ensures AllBool(Sliced(st, W))
  {
    forall e | e in Sliced(st, W) ensures IsBool(e) {
      var off :| off in W && e in ExprsAt(st, off);
      assert e in path;
      var i :| 0 <= i < |path| && path[i] == e;
      DenoteSort(e, f);
    }
  }

  /** Some input takes the branch the other way and keeps the path. */
  ghost predicate Flippable(cond: Expr, result: bool, path: seq<Expr>) {
    exists g: File :: Denote(cond, g) == BoolVal(!result) && Faithful(path, g)
  }

  /** Some input takes the branch the other way, whatever it does to the path. */
  ghost predicate CanFlip(cond: Expr, result: bool) {
    exists g: File :: Denote(cond, g) == BoolVal(!result)
  }

  /** The file differs from the original in bytes from offs only. */
  ghost predicate ChangedWithin(orig: File, file: File, offs: set<nat>) {
    |file| == |orig| && forall i | 0 <= i < |orig| && file[i] != orig[i] :: i in offs
  }

  /** What an outcome promises about the branch and the path: an input of either kind takes the branch the
      other way, one for the whole path keeps the path as well, and one for the branch alone changes no
      byte but those of the condition. There is an input, unless an exception intervenes, exactly when the
      solver finds one for the branch alone. */
  ghost predicate Delivers(out: Outcome, cond: Expr, result: bool, path: seq<Expr>, orig: File, oracle: Oracle) {
    && (out.Full? || out.Optimistic? ==> |out.file| == |orig| && Denote(cond, out.file) == BoolVal(!result))
    && (out.Optimistic? ==> ChangedWithin(orig, out.file, Mentions(cond)))
    && (out.Infeasible? <==> !oracle(0, {Flipped(cond, result)}).Sat?)
    && (Faithful(path, orig) ==> !out.Failed?)
    && (Faithful(path, orig) && out.Full? ==> Faithful(path, out.file))
    && (Decisive(oracle) ==> Decided(out, cond, result, path, orig))
  }

  /** With a solver that always decides, the outcome tells which inputs exist. */
  ghost predicate Decided(out: Outcome, cond: Expr, result: bool, path: seq<Expr>, orig: File) {
    && (out.Infeasible? <==> !CanFlip(cond, result))
    && (Faithful(path, orig) ==> (out.Full? <==> Flippable(cond, result, path)))
    && (Faithful(path, orig) ==> (out.Optimistic? <==> CanFlip(cond, result) && !Flippable(cond, result, path)))
  }

  /** The two checks of one branch, and the input they yield. */
  method Query(st: Store, inputs: set<nat>, cond: Expr, result: bool, orig: File, oracle: Oracle,
               ghost joins: seq<set<nat>>, ghost path: seq<Expr>, ghost seed: set<nat>) returns (out: Outcome)
    requires StoreInv(st, joins) && PathOk(st, joins, path) && WellSorted(path) && |orig| == |st|
    requires IsComponent(joins, seed, inputs) && inputs <= Offsets(|st|)
    requires IsBool(cond) && Mentions(cond) <= seed && SoundOracle(oracle)
    ensures !out.Skipped? && Delivers(out, cond, result, path, orig, oracle)
    ensures out.Full? ==> ChangedWithin(orig, out.file, inputs)
    ensures out.Full? ==> oracle(1, {Flipped(cond, result)} + Sliced(st, inputs)).Sat?
    ensures out.Optimistic? ==> !oracle(1, {Flipped(cond, result)} + Sliced(st, inputs)).Sat?
    ensures out.Failed? ==> !AllBool(Sliced(st, inputs))
  {
    var flip := Flipped(cond, result);
    FlippedMeans(cond, result, orig);
    var res := oracle(0, {flip});
    assert SoundAnswer({flip}, res);
    if !res.Sat? {
      if Decisive(oracle) { NeverFlips(cond, result, path, res); }
      return Infeasible;
    }
    var mOpt := res.model;
    FirstFlips(cond, result, orig, mOpt);
    var added := Gather(st, inputs);
    if Faithful(path, orig) { FaithfulIsBool(st, joins, path, inputs, orig); }
    if !AllBool(added) {
      return Failed;
    }
    res := oracle(1, {flip} + added);
    assert SoundAnswer({flip} + added, res);
    if res.Sat? {
      out := Full(Patch(orig, res.model));
      FullDelivers(st, joins, path, seed, inputs, cond, result, orig, res.model);
    } else {
      out := Optimistic(Patch(orig, mOpt));
      if Faithful(path, orig) && Decisive(oracle) {
        SliceUnsat(st, joins, path, seed, inputs, cond, result, orig);
      }
    }
  }

  /** A check of the branch alone that fails. */
  lemma NeverFlips(cond: Expr, result: bool, path: seq<Expr>, res: Answer)
    requires IsBool(cond) && SoundAnswer({Flipped(cond, result)}, res) && res.Unsat?
    ensures !CanFlip(cond, result) && !Flippable(cond, result, path)
  {
    forall g: File ensures Denote(cond, g) != BoolVal(!result) {
      FlippedMeans(cond, result, g);
      assert !AllTrue({Flipped(cond, result)}, g);
    }
  }

  /** One that succeeds yields an input that changes bytes of the condition only. */
  lemma FirstFlips(cond: Expr, result: bool, orig: File, m: map<nat, Byte>)
    requires IsBool(cond) && IsModel({Flipped(cond, result)}, m) && Mentions(cond) <= Offsets(|orig|)
    ensures Denote(cond, Patch(orig, m)) == BoolVal(!result) && CanFlip(cond, result)
    ensures ChangedWithin(orig, Patch(orig, m), Mentions(cond))
  {
    var flip, g := Flipped(cond, result), Patch(orig, m);
    FlippedMeans(cond, result, g);
    OptimisticPatch(flip, orig, m);
    forall i | 0 <= i < |orig| && g[i] != orig[i] ensures i in Mentions(cond) {
      var e :| e in {flip} && i in Mentions(e);
    }
  }

  /** A model of the slice sets bytes of the slice only, and the patched file takes the branch the other way. */
  lemma SlicePatch(st: Store, joins: seq<set<nat>>, seed: set<nat>, W: set<nat>, flip: Expr, orig: File, m: map<nat, Byte>)
    requires StoreInv(st, joins) && IsComponent(joins, seed, W) && W <= Offsets(|st|) && |orig| == |st|
    requires Mentions(flip) <= seed && IsModel({flip} + Sliced(st, W), m)
    ensures Truth(Denote(flip, Patch(orig, m))) && ChangedWithin(orig, Patch(orig, m), W)
  {
    ModelInSlice(st, joins, seed, W, flip, m);
    PatchedSlice(st, W, flip, orig, m);
  }

  lemma FullDelivers(st: Store, joins: seq<set<nat>>, path: seq<Expr>, seed: set<nat>, W: set<nat>, cond: Expr,
                     result: bool, orig: File, m: map<nat, Byte>)
    requires StoreInv(st, joins) && PathOk(st, joins, path) && |orig| == |st|
    requires IsComponent(joins, seed, W) && W <= Offsets(|st|) && IsBool(cond) && Mentions(cond) <= seed
    requires IsModel({Flipped(cond, result)} + Sliced(st, W), m)
    ensures Denote(cond, Patch(orig, m)) == BoolVal(!result) && ChangedWithin(orig, Patch(orig, m), W)
    ensures Faithful(path, orig) ==> Faithful(path, Patch(orig, m)) && Flippable(cond, result, path)
  {
    var flip, g := Flipped(cond, result), Patch(orig, m);
    FlippedMeans(cond, result, g);
    SlicePatch(st, joins, seed, W, flip, orig, m);
    if Faithful(path, orig) {
      PathInStore(st, joins, path, orig);
      PatchSound(st, joins, seed, W, flip, orig, m);
      StoreInPath(st, joins, path, orig, g);
    }
  }

  lemma SliceUnsat(st: Store, joins: seq<set<nat>>, path: seq<Expr>, seed: set<nat>, W: set<nat>, cond: Expr,
                   result: bool, orig: File)
    requires StoreInv(st, joins) && PathOk(st, joins, path) && Faithful(path, orig) && |orig| == |st|
    requires IsComponent(joins, seed, W) && W <= Offsets(|st|) && IsBool(cond) && Mentions(cond) <= seed
    requires forall f: File :: !AllTrue({Flipped(cond, result)} + Sliced(st, W), f)
    ensures !Flippable(cond, result, path)
  {
    FlippedMeans(cond, result, orig);
    SliceDecidesPath(st, joins, path, seed, W, Flipped(cond, result), orig);
    forall g: File ensures !(Denote(cond, g) == BoolVal(!result) && Faithful(path, g)) {
      FlippedMeans(cond, result, g);
    }
  }
}
