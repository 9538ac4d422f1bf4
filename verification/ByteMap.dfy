/** The two-level byte map: secondary arrays appear on demand while many threads set and get bytes.
    Steps are single loads, stores and lock operations. Its specification is one flat array. */
module ByteMap {
  import opened Arith
  import opened Options
  import opened Paths

  // ---------------------------------------------------------------- the flat map

  /** A flat map; a byte may be set once, from zero. */
  type Flat = seq<int>

  predicate FlatCanSet(m: Flat, idx: nat) { idx < |m| && m[idx] == 0 }

  function FlatSet(m: Flat, idx: nat, val: int): Flat
    requires FlatCanSet(m, idx)
  {
    m[idx := val]
  }

  // ---------------------------------------------------------------- the two-level map

  /** Number of secondary arrays and length of each. */
  datatype Dim = Dim(k1: nat, k2: nat)

  predicate GoodDim(d: Dim) { d.k1 > 0 && d.k2 > 0 }

  /** First-level slot and offset in its array. */
  datatype Pos = Pos(slot: nat, off: nat)

  function PosOf(d: Dim, idx: nat): Pos
    requires GoodDim(d)
  {
    DivNonNeg(idx, d.k2);
    Pos(idx / d.k2, idx % d.k2)
  }

  predicate Within(d: Dim, p: Pos) { p.slot < d.k1 && p.off < d.k2 }

  datatype Op = Set(pos: Pos, val: int) | Get(pos: Pos)

  datatype Pc =
    | Load | WantLock | Reload | Allocate | Publish(p: nat) | Unlock(p: nat)
    | Check(p: nat) | Write(p: nat) | ReadByte(p: nat)
    | Done(result: int)
    | Crashed

  datatype Thread = Thread(op: Op, pc: Pc)

  /** Pointers are numbers, zero is null. claimed lists the positions some thread set or is setting. */
  datatype State = State(map1: seq<nat>, heap: map<nat, seq<int>>, owner: Option<nat>, threads: map<nat, Thread>,
                         claimed: set<Pos>)

  predicate Init(d: Dim, s: State) {
    s == State(seq(d.k1, i => 0), map[], None, map[], {})
  }

  function Zeros(n: nat): seq<int> { seq(n, i => 0) }

  function Goto(s: State, me: nat, pc: Pc): State
    requires me in s.threads
  {
    s.(threads := s.threads[me := s.threads[me].(pc := pc)])
  }

  /** The next step of thread me. */
  predicate StepBy(d: Dim, s: State, s': State, me: nat)
    requires GoodDim(d)
  {
    && me in s.threads
    && var t := s.threads[me];
       var pos := t.op.pos;
       pos.slot < |s.map1| &&
       match t.pc
       case Load =>
         var p := s.map1[pos.slot];
         s' == Goto(s, me, if t.op.Get? then (if p == 0 then Done(0) else ReadByte(p))
                           else (if p == 0 then WantLock else Check(p)))
       case WantLock => s.owner.None? && s' == Goto(s, me, Reload).(owner := Some(me))
       case Reload =>
         var p := s.map1[pos.slot];
         s' == Goto(s, me, if p == 0 then Allocate else Unlock(p))
       case Allocate =>
         exists p :: p in s'.heap && p != 0 && p !in s.heap
                     && s' == Goto(s, me, Publish(p)).(heap := s.heap[p := Zeros(d.k2)])
       case Publish(p) => s' == Goto(s, me, Unlock(p)).(map1 := s.map1[pos.slot := p])
       case Unlock(p) => s' == Goto(s, me, Check(p)).(owner := None)
       case Check(p) =>
         && p in s.heap && pos.off < |s.heap[p]|
         && s' == Goto(s, me, if s.heap[p][pos.off] == 0 then Write(p) else Crashed)
       case Write(p) =>
         && p in s.heap && pos.off < |s.heap[p]| && t.op.Set?
         && s' == Goto(s, me, Done(t.op.val)).(heap := s.heap[p := s.heap[p][pos.off := t.op.val]])
       case ReadByte(p) =>
         && p in s.heap && pos.off < |s.heap[p]|
         && s' == Goto(s, me, Done(s.heap[p][pos.off]))
       case _ => false
  }

  /** A new call, inside the map; a position may be set once. */
  predicate Begins(d: Dim, s: State, s': State, me: nat) {
    && (me in s.threads ==> s.threads[me].pc.Done?)
    && me in s'.threads
    && var t := s'.threads[me];
       && t.pc.Load? && Within(d, t.op.pos) && (t.op.Set? ==> t.op.pos !in s.claimed)
       && s' == s.(threads := s.threads[me := t], claimed := if t.op.Set? then s.claimed + {t.op.pos} else s.claimed)
  }

  ghost predicate Next(d: Dim, s: State, s': State)
    requires GoodDim(d)
  {
    exists me: nat :: StepBy(d, s, s', me) || Begins(d, s, s', me)
  }

  ghost predicate IsRun(d: Dim, run: seq<State>)
    requires GoodDim(d)
  {
    |run| > 0 && Init(d, run[0]) && forall k | 0 < k < |run| :: NextAt(d, run, k)
  }

  ghost predicate NextAt(d: Dim, run: seq<State>, k: nat)
    requires GoodDim(d) && 0 < k < |run|
  {
    Next(d, run[k - 1], run[k])
  }

  // ---------------------------------------------------------------- the invariant

  /** The byte at a position. */
  function ByteOf(s: State, pos: Pos): int {
    if pos.slot < |s.map1| && s.map1[pos.slot] in s.heap && pos.off < |s.heap[s.map1[pos.slot]]|
    then s.heap[s.map1[pos.slot]][pos.off] else 0
  }

  /** Published arrays exist, have the right length, and are published in one slot only. */
  ghost predicate ArraysOk(d: Dim, s: State) {
    && |s.map1| == d.k1 && 0 !in s.heap
    && (forall i | 0 <= i < d.k1 && s.map1[i] != 0 :: s.map1[i] in s.heap && |s.heap[s.map1[i]]| == d.k2)
    && (forall i, j | 0 <= i < j < d.k1 && s.map1[i] != 0 :: s.map1[i] != s.map1[j])
  }

  predicate Locks(pc: Pc) {
    pc.Reload? || pc.Allocate? || pc.Publish? || pc.Unlock?
  }

  predicate Sets(t: Thread) { t.op.Set? && !t.pc.Done? }

  function SlotAt(s: State, slot: nat): nat {
    if slot < |s.map1| then s.map1[slot] else 0
  }

  /** What a thread knows. */
  ghost predicate ThreadOk(d: Dim, s: State, t: Thread) {
    && Within(d, t.op.pos)
    && (Locks(t.pc) || t.pc.WantLock? || t.pc.Check? || t.pc.Write? ==> t.op.Set?)
    && (t.pc.ReadByte? ==> t.op.Get?)
    && var p0 := SlotAt(s, t.op.pos.slot);
       match t.pc
       case Allocate => p0 == 0
       case Publish(p) => p0 == 0 && p != 0 && p in s.heap && s.heap[p] == Zeros(d.k2) && p !in s.map1
       case Unlock(p) => p0 == p != 0
       case Check(p) => p0 == p != 0
       case Write(p) => p0 == p != 0
       case ReadByte(p) => p0 == p != 0
       case Crashed => false
       case _ => true
  }

  ghost predicate LockOk(s: State) {
    && (s.owner.Some? ==> s.owner.value in s.threads)
    && forall h | h in s.threads :: Locks(s.threads[h].pc) <==> s.owner == Some(h)
  }

  /** Who sets which byte: a byte not zero was claimed; a byte being set is zero and has one setter; a
      completed set is there to stay. */
  ghost predicate ClaimsOk(s: State) {
    && (forall pos | ByteOf(s, pos) != 0 :: pos in s.claimed)
    && (forall h | h in s.threads && s.threads[h].op.Set? :: s.threads[h].op.pos in s.claimed)
    && (forall h | h in s.threads && Sets(s.threads[h]) :: ByteOf(s, s.threads[h].op.pos) == 0)
    && (forall h, g | h in s.threads && g in s.threads && h != g && s.threads[h].op.Set? && s.threads[g].op.Set? ::
          s.threads[h].op.pos != s.threads[g].op.pos)
    && (forall h | h in s.threads && s.threads[h].op.Set? && s.threads[h].pc.Done? ::
          ByteOf(s, s.threads[h].op.pos) == s.threads[h].op.val)
  }

  ghost predicate Inv(d: Dim, s: State) {
    && ArraysOk(d, s) && LockOk(s) && ClaimsOk(s)
    && forall h | h in s.threads :: ThreadOk(d, s, s.threads[h])
  }

  // ---------------------------------------------------------------- steps

  lemma InitInv(d: Dim, s: State)
    requires GoodDim(d) && Init(d, s)
    ensures Inv(d, s)
  {}

  lemma BeginInv(d: Dim, s: State, s': State, me: nat)
    requires GoodDim(d) && Inv(d, s) && Begins(d, s, s', me)
    ensures Inv(d, s')
  {
    BeginClaims(d, s, s', me);
    forall h | h in s'.threads ensures ThreadOk(d, s', s'.threads[h]) {
      if h != me { assert ThreadOk(d, s, s.threads[h]); }
    }
  }

  lemma BeginClaims(d: Dim, s: State, s': State, me: nat)
    requires ClaimsOk(s) && Begins(d, s, s', me)
    ensures ClaimsOk(s')
  {
    assert forall pos :: ByteOf(s', pos) == ByteOf(s, pos);
    var t := s'.threads[me];
    assert t.op.Set? && ByteOf(s, t.op.pos) != 0 ==> t.op.pos in s.claimed;
  }

  /** While bytes stay the same and no set completes, the claims stay right. */
  lemma ClaimsKept(s: State, s': State, me: nat)
    requires ClaimsOk(s) && me in s.threads && me in s'.threads
    requires s'.threads == s.threads[me := s'.threads[me]] && s'.claimed == s.claimed
    requires s'.threads[me].op == s.threads[me].op
    requires s.threads[me].op.Set? ==> (s'.threads[me].pc.Done? <==> s.threads[me].pc.Done?)
    requires forall pos :: ByteOf(s', pos) == ByteOf(s, pos)
    ensures ClaimsOk(s')
  {}

  /** The step changes threads and lock only, and only for me. */
  ghost predicate OnlyMine(s: State, s': State, me: nat) {
    && me in s.threads && me in s'.threads
    && s'.threads == s.threads[me := s'.threads[me]]
    && s'.map1 == s.map1 && s'.heap == s.heap && s'.claimed == s.claimed
    && s'.threads[me].op == s.threads[me].op
    && (s'.owner == s.owner || (s.owner.None? && s'.owner == Some(me)) || (s.owner == Some(me) && s'.owner.None?))
  }

  /** The steps that touch neither arrays nor slots. */
  lemma PlainStep(d: Dim, s: State, s': State, me: nat)
    requires GoodDim(d) && StepBy(d, s, s', me) && ThreadOk(d, s, s.threads[me])
    requires !s.threads[me].pc.Allocate? && !s.threads[me].pc.Publish? && !s.threads[me].pc.Write?
    requires Locks(s.threads[me].pc) <==> s.owner == Some(me)
    requires s.threads[me].pc.Check? ==> ByteOf(s, s.threads[me].op.pos) == 0
    ensures OnlyMine(s, s', me) && ThreadOk(d, s', s'.threads[me])
    ensures Locks(s'.threads[me].pc) <==> s'.owner == Some(me)
    ensures s.threads[me].op.Set? ==> !s'.threads[me].pc.Done? && !s.threads[me].pc.Done?
  {}

  lemma PlainInv(d: Dim, s: State, s': State, me: nat)
    requires GoodDim(d) && Inv(d, s) && StepBy(d, s, s', me)
    requires !s.threads[me].pc.Allocate? && !s.threads[me].pc.Publish? && !s.threads[me].pc.Write?
    ensures Inv(d, s')
  {
    assert ThreadOk(d, s, s.threads[me]);
    PlainStep(d, s, s', me);
    ClaimsKept(s, s', me);
    ThreadsKept(d, s, s', me);
  }

  lemma ThreadsKept(d: Dim, s: State, s': State, me: nat)
    requires OnlyMine(s, s', me) && ThreadOk(d, s', s'.threads[me])
    requires forall h | h in s.threads :: ThreadOk(d, s, s.threads[h])
    ensures forall h | h in s'.threads :: ThreadOk(d, s', s'.threads[h])
  {
    forall h | h in s'.threads ensures ThreadOk(d, s', s'.threads[h]) {
      if h != me { assert ThreadOk(d, s, s.threads[h]); }
    }
  }

  lemma AllocateInv(d: Dim, s: State, s': State, me: nat)
    requires GoodDim(d) && Inv(d, s) && StepBy(d, s, s', me) && s.threads[me].pc.Allocate?
    ensures Inv(d, s')
  {
    var p :| p in s'.heap && p != 0 && p !in s.heap
             && s' == Goto(s, me, Publish(p)).(heap := s.heap[p := Zeros(d.k2)]);
    assert forall i | 0 <= i < d.k1 :: s.map1[i] != p;
    assert ThreadOk(d, s, s.threads[me]);
    ClaimsKept(s, s', me);
  }

  lemma PublishInv(d: Dim, s: State, s': State, me: nat)
    requires GoodDim(d) && Inv(d, s) && StepBy(d, s, s', me) && s.threads[me].pc.Publish?
    ensures Inv(d, s')
  {
    var t := s.threads[me];
    var slot, p := t.op.pos.slot, t.pc.p;
    assert ThreadOk(d, s, t);
    forall pos ensures ByteOf(s', pos) == ByteOf(s, pos) {
      if pos.slot == slot { assert ByteOf(s', pos) == 0; }
    }
    forall h | h in s'.threads ensures ThreadOk(d, s', s'.threads[h]) {
      if h != me { assert ThreadOk(d, s, s.threads[h]); }
    }
  }

  lemma WriteInv(d: Dim, s: State, s': State, me: nat)
    requires GoodDim(d) && Inv(d, s) && StepBy(d, s, s', me) && s.threads[me].pc.Write?
    ensures Inv(d, s')
    ensures forall pos :: ByteOf(s', pos) == if pos == s.threads[me].op.pos then s.threads[me].op.val else ByteOf(s, pos)
  {
    var t := s.threads[me];
    var p := t.pc.p;
    assert ThreadOk(d, s, t);
    forall pos ensures ByteOf(s', pos) == if pos == t.op.pos then t.op.val else ByteOf(s, pos) {
      assert pos.slot < d.k1 && pos.slot != t.op.pos.slot ==> s.map1[pos.slot] != p;
    }
    forall h | h in s'.threads ensures ThreadOk(d, s', s'.threads[h]) {
      if h != me { assert ThreadOk(d, s, s.threads[h]); }
    }
  }

  lemma NextInv(d: Dim, s: State, s': State)
    requires GoodDim(d) && Inv(d, s) && Next(d, s, s')
    ensures Inv(d, s')
  {
    var me: nat :| StepBy(d, s, s', me) || Begins(d, s, s', me);
    if Begins(d, s, s', me) {
      BeginInv(d, s, s', me);
    } else if s.threads[me].pc.Allocate? {
      AllocateInv(d, s, s', me);
    } else if s.threads[me].pc.Publish? {
      PublishInv(d, s, s', me);
    } else if s.threads[me].pc.Write? {
      WriteInv(d, s, s', me);
    } else {
      PlainInv(d, s, s', me);
    }
  }

  lemma {:induction false} RunInv(d: Dim, run: seq<State>, k: nat)
    requires GoodDim(d) && IsRun(d, run) && k < |run|
    ensures Inv(d, run[k])
    decreases k
  {
    if k == 0 {
      InitInv(d, run[0]);
    } else {
      RunInv(d, run, k - 1);
      assert NextAt(d, run, k);
      NextInv(d, run[k - 1], run[k]);
    }
  }

  // ---------------------------------------------------------------- what every interleaving gives

  /** No check fails. */
  lemma RunSafe(d: Dim, run: seq<State>, k: nat, h: nat)
    requires GoodDim(d) && IsRun(d, run) && k < |run| && h in run[k].threads
    ensures !run[k].threads[h].pc.Crashed?
  {
    RunInv(d, run, k);
    assert ThreadOk(d, run[k], run[k].threads[h]);
  }

  /** A first-level slot is published at most once. */
  lemma {:induction false} PublishedOnce(d: Dim, run: seq<State>, i: nat, j: nat, slot: nat)
    requires GoodDim(d) && IsRun(d, run) && i <= j < |run| && SlotAt(run[i], slot) != 0
    ensures SlotAt(run[j], slot) == SlotAt(run[i], slot)
    decreases j
  {
    if i < j {
      PublishedOnce(d, run, i, j - 1, slot);
      RunInv(d, run, j - 1);
      assert NextAt(d, run, j);
      SlotKept(d, run[j - 1], run[j], slot);
    }
  }

  lemma SlotKept(d: Dim, s: State, s': State, slot: nat)
    requires GoodDim(d) && Inv(d, s) && Next(d, s, s') && SlotAt(s, slot) != 0
    ensures SlotAt(s', slot) == SlotAt(s, slot)
  {
    var me: nat :| StepBy(d, s, s', me) || Begins(d, s, s', me);
    if StepBy(d, s, s', me) { assert ThreadOk(d, s, s.threads[me]); }
  }

  /** Nobody will set this byte any more. */
  ghost predicate Settled(s: State, pos: Pos) {
    pos in s.claimed && forall h | h in s.threads && Sets(s.threads[h]) :: s.threads[h].op.pos != pos
  }

  lemma CompletedIsSettled(d: Dim, s: State, h: nat)
    requires Inv(d, s) && h in s.threads && s.threads[h].op.Set? && s.threads[h].pc.Done?
    ensures Settled(s, s.threads[h].op.pos) && ByteOf(s, s.threads[h].op.pos) == s.threads[h].op.val
  {}

  /** A step is about one thread, whose call stays the same. */
  lemma StepFrame(d: Dim, s: State, s': State, me: nat)
    requires GoodDim(d) && StepBy(d, s, s', me)
    ensures me in s'.threads && s'.threads == s.threads[me := s'.threads[me]] && s'.claimed == s.claimed
    ensures s'.threads[me].op == s.threads[me].op && !s.threads[me].pc.Done?
  {}

  lemma SettledStep(d: Dim, s: State, s': State, me: nat, pos: Pos)
    requires GoodDim(d) && Inv(d, s) && StepBy(d, s, s', me) && Settled(s, pos)
    ensures Settled(s', pos) && ByteOf(s', pos) == ByteOf(s, pos)
  {
    StepBytes(d, s, s', me);
    StepFrame(d, s, s', me);
  }

  lemma SettledBegin(d: Dim, s: State, s': State, me: nat, pos: Pos)
    requires Begins(d, s, s', me) && Settled(s, pos)
    ensures Settled(s', pos) && ByteOf(s', pos) == ByteOf(s, pos)
  {}

  lemma SettledKept(d: Dim, s: State, s': State, pos: Pos)
    requires GoodDim(d) && Inv(d, s) && Next(d, s, s') && Settled(s, pos)
    ensures Settled(s', pos) && ByteOf(s', pos) == ByteOf(s, pos)
  {
    var me: nat :| StepBy(d, s, s', me) || Begins(d, s, s', me);
    if StepBy(d, s, s', me) { SettledStep(d, s, s', me, pos); } else { SettledBegin(d, s, s', me, pos); }
  }

  /** A completed set is never lost: from then on the byte has the value that was set. */
  lemma {:induction false} SetIsKept(d: Dim, run: seq<State>, i: nat, j: nat, h: nat)
    requires GoodDim(d) && IsRun(d, run) && i <= j < |run|
    requires h in run[i].threads && run[i].threads[h].op.Set? && run[i].threads[h].pc.Done?
    ensures var op := run[i].threads[h].op; Settled(run[j], op.pos) && ByteOf(run[j], op.pos) == op.val
    decreases j
  {
    RunInv(d, run, i);
    if i == j {
      CompletedIsSettled(d, run[i], h);
    } else {
      SetIsKept(d, run, i, j - 1, h);
      RunInv(d, run, j - 1);
      assert NextAt(d, run, j);
      SettledKept(d, run[j - 1], run[j], run[i].threads[h].op.pos);
    }
  }

  /** What a step does to the bytes: only a write changes one, its own, from zero. */
  lemma StepBytes(d: Dim, s: State, s': State, me: nat)
    requires GoodDim(d) && Inv(d, s) && StepBy(d, s, s', me)
    ensures
      var t := s.threads[me];
      && (t.pc.Write? ==> Sets(t) && ByteOf(s, t.op.pos) == 0)
      && forall pos :: ByteOf(s', pos) == if t.pc.Write? && pos == t.op.pos then t.op.val else ByteOf(s, pos)
  {
    var t := s.threads[me];
    assert ThreadOk(d, s, t);
    if t.pc.Write? {
      WriteInv(d, s, s', me);
    } else if t.pc.Publish? {
      PublishBytes(d, s, s', me);
    } else if t.pc.Allocate? {
      var p :| p in s'.heap && p != 0 && p !in s.heap
               && s' == Goto(s, me, Publish(p)).(heap := s.heap[p := Zeros(d.k2)]);
    } else {
      assert s'.map1 == s.map1 && s'.heap == s.heap;
    }
  }

  lemma PublishBytes(d: Dim, s: State, s': State, me: nat)
    requires GoodDim(d) && Inv(d, s) && StepBy(d, s, s', me) && s.threads[me].pc.Publish?
    ensures forall pos :: ByteOf(s', pos) == ByteOf(s, pos)
  {
    var t := s.threads[me];
    assert ThreadOk(d, s, t);
    forall pos ensures ByteOf(s', pos) == ByteOf(s, pos) {
      if pos.slot == t.op.pos.slot { assert ByteOf(s', pos) == 0; }
    }
  }

  // ---------------------------------------------------------------- refinement of the flat map

  function IndexOf(d: Dim, pos: Pos): nat {
    MulMono(0, pos.slot, d.k2);
    pos.slot * d.k2 + pos.off
  }

  lemma IndexRoundTrip(d: Dim, pos: Pos)
    requires GoodDim(d) && Within(d, pos)
    ensures IndexOf(d, pos) < d.k1 * d.k2 && PosOf(d, IndexOf(d, pos)) == pos
  {
    MulMono(pos.slot + 1, d.k1, d.k2);
    Distribute(pos.slot, 1, d.k2);
    DivModUnique(IndexOf(d, pos), d.k2, pos.slot, pos.off);
  }

  lemma PosRoundTrip(d: Dim, idx: nat)
    requires GoodDim(d) && idx < d.k1 * d.k2
    ensures Within(d, PosOf(d, idx)) && IndexOf(d, PosOf(d, idx)) == idx
  {
    DivLess(idx, d.k2, d.k1);
    DivBounds(idx, d.k2);
  }

  function Total(d: Dim): nat {
    MulMono(0, d.k1, d.k2);
    d.k1 * d.k2
  }

  /** The flat array a state stands for. */
  function Abstract(d: Dim, s: State): (m: Flat)
    requires GoodDim(d)
    ensures |m| == Total(d)
    ensures forall idx | 0 <= idx < |m| :: m[idx] == ByteOf(s, PosOf(d, idx))
  {
    seq(Total(d), idx requires 0 <= idx => ByteOf(s, PosOf(d, idx)))
  }

  /** Every step of every interleaving is one set of the flat map, allowed there, or leaves it alone. */
  lemma StepRefinesFlat(d: Dim, s: State, s': State, me: nat)
    requires GoodDim(d) && Inv(d, s) && StepBy(d, s, s', me)
    ensures
      var t := s.threads[me];
      if t.pc.Write? then
        && t.op.Set? && FlatCanSet(Abstract(d, s), IndexOf(d, t.op.pos))
        && Abstract(d, s') == FlatSet(Abstract(d, s), IndexOf(d, t.op.pos), t.op.val)
      else Abstract(d, s') == Abstract(d, s)
  {
    var t := s.threads[me];
    StepBytes(d, s, s', me);
    if t.pc.Write? {
      assert ThreadOk(d, s, t);
      IndexRoundTrip(d, t.op.pos);
      forall idx | 0 <= idx < Total(d) && idx != IndexOf(d, t.op.pos) ensures PosOf(d, idx) != t.op.pos {
        PosRoundTrip(d, idx);
      }
    }
  }

  /** A get returns what the flat map holds at one instant of the call. */
  lemma GetRefinesFlat(d: Dim, s: State, s': State, me: nat)
    requires GoodDim(d) && Inv(d, s) && StepBy(d, s, s', me)
    requires s.threads[me].op.Get? && s'.threads[me].pc.Done?
    ensures
      var idx := IndexOf(d, s.threads[me].op.pos);
      idx < Total(d) && s'.threads[me].pc.result == Abstract(d, s)[idx]
  {
    assert ThreadOk(d, s, s.threads[me]);
    IndexRoundTrip(d, s.threads[me].op.pos);
  }

  // ---------------------------------------------------------------- calls that run alone

  function StepOf(d: Dim, me: nat): (State, State) -> bool
    requires GoodDim(d)
  {
    (s, s') => StepBy(d, s, s', me)
  }

  /** Steps a call still has to make at most. */
  function StepsLeft(pc: Pc): nat {
    match pc
    case Load => 8 case WantLock => 7 case Reload => 6 case Allocate => 5 case Publish(_) => 4 case Unlock(_) => 3
    case Check(_) => 2 case Write(_) => 1 case ReadByte(_) => 1 case _ => 0
  }

  lemma {:induction false} FreshPointer(heap: map<nat, seq<int>>) returns (p: nat)
    ensures p != 0 && p !in heap
  {
    p := 1;
    var seen: set<nat> := {};
    while p in heap
      invariant p != 0 && seen <= heap.Keys && p !in seen && forall q | q in seen :: q < p
      decreases heap.Keys - seen
    {
      seen := seen + {p};
      p := p + 1;
    }
  }

  /** A call inside a state nobody else is about to lock. */
  ghost predicate Runs(d: Dim, s: State, me: nat) {
    && GoodDim(d) && Inv(d, s) && me in s.threads && !s.threads[me].pc.Done?
    && (s.owner.None? || s.owner == Some(me))
  }

  predicate Advances(d: Dim, s: State, m: State, me: nat)
    requires Runs(d, s, me)
  {
    && StepBy(d, s, m, me) && me in m.threads && m.threads[me].op == s.threads[me].op
    && StepsLeft(m.threads[me].pc) < StepsLeft(s.threads[me].pc) && (m.owner.None? || m.owner == Some(me))
  }

  lemma NextAlone(d: Dim, s: State, me: nat) returns (m: State)
    requires Runs(d, s, me)
    ensures Advances(d, s, m, me) && Inv(d, m)
  {
    m := StepAlone(d, s, me);
    assert Next(d, s, m);
    NextInv(d, s, m);
  }

  lemma StepAlone(d: Dim, s: State, me: nat) returns (m: State)
    requires Runs(d, s, me)
    ensures Advances(d, s, m, me)
  {
    var t := s.threads[me];
    assert ThreadOk(d, s, t);
    var p0 := s.map1[t.op.pos.slot];
    match t.pc {
      case Load => m := Goto(s, me, if t.op.Get? then (if p0 == 0 then Done(0) else ReadByte(p0))
                                    else (if p0 == 0 then WantLock else Check(p0)));
      case Check(p) => m := Goto(s, me, if s.heap[p][t.op.pos.off] == 0 then Write(p) else Crashed);
      case Write(p) => m := Goto(s, me, Done(t.op.val)).(heap := s.heap[p := s.heap[p][t.op.pos.off := t.op.val]]);
      case ReadByte(p) => m := Goto(s, me, Done(s.heap[p][t.op.pos.off]));
      case _ => m := CreateAlone(d, s, me);
    }
  }

  /** The steps from taking the lock to giving it back. */
  lemma CreateAlone(d: Dim, s: State, me: nat) returns (m: State)
    requires Runs(d, s, me)
    requires var pc := s.threads[me].pc; pc.WantLock? || pc.Reload? || pc.Allocate? || pc.Publish? || pc.Unlock?
    ensures Advances(d, s, m, me)
  {
    var t := s.threads[me];
    assert ThreadOk(d, s, t);
    var p0 := s.map1[t.op.pos.slot];
    match t.pc {
      case WantLock => m := Goto(s, me, Reload).(owner := Some(me));
      case Reload => m := Goto(s, me, if p0 == 0 then Allocate else Unlock(p0));
      case Allocate =>
        var p := FreshPointer(s.heap);
        m := Goto(s, me, Publish(p)).(heap := s.heap[p := Zeros(d.k2)]);
        assert p in m.heap;
      case Publish(p) => m := Goto(s, me, Unlock(p)).(map1 := s.map1[t.op.pos.slot := p]);
      case Unlock(p) => m := Goto(s, me, Check(p)).(owner := None);
    }
  }

  /** Running alone every call ends: a set with its byte in the map and all others as they were, a get with the
      byte of the map, which stays as it is. */
  lemma {:induction false} CallAlone(d: Dim, s: State, me: nat) returns (s': State)
    requires Runs(d, s, me)
    ensures Reaches(StepOf(d, me), s, s') && me in s'.threads && s'.threads[me].pc.Done?
    ensures
      var op := s.threads[me].op;
      && s'.threads[me].op == op
      && (op.Set? ==> forall pos :: ByteOf(s', pos) == if pos == op.pos then op.val else ByteOf(s, pos))
      && (op.Get? ==> s'.threads[me].pc.result == ByteOf(s, op.pos) && forall pos :: ByteOf(s', pos) == ByteOf(s, pos))
    decreases StepsLeft(s.threads[me].pc)
  {
    var m := NextAlone(d, s, me);
    StepBytes(d, s, m, me);
    if m.threads[me].pc.Done? {
      s' := m;
      ReachesOne(StepOf(d, me), s, m);
      assert ThreadOk(d, s, s.threads[me]);
    } else {
      s' := CallAlone(d, m, me);
      ReachesMore(StepOf(d, me), s, m, s');
    }
  }
}
