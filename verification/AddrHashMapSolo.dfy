/** Operations on the bucket that run without interference: each ends, and does to the map what it was asked for. */
module AddrHashMapSolo {
  import opened Options
  import opened AddrHashMap
  import opened AddrHashMapProofs
  import opened Paths

  /** The next step of acquire or release; writing the value of a new cell is not one. */
  predicate Moves(caps: Caps, me: nat, l: Local, l': Local) {
    AcquireStep(caps, me, l, l') || (ReleaseStep(me, l, l') && l'.x.pc != l.x.pc)
  }

  function StepOf(caps: Caps, me: nat): (Local, Local) -> bool {
    (l, l') => Moves(caps, me, l, l')
  }

  /** Steps of handle me, and of nobody else, lead from l to l'. */
  ghost predicate Leads(caps: Caps, me: nat, l: Local, l': Local) {
    Reaches(StepOf(caps, me), l, l')
  }

  lemma Ends(caps: Caps, me: nat, l: Local, l': Local)
    requires Moves(caps, me, l, l')
    ensures Leads(caps, me, l, l')
  {
    ReachesOne(StepOf(caps, me), l, l');
  }

  lemma Prepend(caps: Caps, me: nat, l: Local, m: Local, l': Local)
    requires Moves(caps, me, l, m) && Leads(caps, me, m, l')
    ensures Leads(caps, me, l, l')
  {
    ReachesMore(StepOf(caps, me), l, m, l');
  }

  /** A handle alone has no choice. */
  lemma OneMove(caps: Caps, me: nat, l: Local, m: Local, m': Local)
    requires Moves(caps, me, l, m) && Moves(caps, me, l, m')
    ensures m == m'
  {}

  /** So what its steps lead to happens in every run of it alone that goes on for long enough. */
  lemma OneWay(caps: Caps, me: nat, l': Local, run: seq<Local>)
    requires IsPath(StepOf(caps, me), run) && Leads(caps, me, run[0], l')
    ensures l' in run || Leads(caps, me, run[|run| - 1], l')
  {
    var step := StepOf(caps, me);
    forall a, b, c | step(a, b) && step(a, c) ensures b == c { OneMove(caps, me, a, b, c); }
    Inevitable(step, l', run);
  }

  // ---------------------------------------------------------------- acquiring

  /** The address is in some cell. */
  ghost predicate Present(b: Bucket, addr: nat) {
    exists r :: Addr(b, r) == addr
  }

  /** How acquire ends on bucket b for handle x: at the cell of its key, locked for writing if it is to be
      removed; or, if there is none, without a cell, unless it is to be created, which leaves the map
      alone and reserves an empty cell. */
  ghost predicate Acquired(me: nat, b: Bucket, x: Handle, l': Local) {
    && l'.x == x.(pc := l'.x.pc)
    && if Present(b, x.addr) then
         && l'.b == b
         && if x.remove then l'.x.pc.Removing? && Addr(b, l'.x.pc.ref) == x.addr && l'.lock == Lock(Some(me), {})
            else || (l'.x.pc.Found? && Addr(b, Embed(l'.x.pc.i)) == x.addr && l'.lock == Lock(None, {}))
                 || (l'.x.pc.FoundAdd? && Addr(b, Added(l'.x.pc.i)) == x.addr && l'.lock == Lock(None, {me}))
       else if x.remove || !x.create then l' == Local(b, Lock(None, {}), x.(pc := Missing))
       else
         && l'.x.pc.Created? && InBucket(l'.b, l'.x.pc.ref) && Addr(l'.b, l'.x.pc.ref) == 0
         && l'.lock == Lock(Some(me), {}) && SameMap(b, l'.b)
  }

  /** A bucket nobody is changing, and a handle for a key. */
  ghost predicate Settled(l: Local) {
    ThreeCells(l.b) && CapOk(l.b) && Quiet(l.b) && l.x.addr != 0
  }

  lemma MapTrans(a: Bucket, b: Bucket, c: Bucket)
    requires SameMap(a, b) && SameMap(b, c)
    ensures SameMap(a, c)
  {}

  /** With the lock, the key absent and a creation asked for: from looking for a free cell on. */
  lemma {:induction false} CreateAlone(caps: Caps, me: nat, l: Local) returns (l': Local)
    requires GoodCaps(caps) && WriterInv(l) && Asked(l.x) && l.lock == Lock(Some(me), {}) && l.x.pc.FindFree?
    ensures Leads(caps, me, l, l') && l'.x == l.x.(pc := l'.x.pc)
    ensures l'.x.pc.Created? && InBucket(l'.b, l'.x.pc.ref) && Addr(l'.b, l'.x.pc.ref) == 0
    ensures l'.lock == l.lock && SameMap(l.b, l'.b)
    decreases BUCKET_SIZE - l.x.pc.i
  {
    var i := l.x.pc.i;
    var m := Goto(l, if Addr(l.b, Embed(i)) == 0 then Created(Embed(i))
                     else if i + 1 < BUCKET_SIZE then FindFree(i + 1) else PrepareAdd);
    assert AcquireStep(caps, me, l, m);
    WriterKeeps(caps, me, l, m);
    if m.x.pc.Created? {
      l' := m;
      Ends(caps, me, l, l');
    } else {
      if m.x.pc.FindFree? { l' := CreateAlone(caps, me, m); } else { l' := OverflowAlone(caps, me, m); }
      Prepend(caps, me, l, m, l');
    }
  }

  /** One step of a creation in the overflow array. */
  lemma OverflowStep(caps: Caps, me: nat, l: Local) returns (m: Local)
    requires GoodCaps(caps) && WriterInv(l) && Asked(l.x) && (l.x.pc.PrepareAdd? || l.x.pc.GrowAdd? || l.x.pc.StoreAdd?)
    ensures AcquireStep(caps, me, l, m) && WriterInv(m) && Asked(m.x) && m.x == l.x.(pc := m.x.pc) && m.lock == l.lock
    ensures SameMap(l.b, m.b)
    ensures m.x.pc == if l.x.pc.PrepareAdd? then GrowAdd else if l.x.pc.GrowAdd? then StoreAdd else Created(Added(Size(l.b)))
  {
    if l.x.pc.PrepareAdd? {
      m := Goto(if l.b.add.Some? then l else l.(b := l.b.(add := Some(Add(0, Empty(caps.init))))), GrowAdd);
    } else if l.x.pc.GrowAdd? {
      m := Goto(if Size(l.b) == Cap(l.b) then l.(b := Grown(l.b, caps.grow(Cap(l.b)))) else l, StoreAdd);
    } else {
      assert Addr(l.b, Added(Size(l.b))) == 0;
      m := Goto(l.(b := SetSize(l.b, Size(l.b) + 1)), Created(Added(Size(l.b))));
    }
    assert CreateStep(caps, l, m);
    WriterKeeps(caps, me, l, m);
    AcquireRefines(caps, me, l, m);
  }

  lemma OverflowAlone(caps: Caps, me: nat, l: Local) returns (l': Local)
    requires GoodCaps(caps) && WriterInv(l) && Asked(l.x) && l.lock == Lock(Some(me), {}) && l.x.pc.PrepareAdd?
    ensures Leads(caps, me, l, l') && l'.x == l.x.(pc := l'.x.pc)
    ensures l'.x.pc.Created? && InBucket(l'.b, l'.x.pc.ref) && Addr(l'.b, l'.x.pc.ref) == 0
    ensures l'.lock == l.lock && SameMap(l.b, l'.b)
  {
    var a := OverflowStep(caps, me, l);
    var b := OverflowStep(caps, me, a);
    l' := OverflowStep(caps, me, b);
    Ends(caps, me, b, l');
    Prepend(caps, me, a, b, l');
    Prepend(caps, me, l, a, l');
    MapTrans(l.b, a.b, b.b);
    MapTrans(l.b, b.b, l'.b);
  }

  /** With the lock: from looking at the cells again on. A handle that is not to remove has looked before. */
  ghost predicate Relooks(me: nat, l: Local) {
    && WriterInv(l) && Asked(l.x) && l.lock == Lock(Some(me), {}) && (l.x.pc.LockedEmbed? || l.x.pc.LockedAdd?)
    && (!l.x.remove ==> Lacks(l.b, l.x.addr))
  }

  lemma {:induction false} LockedAlone(caps: Caps, me: nat, l: Local) returns (l': Local)
    requires GoodCaps(caps) && Relooks(me, l)
    ensures Leads(caps, me, l, l') && Acquired(me, l.b, l.x, l')
    decreases if l.x.pc.LockedEmbed? then BUCKET_SIZE + 1 + Size(l.b) - l.x.pc.i
              else if l.x.pc.i <= Size(l.b) then Size(l.b) - l.x.pc.i else 0
  {
    var m := LookAgain(caps, me, l);
    if m.x.pc.LockedEmbed? || m.x.pc.LockedAdd? {
      l' := LockedAlone(caps, me, m);
      Prepend(caps, me, l, m, l');
    } else if m.x.pc.Removing? {
      l' := m;
      Ends(caps, me, l, l');
      assert Addr(l.b, m.x.pc.ref) == l.x.addr;
    } else if m.x.pc.Absent? {
      l' := Unlock(m, Missing);
      assert AcquireStep(caps, me, m, l');
      Ends(caps, me, m, l');
      Prepend(caps, me, l, m, l');
    } else {
      l' := CreateAlone(caps, me, m);
      Prepend(caps, me, l, m, l');
    }
  }

  lemma LookAgain(caps: Caps, me: nat, l: Local) returns (m: Local)
    requires GoodCaps(caps) && Relooks(me, l)
    ensures AcquireStep(caps, me, l, m) && m.b == l.b && m.lock == l.lock && m.x == l.x.(pc := m.x.pc)
    ensures WriterInv(m) && Asked(m.x)
    ensures
      || (Relooks(me, m) && (if l.x.pc.LockedEmbed? then m.x.pc == LockedAdd(0) || m.x.pc == LockedEmbed(l.x.pc.i + 1)
                             else m.x.pc == LockedAdd(l.x.pc.i + 1) && l.x.pc.i < Size(l.b)))
      || (m.x.pc.Removing? && l.x.remove)
      || ((m.x.pc.Absent? || m.x.pc.FindFree?) && Lacks(l.b, l.x.addr))
  {
    var addr := l.x.addr;
    if l.x.pc.LockedEmbed? {
      var i := l.x.pc.i;
      m := Goto(l, if CellAt(l.b, Embed(i)).addr == addr then (if l.x.remove then Removing(Embed(i)) else Retry)
                   else if i + 1 < BUCKET_SIZE then LockedEmbed(i + 1) else LockedAdd(0));
      assert !l.x.remove ==> Addr(l.b, Embed(i)) != addr;
    } else {
      var i := l.x.pc.i;
      m := Goto(l, if i < Size(l.b) then
                     (if CellAt(l.b, Added(i)).addr == addr then (if l.x.remove then Removing(Added(i)) else Retry)
                      else LockedAdd(i + 1))
                   else if l.x.remove || !l.x.create then Absent else FindFree(0));
      assert !l.x.remove ==> Addr(l.b, Added(i)) != addr;
    }
    assert LockedStep(l, m);
    WriterKeeps(caps, me, l, m);
    AskedKept(caps, me, l, m);
  }

  lemma LockAlone(caps: Caps, me: nat, l: Local) returns (l': Local)
    requires GoodCaps(caps) && Settled(l) && l.x.pc.WantLock? && l.lock == Lock(None, {})
    requires !l.x.remove ==> Lacks(l.b, l.x.addr)
    ensures Leads(caps, me, l, l') && Acquired(me, l.b, l.x, l')
  {
    var m := Goto(l.(lock := l.lock.(writer := Some(me))), LockedEmbed(0));
    assert AcquireStep(caps, me, l, m);
    l' := LockedAlone(caps, me, m);
    Prepend(caps, me, l, m, l');
  }

  /** Read-locked: from looking at the overflow cells on. */
  lemma {:induction false} ScanAlone(caps: Caps, me: nat, l: Local) returns (l': Local)
    requires GoodCaps(caps) && Settled(l) && l.x.pc.ScanAdd? && l.lock == Lock(None, {me}) && !l.x.remove
    requires LacksEmbed(l.b, l.x.addr, BUCKET_SIZE) && LacksAdded(l.b, l.x.addr, l.x.pc.i) && l.x.pc.i <= Size(l.b)
    ensures Leads(caps, me, l, l') && Acquired(me, l.b, l.x, l')
    decreases Size(l.b) - l.x.pc.i
  {
    var i := l.x.pc.i;
    if i < Size(l.b) {
      var m := Goto(l, if CellAt(l.b, Added(i)).addr == l.x.addr then FoundAdd(i) else ScanAdd(i + 1));
      assert AcquireStep(caps, me, l, m);
      if m.x.pc.FoundAdd? {
        l' := m;
        Ends(caps, me, l, l');
        assert Addr(l.b, Added(i)) == l.x.addr;
      } else {
        l' := ScanAlone(caps, me, m);
        Prepend(caps, me, l, m, l');
      }
    } else {
      NotInBucket(l.b, l.x.addr);
      var m := ReadUnlock(l, me, WantLock);
      assert m.lock == Lock(None, {});
      assert AcquireStep(caps, me, l, m);
      l' := LockAlone(caps, me, m);
      Prepend(caps, me, l, m, l');
    }
  }

  /** From the check for an overflow array on. */
  lemma CheckAlone(caps: Caps, me: nat, l: Local) returns (l': Local)
    requires GoodCaps(caps) && Settled(l) && l.x.pc.CheckAdd? && l.lock == Lock(None, {}) && !l.x.remove
    requires LacksEmbed(l.b, l.x.addr, BUCKET_SIZE)
    ensures Leads(caps, me, l, l') && Acquired(me, l.b, l.x, l')
  {
    var m := Goto(l, if l.b.add.Some? then WantRead else WantLock);
    assert AcquireStep(caps, me, l, m);
    if l.b.add.Some? {
      var s := Goto(m.(lock := m.lock.(readers := m.lock.readers + {me})), ScanAdd(0));
      assert s.lock == Lock(None, {me});
      assert AcquireStep(caps, me, m, s);
      l' := ScanAlone(caps, me, s);
      Prepend(caps, me, m, s, l');
      Prepend(caps, me, l, m, l');
    } else {
      NotInBucket(l.b, l.x.addr);
      l' := LockAlone(caps, me, m);
      Prepend(caps, me, l, m, l');
    }
  }

  /** Without a lock: from looking at the embedded cells on. */
  lemma {:induction false} ReadAlone(caps: Caps, me: nat, l: Local) returns (l': Local)
    requires GoodCaps(caps) && Settled(l) && l.x.pc.ReadEmbed? && l.lock == Lock(None, {}) && !l.x.remove
    requires l.x.pc.i < BUCKET_SIZE && LacksEmbed(l.b, l.x.addr, l.x.pc.i)
    ensures Leads(caps, me, l, l') && Acquired(me, l.b, l.x, l')
    decreases BUCKET_SIZE - l.x.pc.i
  {
    var i := l.x.pc.i;
    var m := Goto(l, if CellAt(l.b, Embed(i)).addr == l.x.addr then Found(i)
                     else if i + 1 < BUCKET_SIZE then ReadEmbed(i + 1) else CheckAdd);
    assert AcquireStep(caps, me, l, m);
    if m.x.pc.Found? {
      l' := m;
      Ends(caps, me, l, l');
      assert Addr(l.b, Embed(i)) == l.x.addr;
    } else {
      if m.x.pc.ReadEmbed? { l' := ReadAlone(caps, me, m); } else { l' := CheckAlone(caps, me, m); }
      Prepend(caps, me, l, m, l');
    }
  }

  /** Running alone, acquire ends, with the outcome the handle asked for. */
  lemma AcquireAlone(caps: Caps, me: nat, l: Local) returns (l': Local)
    requires GoodCaps(caps) && Settled(l) && l.x.pc.Start? && l.lock == Lock(None, {})
    ensures Leads(caps, me, l, l') && Acquired(me, l.b, l.x, l')
  {
    var m := Goto(l, if l.x.remove then WantLock else ReadEmbed(0));
    assert AcquireStep(caps, me, l, m);
    if l.x.remove { l' := LockAlone(caps, me, m); } else { l' := ReadAlone(caps, me, m); }
    Prepend(caps, me, l, m, l');
  }

  /** With the lock, not to remove, and with the key present because somebody created it since the first look. */
  ghost predicate FindsLate(me: nat, l: Local) {
    && WriterInv(l) && Asked(l.x) && l.lock == Lock(Some(me), {}) && (l.x.pc.LockedEmbed? || l.x.pc.LockedAdd?)
    && !l.x.remove && Present(l.b, l.x.addr)
  }

  lemma LookFinds(caps: Caps, me: nat, l: Local) returns (m: Local)
    requires GoodCaps(caps) && FindsLate(me, l)
    ensures AcquireStep(caps, me, l, m) && m.b == l.b && m.lock == l.lock && m.x == l.x.(pc := m.x.pc)
    ensures
      || m.x.pc.Retry?
      || (FindsLate(me, m) && (if l.x.pc.LockedEmbed? then m.x.pc == LockedAdd(0) || m.x.pc == LockedEmbed(l.x.pc.i + 1)
                               else m.x.pc == LockedAdd(l.x.pc.i + 1) && l.x.pc.i < Size(l.b)))
  {
    var addr, i := l.x.addr, l.x.pc.i;
    if l.x.pc.LockedEmbed? {
      m := Goto(l, if CellAt(l.b, Embed(i)).addr == addr then Retry
                   else if i + 1 < BUCKET_SIZE then LockedEmbed(i + 1) else LockedAdd(0));
    } else {
      if i >= Size(l.b) { NotInBucket(l.b, addr); }
      m := Goto(l, if CellAt(l.b, Added(i)).addr == addr then Retry else LockedAdd(i + 1));
    }
    assert LockedStep(l, m);
    WriterKeeps(caps, me, l, m);
    AskedKept(caps, me, l, m);
  }

  /** Such a handle lets the lock go, looks again from the start, and finds the key. */
  lemma {:induction false} RetryAlone(caps: Caps, me: nat, l: Local) returns (l': Local)
    requires GoodCaps(caps) && FindsLate(me, l)
    ensures Leads(caps, me, l, l') && Acquired(me, l.b, l.x, l')
    decreases if l.x.pc.LockedEmbed? then BUCKET_SIZE + 1 + Size(l.b) - l.x.pc.i
              else if l.x.pc.i <= Size(l.b) then Size(l.b) - l.x.pc.i else 0
  {
    var m := LookFinds(caps, me, l);
    if m.x.pc.Retry? {
      var r := Unlock(m, ReadEmbed(0));
      assert AcquireStep(caps, me, m, r);
      l' := ReadAlone(caps, me, r);
      Prepend(caps, me, m, r, l');
    } else {
      l' := RetryAlone(caps, me, m);
    }
    Prepend(caps, me, l, m, l');
  }

  // ---------------------------------------------------------------- releasing

  /** Holding the write lock, after the cell was published or cleared. */
  ghost predicate Tidies(me: nat, l: Local) {
    && WriterInv(l) && Asked(l.x) && l.lock == Lock(Some(me), {})
    && (l.x.pc.Zeroed? || l.x.pc.Moving? || l.x.pc.Published? || l.x.pc.Compacted? || l.x.pc.UnlockAfter?)
  }

  function StepsLeft(pc: Pc): nat {
    if pc.Zeroed? then 4 else if pc.Moving? then 3 else if pc.Published? || pc.Compacted? then 2 else 1
  }

  lemma TidyNext(me: nat, l: Local) returns (m: Local)
    requires Tidies(me, l) && !l.x.pc.UnlockAfter?
    ensures ReleaseStep(me, l, m) && Tidies(me, m) && m.x == l.x.(pc := m.x.pc) && SameMap(l.b, m.b)
    ensures StepsLeft(m.x.pc) < StepsLeft(l.x.pc)
  {
    m := TidyMove(l);
    WriterReleases(me, l, m);
    ReleaseRefines(me, l, m);
    AskedRelease(me, l, m);
  }

  lemma TidyMove(l: Local) returns (m: Local)
    requires WriterInv(l) && (l.x.pc.Zeroed? || l.x.pc.Moving? || l.x.pc.Published? || l.x.pc.Compacted?)
    ensures TidyStep(l, m) && m.lock == l.lock && m.x == l.x.(pc := m.x.pc)
    ensures m.x.pc.Moving? || m.x.pc.Published? || m.x.pc.Compacted? || m.x.pc.UnlockAfter?
    ensures StepsLeft(m.x.pc) < StepsLeft(l.x.pc)
  {
    var n := Size(l.b);
    match l.x.pc
    case Zeroed(Embed(i)) =>
      m := if n == 0 then Goto(l, UnlockAfter)
           else Goto(l.(b := SetSize(Put(l.b, Embed(i), Cell(CellAt(l.b, Embed(i)).addr, CellAt(l.b, Added(n - 1)).val)), n - 1)),
                     Moving(i));
    case Zeroed(Added(i)) =>
      m := if i == n - 1 then Goto(l.(b := SetSize(l.b, n - 1)), UnlockAfter)
           else Goto(l.(b := SetSize(Put(l.b, Added(i), CellAt(l.b, Added(n - 1))), n - 1)), Compacted(i));
    case Moving(i) =>
      m := Goto(l.(b := Put(l.b, Embed(i), CellAt(l.b, Embed(i)).(addr := CellAt(l.b, Added(n)).addr))), Published(i));
    case Published(_) => m := Goto(l.(b := ClearLast(l.b)), UnlockAfter);
    case Compacted(_) => m := Goto(l.(b := ClearLast(l.b)), UnlockAfter);
  }

  /** The bucket is left in order, unlocked, and with the map of b. */
  ghost predicate LeftWith(b: Bucket, x: Handle, l': Local) {
    l'.x == x.(pc := Released) && l'.lock == Lock(None, {}) && SameMap(b, l'.b) && Quiet(l'.b)
  }

  lemma {:induction false} TidyAlone(caps: Caps, me: nat, l: Local) returns (l': Local)
    requires Tidies(me, l)
    ensures Leads(caps, me, l, l') && LeftWith(l.b, l.x, l')
    decreases StepsLeft(l.x.pc), 1
  {
    if l.x.pc.UnlockAfter? {
      l' := Unlock(l, Released);
      assert ReleaseStep(me, l, l');
      Ends(caps, me, l, l');
    } else {
      var m := TidyNext(me, l);
      l' := TidyFrom(caps, me, l, m);
      LeftTrans(l.b, m.b, m.x, l');
    }
  }

  lemma LeftTrans(a: Bucket, b: Bucket, x: Handle, l': Local)
    requires SameMap(a, b) && LeftWith(b, x, l')
    ensures LeftWith(a, x, l')
  {
    MapTrans(a, b, l'.b);
  }

  lemma {:induction false} TidyFrom(caps: Caps, me: nat, l: Local, m: Local) returns (l': Local)
    requires Tidies(me, m) && Moves(caps, me, l, m)
    ensures Leads(caps, me, l, l') && LeftWith(m.b, m.x, l')
    decreases StepsLeft(m.x.pc), 2
  {
    l' := TidyAlone(caps, me, m);
    Prepend(caps, me, l, m, l');
  }

  /** What completing l, a creation or a removal, makes of the map. */
  ghost predicate Performed(l: Local, b: Bucket) {
    && (l.x.pc.Created? ==>
          forall q, v :: Has(b, q, v) <==> Has(l.b, q, v) || (q == l.x.addr && v == CellAt(l.b, l.x.pc.ref).val))
    && (l.x.pc.Removing? ==> forall q, v :: Has(b, q, v) <==> Has(l.b, q, v) && q != l.x.addr)
  }

  lemma PerformedLater(l: Local, m: Local, l': Local)
    requires MapStep(l, m) && LeftWith(m.b, m.x, l') && (l.x.pc.Created? ==> m.x.pc.UnlockAfter?)
    ensures Performed(l, l'.b)
  {}

  /** Running alone, release ends with nobody holding the lock: after a creation the map has the new key, after
      a removal it lacks the key, and otherwise it is as before. */
  lemma ReleaseAlone(caps: Caps, me: nat, l: Local) returns (l': Local)
    requires WriterInv(l) && Asked(l.x) && l.lock == Lock(Some(me), {}) && (l.x.pc.Created? || l.x.pc.Removing?)
    ensures Leads(caps, me, l, l') && l'.x == l.x.(pc := Released) && l'.lock == Lock(None, {}) && Quiet(l'.b)
    ensures Performed(l, l'.b)
  {
    var m := PublishOrClear(me, l);
    l' := TidyFrom(caps, me, l, m);
    PerformedLater(l, m, l');
  }

  lemma PublishOrClear(me: nat, l: Local) returns (m: Local)
    requires WriterInv(l) && Asked(l.x) && l.lock == Lock(Some(me), {}) && (l.x.pc.Created? || l.x.pc.Removing?)
    ensures ReleaseStep(me, l, m) && Tidies(me, m) && m.x == l.x.(pc := m.x.pc) && MapStep(l, m)
    ensures l.x.pc.Created? ==> m.x.pc.UnlockAfter?
  {
    var r := l.x.pc.ref;
    var c := CellAt(l.b, r);
    m := if l.x.pc.Created? then Goto(l.(b := Put(l.b, r, c.(addr := l.x.addr))), UnlockAfter)
         else Goto(l.(b := Put(l.b, r, c.(addr := 0))), Zeroed(r));
    assert UseStep(me, l, m);
    WriterReleases(me, l, m);
    ReleaseRefines(me, l, m);
    AskedRelease(me, l, m);
  }

  /** The readers leave everything as it was. */
  lemma ReadReleaseAlone(caps: Caps, me: nat, l: Local) returns (l': Local)
    requires Relies(l.b, l.x) && (l.x.pc.Found? || l.x.pc.FoundAdd? || l.x.pc.Missing?)
    ensures Leads(caps, me, l, l') && l'.x == l.x.(pc := Released) && l'.b == l.b
    ensures l'.lock == if l.x.pc.FoundAdd? then l.lock.(readers := l.lock.readers - {me}) else l.lock
  {
    l' := if l.x.pc.FoundAdd? then ReadUnlock(l, me, Released) else Goto(l, Released);
    assert UseStep(me, l, l');
    Ends(caps, me, l, l');
  }
}
