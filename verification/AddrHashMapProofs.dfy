/** What every interleaving of the bucket's steps keeps. */
module AddrHashMapProofs {
  import opened Arith
  import opened Options
  import opened AddrHashMap

  // ---------------------------------------------------------------- the invariant

  function Addr(b: Bucket, r: Ref): nat {
    CellAt(b, r).addr
  }

  /** No address is in two cells, a cell that is about to be cleared apart. */
  ghost predicate UniqueBut(b: Bucket, skip: Ref) {
    forall r, q | r != q && r != skip && q != skip && Addr(b, r) != 0 :: Addr(b, r) != Addr(b, q)
  }

  ghost predicate Unique(b: Bucket) {
    forall r, q | r != q && Addr(b, r) != 0 :: Addr(b, r) != Addr(b, q)
  }

  /** Exactly the first n overflow cells are in use. */
  ghost predicate Tight(b: Bucket, n: nat) {
    n <= Cap(b) && forall i: nat :: Addr(b, Added(i)) != 0 <==> i < n
  }

  ghost predicate Full(b: Bucket) {
    forall i | 0 <= i < BUCKET_SIZE :: Addr(b, Embed(i)) != 0
  }

  ghost predicate FullBut(b: Bucket, k: nat) {
    forall i | 0 <= i < BUCKET_SIZE && i != k :: Addr(b, Embed(i)) != 0
  }

  /** The bucket when nobody is changing it. */
  ghost predicate Quiet(b: Bucket) {
    Unique(b) && Tight(b, Size(b)) && (Size(b) > 0 ==> Full(b))
  }

  ghost predicate Lacks(b: Bucket, addr: nat) {
    forall r :: Addr(b, r) != addr
  }

  ghost predicate LacksEmbed(b: Bucket, addr: nat, n: nat) {
    forall i | 0 <= i < n :: Addr(b, Embed(i)) != addr
  }

  ghost predicate LacksAdded(b: Bucket, addr: nat, n: nat) {
    forall i | 0 <= i < n :: Addr(b, Added(i)) != addr
  }

  predicate Writes(pc: Pc) {
    pc.LockedEmbed? || pc.LockedAdd? || pc.Retry? || pc.Absent? || pc.FindFree? || pc.PrepareAdd? || pc.GrowAdd?
    || pc.StoreAdd? || pc.Created? || pc.Removing? || pc.Zeroed? || pc.Moving? || pc.Published? || pc.Compacted?
    || pc.UnlockAfter?
  }

  predicate Reads(pc: Pc) {
    pc.ScanAdd? || pc.FoundAdd?
  }

  predicate ThreeCells(b: Bucket) { |b.cells| == BUCKET_SIZE }

  /** Embedded cell i was cleared. */
  ghost predicate EmbedZeroed(b: Bucket, i: nat) {
    Unique(b) && Tight(b, Size(b)) && i < BUCKET_SIZE && Addr(b, Embed(i)) == 0 && (Size(b) > 0 ==> FullBut(b, i))
  }

  /** Overflow cell i was cleared. */
  ghost predicate AddedZeroed(b: Bucket, i: nat) {
    && Unique(b) && Full(b) && i < Size(b) <= Cap(b)
    && forall j: nat :: Addr(b, Added(j)) != 0 <==> j < Size(b) && j != i
  }

  /** The last overflow element was taken off and its value copied to embedded cell i. */
  ghost predicate Taken(b: Bucket, i: nat) {
    && Unique(b) && Tight(b, Size(b) + 1) && i < BUCKET_SIZE && Addr(b, Embed(i)) == 0 && FullBut(b, i)
    && CellAt(b, Embed(i)).val == CellAt(b, Added(Size(b))).val
  }

  /** Cell r is a copy of the overflow cell past the size, which is about to be cleared. */
  ghost predicate Duplicated(b: Bucket, r: Ref) {
    && UniqueBut(b, Added(Size(b))) && Tight(b, Size(b) + 1) && Full(b)
    && (r.Embed? ==> r.i < BUCKET_SIZE) && r != Added(Size(b))
    && CellAt(b, r) == CellAt(b, Added(Size(b)))
  }

  /** The bucket while the write lock is held, by where its holder is. */
  ghost predicate Shape(b: Bucket, x: Handle) {
    match x.pc
    case LockedEmbed(i) => Quiet(b) && i < BUCKET_SIZE && LacksEmbed(b, x.addr, i)
    case LockedAdd(i) => Quiet(b) && LacksEmbed(b, x.addr, BUCKET_SIZE) && LacksAdded(b, x.addr, i)
    case Retry => Quiet(b)
    case Absent => Quiet(b) && Lacks(b, x.addr)
    case FindFree(i) => Quiet(b) && Lacks(b, x.addr) && i < BUCKET_SIZE && LacksEmbed(b, 0, i)
    case PrepareAdd => Quiet(b) && Lacks(b, x.addr) && Full(b) && CapOk(b)
    case GrowAdd => Quiet(b) && Lacks(b, x.addr) && Full(b) && Cap(b) >= 1
    case StoreAdd => Quiet(b) && Lacks(b, x.addr) && Full(b) && Size(b) < Cap(b)
    case Created(Embed(i)) => Quiet(b) && Lacks(b, x.addr) && i < BUCKET_SIZE && Addr(b, Embed(i)) == 0
    case Created(Added(i)) => Unique(b) && Lacks(b, x.addr) && Full(b) && Size(b) == i + 1 <= Cap(b) && Tight(b, i)
    case Removing(Embed(i)) => Quiet(b) && i < BUCKET_SIZE && Addr(b, Embed(i)) == x.addr
    case Removing(Added(i)) => Quiet(b) && i < Size(b) && Addr(b, Added(i)) == x.addr
    case Zeroed(Embed(i)) => EmbedZeroed(b, i)
    case Zeroed(Added(i)) => AddedZeroed(b, i)
    case Moving(i) => Taken(b, i)
    case Published(i) => Duplicated(b, Embed(i))
    case Compacted(i) => i < Size(b) && Duplicated(b, Added(i))
    case UnlockAfter => Quiet(b)
    case _ => true
  }

  /** An overflow array has room for at least one cell. */
  predicate CapOk(b: Bucket) { b.add.Some? ==> Cap(b) >= 1 }

  /** What a handle without the write lock relies on. */
  ghost predicate Relies(b: Bucket, x: Handle) {
    match x.pc
    case ReadEmbed(i) => i < BUCKET_SIZE
    case WantRead => b.add.Some?
    case ScanAdd(i) => b.add.Some?
    case Found(i) => i < BUCKET_SIZE && Addr(b, Embed(i)) == x.addr
    case FoundAdd(i) => i < Size(b) && Addr(b, Added(i)) == x.addr
    case Crashed => false
    case _ => true
  }

  /** Where a handle can be depends on what it asked for: only removals clear cells, only creations reserve
      them, absence is reported to removals and to plain lookups, and a removal never looks without the
      write lock, as the program checks. */
  predicate Asked(x: Handle) {
    if x.pc.FindFree? || x.pc.PrepareAdd? || x.pc.GrowAdd? || x.pc.StoreAdd? || x.pc.Created? then x.create && !x.remove
    else if x.pc.Removing? || x.pc.Zeroed? || x.pc.Moving? || x.pc.Published? || x.pc.Compacted? then x.remove
    else if x.pc.Absent? || x.pc.Missing? then x.remove || !x.create
    else if x.pc.ReadEmbed? || x.pc.CheckAdd? || x.pc.WantRead? || x.pc.ScanAdd? || x.pc.Found? || x.pc.FoundAdd? || x.pc.Retry?
    then !x.remove
    else true
  }

  /** What it asked for does not change. */
  lemma AskedKept(caps: Caps, me: nat, l: Local, l': Local)
    requires Asked(l.x) && (AcquireStep(caps, me, l, l') || ReleaseStep(me, l, l'))
    ensures l'.x.addr == l.x.addr && l'.x.remove == l.x.remove && l'.x.create == l.x.create && Asked(l'.x)
  {
    if AcquireStep(caps, me, l, l') { AskedAcquire(caps, me, l, l'); } else { AskedRelease(me, l, l'); }
  }

  lemma AskedAcquire(caps: Caps, me: nat, l: Local, l': Local)
    requires Asked(l.x) && AcquireStep(caps, me, l, l')
    ensures l'.x == l.x.(pc := l'.x.pc) && Asked(l'.x)
  {}

  lemma AskedRelease(me: nat, l: Local, l': Local)
    requires Asked(l.x) && ReleaseStep(me, l, l')
    ensures l'.x == l.x.(pc := l'.x.pc) && Asked(l'.x)
  {}

  /** The lock is held by exactly the handles whose position says so. */
  ghost predicate LockOk(s: State) {
    && (s.lock.writer.Some? ==> s.lock.writer.value in s.handles && s.lock.readers == {})
    && (forall h | h in s.lock.readers :: h in s.handles)
    && (forall h | h in s.handles :: Writes(s.handles[h].pc) <==> s.lock.writer == Some(h))
    && (forall h | h in s.handles :: Reads(s.handles[h].pc) <==> h in s.lock.readers)
  }

  ghost predicate Inv(s: State) {
    && ThreeCells(s.bucket) && CapOk(s.bucket) && LockOk(s)
    && (forall h | h in s.handles :: s.handles[h].addr != 0 && Relies(s.bucket, s.handles[h]))
    && (forall h | h in s.handles :: Asked(s.handles[h]))
    && (if s.lock.writer.Some? then Shape(s.bucket, s.handles[s.lock.writer.value]) else Quiet(s.bucket))
  }

  // ---------------------------------------------------------------- cells after an update

  lemma PutCells(b: Bucket, r: Ref, c: Cell)
    requires InBucket(b, r)
    ensures forall q :: CellAt(Put(b, r, c), q) == if q == r then c else CellAt(b, q)
    ensures Size(Put(b, r, c)) == Size(b) && Cap(Put(b, r, c)) == Cap(b)
    ensures |Put(b, r, c).cells| == |b.cells| && (Put(b, r, c).add.Some? <==> b.add.Some?)
  {}

  lemma SizeCells(b: Bucket, n: nat)
    requires b.add.Some?
    ensures forall q :: CellAt(SetSize(b, n), q) == CellAt(b, q)
    ensures Size(SetSize(b, n)) == n && Cap(SetSize(b, n)) == Cap(b)
  {}

  lemma GrownCells(b: Bucket, cap: nat)
    requires b.add.Some? && cap >= Cap(b)
    ensures forall q :: CellAt(Grown(b, cap), q) == CellAt(b, q)
    ensures Size(Grown(b, cap)) == Size(b) && Cap(Grown(b, cap)) == cap
  {}

  lemma AllocCells(b: Bucket, cap: nat)
    requires b.add.None?
    ensures
      var b' := b.(add := Some(Add(0, Empty(cap))));
      (forall q :: CellAt(b', q) == CellAt(b, q)) && Size(b') == 0 && Cap(b') == cap
  {}

  /** Doubling the allocation more than doubles the number of cells, which all fit. */
  lemma GrowCapValue(cs: nat, cap: nat)
    requires cs > 0 && cap >= 1
    ensures GrowCap(cs, cap) == 2 * cap + 16 / cs
    ensures 16 + GrowCap(cs, cap) * cs <= 2 * (16 + cap * cs)
  {
    Distribute(cap, -1, cs);
    Distribute(2 * cap, -1, cs);
    MulAssoc(2, cap, cs);
    ModAddMul(16, 2 * cap - 1, cs);
    DivBounds(16, cs);
    Distribute(2 * cap, 16 / cs, cs);
  }

  /** The allocations of the program are good capacities, whatever the cell size. */
  lemma SourceCaps(cs: nat)
    requires cs > 0
    ensures GoodCaps(CapsFor(cs))
  {
    forall c: nat | c >= 1 ensures CapsFor(cs).grow(c) > c {
      GrowCapValue(cs, c);
      DivNonNeg(16, cs);
    }
  }

  /** The first cells fit their allocation exactly if one does: for larger cells the subtraction wraps. */
  lemma InitCapFits(cs: nat)
    requires cs > 0
    ensures 16 + InitCap(cs) * cs <= 64 <==> cs <= 48
  {
    if cs <= 48 {
      DivBounds(48 - cs, cs);
      Distribute((48 - cs) / cs, 1, cs);
    } else {
      MulMono(1, InitCap(cs), cs);
    }
  }

  // ---------------------------------------------------------------- steps of the lock holder

  /** Embedded cells in use stay as they are, those with address k apart. */
  ghost predicate EmbedKeeps(b: Bucket, b': Bucket, k: nat) {
    forall i | 0 <= i < BUCKET_SIZE && Addr(b, Embed(i)) != 0 && Addr(b, Embed(i)) != k ::
      CellAt(b', Embed(i)) == CellAt(b, Embed(i))
  }

  ghost predicate WriterInv(l: Local) {
    ThreeCells(l.b) && CapOk(l.b) && l.x.addr != 0 && Writes(l.x.pc) && Shape(l.b, l.x)
  }

  /** What a step of the lock holder leaves behind. */
  ghost predicate WriterLeaves(l: Local, l': Local) {
    && ThreeCells(l'.b) && CapOk(l'.b) && (l.b.add.Some? ==> l'.b.add.Some?)
    && l'.x.addr == l.x.addr && Relies(l'.b, l'.x) && !Reads(l'.x.pc)
    && EmbedKeeps(l.b, l'.b, if l.x.pc.Removing? then l.x.addr else 0)
    && (if Writes(l'.x.pc) then l'.lock == l.lock && Shape(l'.b, l'.x)
        else l'.lock == l.lock.(writer := None) && Quiet(l'.b))
  }

  lemma LookupKeeps(l: Local, l': Local)
    requires WriterInv(l) && LockedStep(l, l')
    requires l.x.pc.LockedEmbed? || l.x.pc.LockedAdd?
    ensures WriterLeaves(l, l')
  {
    assert l'.b == l.b;
    if l.x.pc.LockedAdd? && l.x.pc.i >= Size(l.b) { NotInBucket(l.b, l.x.addr); }
  }

  lemma FindKeeps(caps: Caps, me: nat, l: Local, l': Local)
    requires GoodCaps(caps) && WriterInv(l) && AcquireStep(caps, me, l, l')
    requires l.x.pc.Retry? || l.x.pc.Absent? || l.x.pc.FindFree?
    ensures WriterLeaves(l, l')
  {
    assert l'.b == l.b;
  }

  /** An address found in none of the cells in use is in no cell. */
  lemma NotInBucket(b: Bucket, addr: nat)
    requires ThreeCells(b) && addr != 0 && Tight(b, Size(b))
    requires LacksEmbed(b, addr, BUCKET_SIZE) && LacksAdded(b, addr, Size(b))
    ensures Lacks(b, addr)
  {
    forall r ensures Addr(b, r) != addr {
      match r
      case Embed(i) => if i < BUCKET_SIZE { assert Addr(b, Embed(i)) != addr; }
      case Added(i) => if i < Size(b) { assert Addr(b, Added(i)) != addr; }
    }
  }

  /** The shape only depends on what the cells hold. */
  lemma SameCells(b: Bucket, b': Bucket, addr: nat)
    requires Quiet(b) && Lacks(b, addr) && Full(b) && Size(b') == Size(b) && Cap(b') >= Cap(b)
    requires forall q :: CellAt(b', q) == CellAt(b, q)
    ensures Quiet(b') && Lacks(b', addr) && Full(b')
  {
    assert forall q :: Addr(b', q) == Addr(b, q);
  }

  lemma PrepareKeeps(caps: Caps, l: Local, l': Local)
    requires GoodCaps(caps) && WriterInv(l) && CreateStep(caps, l, l') && l.x.pc.PrepareAdd?
    ensures WriterLeaves(l, l')
  {
    if l.b.add.None? { AllocCells(l.b, caps.init); }
    SameCells(l.b, l'.b, l.x.addr);
  }

  lemma GrowKeeps(caps: Caps, l: Local, l': Local)
    requires GoodCaps(caps) && WriterInv(l) && CreateStep(caps, l, l') && l.x.pc.GrowAdd?
    ensures WriterLeaves(l, l')
  {
    if Size(l.b) == Cap(l.b) {
      GrownCells(l.b, caps.grow(Cap(l.b)));
    }
    SameCells(l.b, l'.b, l.x.addr);
  }

  lemma StoreKeeps(caps: Caps, l: Local, l': Local)
    requires GoodCaps(caps) && WriterInv(l) && CreateStep(caps, l, l') && l.x.pc.StoreAdd?
    ensures WriterLeaves(l, l')
  {
    assert Addr(l.b, Added(Size(l.b))) == 0;
    SizeCells(l.b, Size(l.b) + 1);
    assert forall q :: Addr(l'.b, q) == Addr(l.b, q);
  }

  lemma CreateKeeps(me: nat, l: Local, l': Local)
    requires WriterInv(l) && UseStep(me, l, l') && l.x.pc.Created?
    ensures WriterLeaves(l, l')
  {
    var r := l.x.pc.ref;
    var c := CellAt(l.b, r);
    assert c.addr == 0;
    if l'.x.pc.Created? {
      PutCells(l.b, r, c.(val := CellAt(l'.b, r).val));
      assert forall q :: Addr(l'.b, q) == Addr(l.b, q);
    } else {
      PutCells(l.b, r, c.(addr := l.x.addr));
      assert forall q :: Addr(l'.b, q) == if q == r then l.x.addr else Addr(l.b, q);
    }
  }

  lemma RemoveKeeps(me: nat, l: Local, l': Local)
    requires WriterInv(l) && UseStep(me, l, l') && l.x.pc.Removing?
    ensures WriterLeaves(l, l')
  {
    var r := l.x.pc.ref;
    PutCells(l.b, r, CellAt(l.b, r).(addr := 0));
    assert forall q :: Addr(l'.b, q) == if q == r then 0 else Addr(l.b, q);
    if r.Added? { assert Addr(l.b, r) != 0; }
  }

  /** The part of WriterLeaves about the bucket. */
  ghost predicate BucketKeeps(b: Bucket, b': Bucket) {
    ThreeCells(b') && CapOk(b') && b'.add.Some? && EmbedKeeps(b, b', 0)
  }

  lemma TakeBucket(b: Bucket, i: nat)
    requires ThreeCells(b) && CapOk(b) && EmbedZeroed(b, i) && Size(b) > 0
    ensures
      var last := Size(b) - 1;
      var b' := SetSize(Put(b, Embed(i), Cell(0, CellAt(b, Added(last)).val)), last);
      BucketKeeps(b, b') && Taken(b', i)
  {
    var last := Size(b) - 1;
    var c := Cell(0, CellAt(b, Added(last)).val);
    PutCells(b, Embed(i), c);
    SizeCells(Put(b, Embed(i), c), last);
    var b' := SetSize(Put(b, Embed(i), c), last);
    assert forall q :: Addr(b', q) == Addr(b, q);
  }

  lemma TakeKeeps(l: Local, l': Local)
    requires WriterInv(l) && TidyStep(l, l') && l.x.pc.Zeroed? && l.x.pc.ref.Embed?
    ensures WriterLeaves(l, l')
  {
    if Size(l.b) > 0 { TakeBucket(l.b, l.x.pc.ref.i); }
  }

  /** Copying an address to an unused cell duplicates that address alone. */
  lemma CopyUnique(b: Bucket, b': Bucket, from: Ref, to: Ref)
    requires Unique(b) && Addr(b, from) != 0 && Addr(b, to) == 0
    requires forall q :: Addr(b', q) == if q == to then Addr(b, from) else Addr(b, q)
    ensures UniqueBut(b', from)
  {}

  lemma PublishBucket(b: Bucket, i: nat)
    requires ThreeCells(b) && CapOk(b) && Taken(b, i)
    ensures
      var b' := Put(b, Embed(i), CellAt(b, Embed(i)).(addr := Addr(b, Added(Size(b)))));
      BucketKeeps(b, b') && Duplicated(b', Embed(i))
  {
    var n := Size(b);
    var c := CellAt(b, Embed(i)).(addr := Addr(b, Added(n)));
    PutCells(b, Embed(i), c);
    var b' := Put(b, Embed(i), c);
    assert forall q :: Addr(b', q) == if q == Embed(i) then Addr(b, Added(n)) else Addr(b, q);
    CopyUnique(b, b', Added(n), Embed(i));
  }

  lemma PublishKeeps(l: Local, l': Local)
    requires WriterInv(l) && TidyStep(l, l') && l.x.pc.Moving?
    ensures WriterLeaves(l, l')
  {
    PublishBucket(l.b, l.x.pc.i);
  }

  /** Clearing the cell past the size leaves the rest in order. */
  lemma ClearKeeps(b: Bucket)
    requires UniqueBut(b, Added(Size(b))) && Tight(b, Size(b) + 1) && Full(b) && ThreeCells(b) && CapOk(b)
    ensures BucketKeeps(b, ClearLast(b)) && Quiet(ClearLast(b))
  {
    var n := Size(b);
    var b' := ClearLast(b);
    PutCells(b, Added(n), CellAt(b, Added(n)).(addr := 0));
    assert forall q :: Addr(b', q) == if q == Added(n) then 0 else Addr(b, q);
  }

  lemma DropLastBucket(b: Bucket)
    requires ThreeCells(b) && CapOk(b) && Size(b) > 0 && AddedZeroed(b, Size(b) - 1)
    ensures BucketKeeps(b, SetSize(b, Size(b) - 1)) && Quiet(SetSize(b, Size(b) - 1))
  {
    var b' := SetSize(b, Size(b) - 1);
    SizeCells(b, Size(b) - 1);
    assert forall q :: Addr(b', q) == Addr(b, q);
  }

  lemma CompactBucket(b: Bucket, i: nat)
    requires ThreeCells(b) && CapOk(b) && AddedZeroed(b, i) && i < Size(b) - 1
    ensures
      var last := Size(b) - 1;
      var b' := SetSize(Put(b, Added(i), CellAt(b, Added(last))), last);
      BucketKeeps(b, b') && Size(b') == last && Duplicated(b', Added(i))
  {
    var last := Size(b) - 1;
    var c := CellAt(b, Added(last));
    PutCells(b, Added(i), c);
    SizeCells(Put(b, Added(i), c), last);
    var b' := SetSize(Put(b, Added(i), c), last);
    assert forall q :: Addr(b', q) == if q == Added(i) then c.addr else Addr(b, q);
    CopyUnique(b, b', Added(last), Added(i));
  }

  lemma DropKeeps(l: Local, l': Local)
    requires WriterInv(l) && TidyStep(l, l') && l.x.pc.Zeroed? && l.x.pc.ref.Added? && l.x.pc.ref.i == Size(l.b) - 1
    ensures WriterLeaves(l, l')
  {
    DropLastBucket(l.b);
    DropLeaves(l, l', Size(l.b) - 1);
  }

  lemma CompactKeeps(l: Local, l': Local)
    requires WriterInv(l) && TidyStep(l, l') && l.x.pc.Zeroed? && l.x.pc.ref.Added? && l.x.pc.ref.i != Size(l.b) - 1
    ensures WriterLeaves(l, l')
  {
    CompactBucket(l.b, l.x.pc.ref.i);
    CompactLeaves(l, l', l.x.pc.ref.i, Size(l.b) - 1);
  }

  lemma DropLeaves(l: Local, l': Local, last: nat)
    requires l.b.add.Some? && l' == Goto(l.(b := SetSize(l.b, last)), UnlockAfter)
    requires BucketKeeps(l.b, l'.b) && Quiet(l'.b) && !l.x.pc.Removing?
    ensures WriterLeaves(l, l')
  {}

  lemma CompactLeaves(l: Local, l': Local, i: nat, last: nat)
    requires InBucket(l.b, Added(i))
    requires l' == Goto(l.(b := SetSize(Put(l.b, Added(i), CellAt(l.b, Added(last))), last)), Compacted(i))
    requires BucketKeeps(l.b, l'.b) && i < Size(l'.b) && Duplicated(l'.b, Added(i)) && !l.x.pc.Removing?
    ensures WriterLeaves(l, l')
  {}

  lemma FinishKeeps(me: nat, l: Local, l': Local)
    requires WriterInv(l) && ReleaseStep(me, l, l') && (l.x.pc.Published? || l.x.pc.Compacted? || l.x.pc.UnlockAfter?)
    ensures WriterLeaves(l, l')
  {
    if !l.x.pc.UnlockAfter? { ClearKeeps(l.b); }
  }

  lemma WriterAcquires(caps: Caps, me: nat, l: Local, l': Local)
    requires GoodCaps(caps) && WriterInv(l) && AcquireStep(caps, me, l, l')
    ensures WriterLeaves(l, l')
  {
    if l.x.pc.PrepareAdd? {
      PrepareKeeps(caps, l, l');
    } else if l.x.pc.GrowAdd? {
      GrowKeeps(caps, l, l');
    } else if l.x.pc.StoreAdd? {
      StoreKeeps(caps, l, l');
    } else if l.x.pc.LockedEmbed? || l.x.pc.LockedAdd? {
      LookupKeeps(l, l');
    } else {
      FindKeeps(caps, me, l, l');
    }
  }

  lemma WriterReleases(me: nat, l: Local, l': Local)
    requires WriterInv(l) && ReleaseStep(me, l, l')
    ensures WriterLeaves(l, l')
  {
    if l.x.pc.Created? {
      CreateKeeps(me, l, l');
    } else if l.x.pc.Removing? {
      RemoveKeeps(me, l, l');
    } else if l.x.pc.Moving? {
      PublishKeeps(l, l');
    } else if l.x.pc.Zeroed? {
      if l.x.pc.ref.Embed? {
        TakeKeeps(l, l');
      } else if l.x.pc.ref.i == Size(l.b) - 1 {
        DropKeeps(l, l');
      } else {
        CompactKeeps(l, l');
      }
    } else {
      FinishKeeps(me, l, l');
    }
  }

  /** Every step of the lock holder. */
  lemma WriterKeeps(caps: Caps, me: nat, l: Local, l': Local)
    requires GoodCaps(caps) && WriterInv(l) && (AcquireStep(caps, me, l, l') || ReleaseStep(me, l, l'))
    ensures WriterLeaves(l, l')
  {
    if AcquireStep(caps, me, l, l') { WriterAcquires(caps, me, l, l'); } else { WriterReleases(me, l, l'); }
  }

  // ---------------------------------------------------------------- steps of the others

  /** A step without the write lock changes neither cells nor sizes; it may take or drop a lock. */
  lemma OthersKeep(caps: Caps, me: nat, l: Local, l': Local)
    requires GoodCaps(caps) && ThreeCells(l.b) && l.x.addr != 0 && !Writes(l.x.pc) && Relies(l.b, l.x)
    requires AcquireStep(caps, me, l, l') || ReleaseStep(me, l, l')
    requires Reads(l.x.pc) <==> me in l.lock.readers
    ensures l'.b == l.b && l'.x.addr == l.x.addr && Relies(l'.b, l'.x)
    ensures Writes(l'.x.pc) ==> l.lock == Lock(None, {}) && l'.lock == Lock(Some(me), {})
                                && l'.x.pc == LockedEmbed(0)
    ensures !Writes(l'.x.pc) ==> l'.lock.writer == l.lock.writer
                                 && l'.lock.readers == if Reads(l'.x.pc) then l.lock.readers + {me} else l.lock.readers - {me}
    ensures Reads(l'.x.pc) && !Reads(l.x.pc) ==> l.lock.writer.None?
  {}

  /** A handle that does not hold a lock on the overflow array survives the lock holder's steps. */
  lemma RelyKept(l: Local, l': Local, y: Handle)
    requires WriterLeaves(l, l') && Relies(l.b, y) && !Reads(y.pc) && y.addr != 0
    requires l.x.pc.Removing? && y.pc.Found? ==> y.addr != l.x.addr
    ensures Relies(l'.b, y)
  {}

  // ---------------------------------------------------------------- whole runs

  lemma InitInv(s: State)
    requires Init(s)
    ensures Inv(s)
  {
    assert forall r :: Addr(s.bucket, r) == 0;
  }

  lemma OpenKeepsInv(s: State, s': State, me: nat)
    requires Inv(s) && Opens(s, s', me)
    ensures Inv(s')
  {}

  function View(s: State, me: nat): Local
    requires me in s.handles
  {
    Local(s.bucket, s.lock, s.handles[me])
  }

  /** A step with the write lock. */
  lemma WriterStepInv(caps: Caps, s: State, s': State, me: nat)
    requires GoodCaps(caps) && Inv(s) && StepBy(caps, s, s', me) && Writes(s.handles[me].pc)
    ensures Inv(s')
  {
    var l, l' := View(s, me), View(s', me);
    WriterKeeps(caps, me, l, l');
    AskedKept(caps, me, l, l');
    forall h | h in s'.handles ensures s'.handles[h].addr != 0 && Relies(s'.bucket, s'.handles[h]) {
      if h != me {
        assert s'.handles[h] == s.handles[h];
        RelyKept(l, l', s.handles[h]);
      }
    }
  }

  /** A step without it. */
  lemma OtherStepInv(caps: Caps, s: State, s': State, me: nat)
    requires GoodCaps(caps) && Inv(s) && StepBy(caps, s, s', me) && !Writes(s.handles[me].pc)
    ensures Inv(s')
  {
    var l, l' := View(s, me), View(s', me);
    OthersKeep(caps, me, l, l');
    AskedKept(caps, me, l, l');
    if s'.lock.writer.Some? && s.lock.writer.Some? {
      assert s'.handles[s'.lock.writer.value] == s.handles[s.lock.writer.value];
    }
  }

  lemma NextKeepsInv(caps: Caps, s: State, s': State)
    requires GoodCaps(caps) && Inv(s) && Next(caps, s, s')
    ensures Inv(s')
  {
    var me: nat :| StepBy(caps, s, s', me) || Opens(s, s', me);
    if Opens(s, s', me) {
      OpenKeepsInv(s, s', me);
    } else if Writes(s.handles[me].pc) {
      WriterStepInv(caps, s, s', me);
    } else {
      OtherStepInv(caps, s, s', me);
    }
  }

  lemma {:induction false} RunInv(caps: Caps, run: seq<State>, k: nat)
    requires GoodCaps(caps) && IsRun(caps, run) && k < |run|
    ensures Inv(run[k])
    decreases k
  {
    if k == 0 {
      InitInv(run[0]);
    } else {
      RunInv(caps, run, k - 1);
      assert NextAt(caps, run, k);
      NextKeepsInv(caps, run[k - 1], run[k]);
    }
  }

  /** In every interleaving: no check ever fails, and whenever the bucket is not write-locked no address
      is in two cells, the overflow cells below the size are in use and the others empty, and the
      overflow array is only in use when the embedded cells are full. */
  lemma RunSafe(caps: Caps, run: seq<State>, k: nat)
    requires GoodCaps(caps) && IsRun(caps, run) && k < |run|
    ensures forall h | h in run[k].handles :: !run[k].handles[h].pc.Crashed?
    ensures run[k].lock.writer.None? ==> Quiet(run[k].bucket)
    ensures |run[k].bucket.cells| == 3
    ensures run[k].lock.writer.None? && Size(run[k].bucket) > 0 ==>
              forall i | 0 <= i < 3 :: run[k].bucket.cells[i].addr != 0
  {
    RunInv(caps, run, k);
    assert run[k].lock.writer.None? && Size(run[k].bucket) > 0 ==>
             forall i | 0 <= i < 3 :: Addr(run[k].bucket, Embed(i)) == run[k].bucket.cells[i].addr;
  }

  /** A handle reports absence only if it was to remove or not to create, and at an instant when the address
      is in no cell. */
  lemma AbsenceIsTrue(caps: Caps, run: seq<State>, k: nat, me: nat)
    requires GoodCaps(caps) && IsRun(caps, run) && 0 < k < |run|
    requires me in run[k - 1].handles && me in run[k].handles
    requires !run[k - 1].handles[me].pc.Missing? && run[k].handles[me].pc.Missing?
    ensures Lacks(run[k].bucket, run[k].handles[me].addr) && Lacks(run[k - 1].bucket, run[k].handles[me].addr)
    ensures run[k].handles[me].remove || !run[k].handles[me].create
  {
    RunInv(caps, run, k - 1);
    RunInv(caps, run, k);
    assert NextAt(caps, run, k);
    Mover(caps, run[k - 1], run[k], me);
    AbsentBefore(caps, me, View(run[k - 1], me), View(run[k], me));
  }

  /** A handle only changes by its own step or by being opened again. */
  lemma Mover(caps: Caps, s: State, s': State, me: nat)
    requires GoodCaps(caps) && Next(caps, s, s') && me in s.handles && me in s'.handles
    requires s'.handles[me] != s.handles[me] && !s'.handles[me].pc.Start?
    ensures StepBy(caps, s, s', me)
  {}

  lemma AbsentBefore(caps: Caps, me: nat, l: Local, l': Local)
    requires GoodCaps(caps) && (AcquireStep(caps, me, l, l') || ReleaseStep(me, l, l'))
    requires !l.x.pc.Missing? && l'.x.pc.Missing?
    ensures l.x.pc.Absent? && l'.b == l.b && l'.x.addr == l.x.addr
  {}

  // ---------------------------------------------------------------- the map it implements

  /** The bucket maps k to v. */
  ghost predicate Has(b: Bucket, k: nat, v: int) {
    k != 0 && exists r :: CellAt(b, r) == Cell(k, v)
  }

  ghost predicate SameMap(b: Bucket, b': Bucket) {
    forall k, v :: Has(b, k, v) <==> Has(b', k, v)
  }

  /** A key has at most one value, also while an element is being moved. */
  lemma Functional(s: State, k: nat, v: int, u: int)
    requires Inv(s) && Has(s.bucket, k, v) && Has(s.bucket, k, u)
    ensures v == u
  {
    if s.lock.writer.Some? {
      var x := s.handles[s.lock.writer.value];
      if x.pc.Published? {
        OneValueBut(s.bucket, Embed(x.pc.i), k, v, u);
      } else if x.pc.Compacted? {
        OneValueBut(s.bucket, Added(x.pc.i), k, v, u);
      } else {
        OneValue(s.bucket, k, v, u);
      }
    } else {
      OneValue(s.bucket, k, v, u);
    }
  }

  lemma OneValue(b: Bucket, k: nat, v: int, u: int)
    requires Unique(b) && Has(b, k, v) && Has(b, k, u)
    ensures v == u
  {
    var r, q :| CellAt(b, r) == Cell(k, v) && CellAt(b, q) == Cell(k, u);
    assert Addr(b, r) == Addr(b, q) == k;
  }

  lemma OneValueBut(b: Bucket, copy: Ref, k: nat, v: int, u: int)
    requires Duplicated(b, copy) && Has(b, k, v) && Has(b, k, u)
    ensures v == u
  {
    var last := Added(Size(b));
    var r, q :| CellAt(b, r) == Cell(k, v) && CellAt(b, q) == Cell(k, u);
    var r', q' := if r == last then copy else r, if q == last then copy else q;
    assert Addr(b, r') == Addr(b, q') == k;
  }

  /** Overwriting a cell that holds nothing, or holds what another cell holds, with something that is
      nothing or is elsewhere too. */
  lemma MapKept(b: Bucket, b': Bucket, r: Ref, other: Ref)
    requires r != other && forall q :: q != r ==> CellAt(b', q) == CellAt(b, q)
    requires Addr(b, r) == 0 || CellAt(b, r) == CellAt(b, other)
    requires Addr(b', r) == 0 || CellAt(b', r) == CellAt(b', other)
    ensures SameMap(b, b')
  {
    forall k, v ensures Has(b, k, v) <==> Has(b', k, v) {
      if Has(b, k, v) {
        var q :| CellAt(b, q) == Cell(k, v);
        var p := if q == r then other else q;
        assert CellAt(b', p) == Cell(k, v);
      }
      if Has(b', k, v) {
        var q :| CellAt(b', q) == Cell(k, v);
        var p := if q == r then other else q;
        assert CellAt(b, p) == Cell(k, v);
      }
    }
  }

  lemma SameCellsSameMap(b: Bucket, b': Bucket)
    requires forall q :: CellAt(b', q) == CellAt(b, q)
    ensures SameMap(b, b')
  {
    forall k, v ensures Has(b, k, v) <==> Has(b', k, v) {
      if Has(b, k, v) { var q :| CellAt(b, q) == Cell(k, v); assert CellAt(b', q) == Cell(k, v); }
      if Has(b', k, v) { var q :| CellAt(b', q) == Cell(k, v); assert CellAt(b, q) == Cell(k, v); }
    }
  }

  /** The operation on the map that a step performs: completing a creation, by a handle that asked for one,
      adds a key that was absent; clearing the cell of a removal, by a handle that asked for that, drops
      its key; and nothing else changes the map, however many steps an element takes to move. */
  ghost predicate MapStep(l: Local, l': Local) {
    var addr := l.x.addr;
    if l.x.pc.Created? && l'.x.pc.UnlockAfter? then
      && l.x.create && !l.x.remove && Lacks(l.b, addr)
      && forall k, v :: Has(l'.b, k, v) <==> Has(l.b, k, v) || (k == addr && v == CellAt(l.b, l.x.pc.ref).val)
    else if l.x.pc.Removing? then
      && l.x.remove && (exists v :: Has(l.b, addr, v))
      && forall k, v :: Has(l'.b, k, v) <==> Has(l.b, k, v) && k != addr
    else SameMap(l.b, l'.b)
  }

  lemma CreateRefines(me: nat, l: Local, l': Local)
    requires WriterInv(l) && Asked(l.x) && UseStep(me, l, l') && l.x.pc.Created?
    ensures MapStep(l, l')
  {
    var r := l.x.pc.ref;
    var c := CellAt(l.b, r);
    assert c.addr == 0;
    var c' := if l'.x.pc.Created? then c.(val := CellAt(l'.b, r).val) else c.(addr := l.x.addr);
    PutCells(l.b, r, c');
    forall k, v ensures Has(l'.b, k, v) <==> Has(l.b, k, v) || (k != 0 && c' == Cell(k, v)) {
      if Has(l.b, k, v) { var q :| CellAt(l.b, q) == Cell(k, v); assert CellAt(l'.b, q) == Cell(k, v); }
      if Has(l'.b, k, v) {
        var q :| CellAt(l'.b, q) == Cell(k, v);
        if q != r { assert CellAt(l.b, q) == Cell(k, v); }
      }
      if c' == Cell(k, v) { assert CellAt(l'.b, r) == Cell(k, v); }
    }
  }

  lemma RemoveRefines(me: nat, l: Local, l': Local)
    requires WriterInv(l) && Asked(l.x) && UseStep(me, l, l') && l.x.pc.Removing?
    ensures MapStep(l, l')
  {
    var r := l.x.pc.ref;
    var c := CellAt(l.b, r);
    assert Has(l.b, l.x.addr, c.val) by { assert c == Cell(l.x.addr, c.val); }
    PutCells(l.b, r, c.(addr := 0));
    forall k, v ensures Has(l'.b, k, v) <==> Has(l.b, k, v) && k != l.x.addr {
      if Has(l.b, k, v) && k != l.x.addr {
        var q :| CellAt(l.b, q) == Cell(k, v);
        assert CellAt(l'.b, q) == Cell(k, v);
      }
      if Has(l'.b, k, v) {
        var q :| CellAt(l'.b, q) == Cell(k, v);
        assert q != r && CellAt(l.b, q) == Cell(k, v);
        assert Addr(l.b, q) != Addr(l.b, r);
      }
    }
  }

  lemma TakeRefines(l: Local, l': Local)
    requires WriterInv(l) && TidyStep(l, l') && l.x.pc.Zeroed? && l.x.pc.ref.Embed?
    ensures SameMap(l.b, l'.b)
  {
    if Size(l.b) > 0 {
      var r, last := l.x.pc.ref, Size(l.b) - 1;
      var c := Cell(0, CellAt(l.b, Added(last)).val);
      PutCells(l.b, r, c);
      SizeCells(Put(l.b, r, c), last);
      MapKept(l.b, l'.b, r, Added(last));
    }
  }

  lemma PublishRefines(l: Local, l': Local)
    requires WriterInv(l) && TidyStep(l, l') && l.x.pc.Moving?
    ensures SameMap(l.b, l'.b)
  {
    var r, last := Embed(l.x.pc.i), Added(Size(l.b));
    PutCells(l.b, r, CellAt(l.b, r).(addr := Addr(l.b, last)));
    MapKept(l.b, l'.b, r, last);
  }

  lemma CompactRefines(l: Local, l': Local)
    requires WriterInv(l) && TidyStep(l, l') && l.x.pc.Zeroed? && l.x.pc.ref.Added?
    ensures SameMap(l.b, l'.b)
  {
    var r, last := l.x.pc.ref, Size(l.b) - 1;
    if r.i == last {
      SizeCells(l.b, last);
      SameCellsSameMap(l.b, l'.b);
    } else {
      var c := CellAt(l.b, Added(last));
      PutCells(l.b, r, c);
      SizeCells(Put(l.b, r, c), last);
      assert Addr(l.b, r) == 0;
      MapKept(l.b, l'.b, r, Added(last));
    }
  }

  lemma ClearRefines(l: Local, l': Local)
    requires WriterInv(l) && TidyStep(l, l') && (l.x.pc.Published? || l.x.pc.Compacted?)
    ensures SameMap(l.b, l'.b)
  {
    var last := Added(Size(l.b));
    PutCells(l.b, last, CellAt(l.b, last).(addr := 0));
    MapKept(l.b, l'.b, last, if l.x.pc.Published? then Embed(l.x.pc.i) else Added(l.x.pc.i));
  }

  lemma AcquireRefines(caps: Caps, me: nat, l: Local, l': Local)
    requires GoodCaps(caps) && AcquireStep(caps, me, l, l') && (l.x.pc.GrowAdd? ==> WriterInv(l))
    ensures MapStep(l, l')
  {
    if l.x.pc.PrepareAdd? && l.b.add.None? {
      AllocCells(l.b, caps.init);
    } else if l.x.pc.GrowAdd? && Size(l.b) == Cap(l.b) {
      GrownCells(l.b, caps.grow(Cap(l.b)));
    } else if l.x.pc.StoreAdd? {
      SizeCells(l.b, Size(l.b) + 1);
    }
    SameCellsSameMap(l.b, l'.b);
  }

  lemma ReleaseRefines(me: nat, l: Local, l': Local)
    requires ReleaseStep(me, l, l') && (Writes(l.x.pc) ==> WriterInv(l)) && Asked(l.x)
    ensures MapStep(l, l')
  {
    if l.x.pc.Created? {
      CreateRefines(me, l, l');
    } else if l.x.pc.Removing? {
      RemoveRefines(me, l, l');
    } else if l.x.pc.Moving? {
      PublishRefines(l, l');
    } else if l.x.pc.Zeroed? {
      if l.x.pc.ref.Embed? { TakeRefines(l, l'); } else { CompactRefines(l, l'); }
    } else if l.x.pc.Published? || l.x.pc.Compacted? {
      ClearRefines(l, l');
    } else {
      assert l'.b == l.b;
    }
  }

  /** Every step of every run is one operation of a map, or none. */
  lemma StepRefinesMap(caps: Caps, s: State, s': State, me: nat)
    requires GoodCaps(caps) && Inv(s) && StepBy(caps, s, s', me)
    ensures MapStep(View(s, me), View(s', me))
  {
    var l, l' := View(s, me), View(s', me);
    if AcquireStep(caps, me, l, l') { AcquireRefines(caps, me, l, l'); } else { ReleaseRefines(me, l, l'); }
  }

  /** A live read handle refers to the cell that holds its key. */
  lemma ReaderSeesMap(s: State, h: nat)
    requires Inv(s) && h in s.handles
    ensures s.handles[h].pc.Found? ==> Has(s.bucket, s.handles[h].addr, CellAt(s.bucket, Embed(s.handles[h].pc.i)).val)
    ensures s.handles[h].pc.FoundAdd? ==> Has(s.bucket, s.handles[h].addr, CellAt(s.bucket, Added(s.handles[h].pc.i)).val)
  {
    var x := s.handles[h];
    if x.pc.Found? {
      assert CellAt(s.bucket, Embed(x.pc.i)) == Cell(x.addr, CellAt(s.bucket, Embed(x.pc.i)).val);
    } else if x.pc.FoundAdd? {
      assert CellAt(s.bucket, Added(x.pc.i)) == Cell(x.addr, CellAt(s.bucket, Added(x.pc.i)).val);
    }
  }

  /** Nobody else's step changes the cell of a live read handle, its value included. */
  lemma ReaderUndisturbed(caps: Caps, s: State, s': State, me: nat, h: nat)
    requires GoodCaps(caps) && Inv(s) && StepBy(caps, s, s', me) && h in s.handles && h != me
    ensures s.handles[h].pc.Found? ==>
              CellAt(s'.bucket, Embed(s.handles[h].pc.i)) == CellAt(s.bucket, Embed(s.handles[h].pc.i))
    ensures s.handles[h].pc.FoundAdd? ==>
              CellAt(s'.bucket, Added(s.handles[h].pc.i)) == CellAt(s.bucket, Added(s.handles[h].pc.i))
  {
    var l, l' := View(s, me), View(s', me);
    assert Relies(s.bucket, s.handles[h]) && s.handles[h].addr != 0;
    if Writes(l.x.pc) { WriterKeeps(caps, me, l, l'); } else { OthersKeep(caps, me, l, l'); }
  }

  /** No handle waits for anything but a lock or, when removing, for the readers of its key: the cells
      it is about to touch exist. */
  lemma CellsExist(s: State, h: nat)
    requires Inv(s) && h in s.handles
    ensures
      var x, b := s.handles[h], s.bucket;
      && (x.pc.Created? || x.pc.Removing? || x.pc.Zeroed? ==> InBucket(b, x.pc.ref))
      && (x.pc.Moving? ==> InBucket(b, Embed(x.pc.i)) && InBucket(b, Added(Size(b))))
      && (x.pc.Published? || x.pc.Compacted? ==> InBucket(b, Added(Size(b))))
      && (x.pc.Zeroed? && x.pc.ref.Added? ==> Size(b) > 0)
      && (x.pc.GrowAdd? || x.pc.StoreAdd? ==> b.add.Some? && Cap(b) >= 1)
  {
    if Writes(s.handles[h].pc) { assert Shape(s.bucket, s.handles[h]); }
  }

  /** The rule for removals is needed: clearing the cell under a live reader of the key makes the
      reader's release fail its check. */
  lemma OvertakenReaderCrashes(me: nat, l: Local, l': Local, h: nat, y: Handle, after: Local)
    requires WriterInv(l) && UseStep(me, l, l') && l.x.pc.Removing?
    requires Relies(l.b, y) && y.pc.Found? && y.addr == l.x.addr
    requires ReleaseStep(h, Local(l'.b, l'.lock, y), after)
    ensures after.x.pc.Crashed?
  {
    var r := l.x.pc.ref;
    PutCells(l.b, r, CellAt(l.b, r).(addr := 0));
    assert Addr(l.b, r) == Addr(l.b, Embed(y.pc.i)) == y.addr != 0;
    assert r == Embed(y.pc.i);
  }

  /** Some handle clears the cell of key k in this step. */
  ghost predicate Removes(s: State, s': State, k: nat) {
    exists me :: me in s.handles && me in s'.handles && s.handles[me].addr == k
                 && s.handles[me].pc.Removing? && s'.handles[me].pc.Zeroed?
  }

  ghost predicate RemovedAt(run: seq<State>, t: nat, k: nat)
    requires 0 < t < |run|
  {
    Removes(run[t - 1], run[t], k)
  }

  /** Over any stretch of any run a key keeps its value until it is removed. */
  lemma {:induction false} KeyPersists(caps: Caps, run: seq<State>, i: nat, j: nat, k: nat, v: int)
    requires GoodCaps(caps) && IsRun(caps, run) && i <= j < |run| && Has(run[i].bucket, k, v)
    requires forall t | i < t <= j :: !RemovedAt(run, t, k)
    ensures Has(run[j].bucket, k, v)
    decreases j
  {
    if i < j {
      KeyPersists(caps, run, i, j - 1, k, v);
      RunInv(caps, run, j - 1);
      assert NextAt(caps, run, j) && !RemovedAt(run, j, k);
      KeyKept(caps, run[j - 1], run[j], k, v);
    }
  }

  lemma KeyKept(caps: Caps, s: State, s': State, k: nat, v: int)
    requires GoodCaps(caps) && Inv(s) && Next(caps, s, s') && Has(s.bucket, k, v) && !Removes(s, s', k)
    ensures Has(s'.bucket, k, v)
  {
    var me: nat :| StepBy(caps, s, s', me) || Opens(s, s', me);
    if StepBy(caps, s, s', me) {
      var l, l' := View(s, me), View(s', me);
      StepRefinesMap(caps, s, s', me);
      if l.x.pc.Removing? {
        RemovalClears(me, l, l');
        assert l.x.addr != k;
      }
    }
  }

  lemma RemovalClears(me: nat, l: Local, l': Local)
    requires WriterInv(l) && l.x.pc.Removing? && UseStep(me, l, l')
    ensures l'.x.pc.Zeroed?
  {}

  /** Handle me asked to create key k, or to remove it. */
  predicate AsksToCreate(s: State, me: nat, k: nat) {
    me in s.handles && s.handles[me].addr == k && s.handles[me].create && !s.handles[me].remove
  }

  predicate AsksToRemove(s: State, me: nat, k: nat) {
    me in s.handles && s.handles[me].addr == k && s.handles[me].remove
  }

  ghost predicate CreateAsked(s: State, k: nat) { exists me :: AsksToCreate(s, me, k) }

  ghost predicate RemoveAsked(s: State, k: nat) { exists me :: AsksToRemove(s, me, k) }

  /** A key appears only by a handle that asked to create it, and disappears only by one that asked to remove
      it. */
  lemma ChangesAreAsked(caps: Caps, run: seq<State>, t: nat, k: nat, v: int)
    requires GoodCaps(caps) && IsRun(caps, run) && 0 < t < |run|
    ensures !Has(run[t - 1].bucket, k, v) && Has(run[t].bucket, k, v) ==> CreateAsked(run[t - 1], k)
    ensures Has(run[t - 1].bucket, k, v) && !Has(run[t].bucket, k, v) ==> RemoveAsked(run[t - 1], k)
  {
    RunInv(caps, run, t - 1);
    assert NextAt(caps, run, t);
    var s, s' := run[t - 1], run[t];
    var me: nat :| StepBy(caps, s, s', me) || Opens(s, s', me);
    if StepBy(caps, s, s', me) {
      StepRefinesMap(caps, s, s', me);
      var x := s.handles[me];
      assert x.pc.Created? && s'.handles[me].pc.UnlockAfter? ==> AsksToCreate(s, me, x.addr);
      assert x.pc.Removing? ==> AsksToRemove(s, me, x.addr);
    }
  }
}
