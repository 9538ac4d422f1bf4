/** One bucket of the concurrent address map, as a machine whose steps are single loads, stores and
    lock operations of many handles. Buckets share nothing, so the map is the product of its buckets. */
module AddrHashMap {
  import opened Options

  const BUCKET_SIZE: nat := 3

  /** Address zero marks an empty cell. */
  datatype Cell = Cell(addr: nat, val: int)

  /** The overflow array: its capacity is the number of cells. */
  datatype Add = Add(size: nat, cells: seq<Cell>)

  datatype Bucket = Bucket(cells: seq<Cell>, add: Option<Add>)

  datatype Ref = Embed(i: nat) | Added(i: nat)

  datatype Lock = Lock(writer: Option<nat>, readers: set<nat>)

  /** Where a handle is in acquire and release. */
  datatype Pc =
    | Start
    | ReadEmbed(i: nat) | CheckAdd | WantRead | ScanAdd(i: nat)
    | WantLock | LockedEmbed(i: nat) | LockedAdd(i: nat) | Retry | Absent
    | FindFree(i: nat) | PrepareAdd | GrowAdd | StoreAdd
    | Found(i: nat) | FoundAdd(i: nat) | Created(ref: Ref) | Removing(ref: Ref)
    | Zeroed(ref: Ref) | Moving(i: nat) | Published(i: nat) | Compacted(i: nat)
    | UnlockAfter | Missing | Released
    | Crashed

  datatype Handle = Handle(addr: nat, remove: bool, create: bool, pc: Pc)

  datatype State = State(bucket: Bucket, lock: Lock, handles: map<nat, Handle>)

  // ---------------------------------------------------------------- cells

  predicate InBucket(b: Bucket, r: Ref) {
    match r
    case Embed(i) => i < |b.cells|
    case Added(i) => b.add.Some? && i < |b.add.value.cells|
  }

  function CellAt(b: Bucket, r: Ref): Cell {
    if !InBucket(b, r) then Cell(0, 0)
    else match r
      case Embed(i) => b.cells[i]
      case Added(i) => b.add.value.cells[i]
  }

  function Put(b: Bucket, r: Ref, c: Cell): Bucket
    requires InBucket(b, r)
  {
    match r
    case Embed(i) => b.(cells := b.cells[i := c])
    case Added(i) => b.(add := Some(b.add.value.(cells := b.add.value.cells[i := c])))
  }

  function Size(b: Bucket): nat {
    if b.add.Some? then b.add.value.size else 0
  }

  function Cap(b: Bucket): nat {
    if b.add.Some? then |b.add.value.cells| else 0
  }

  function SetSize(b: Bucket, size: nat): Bucket
    requires b.add.Some?
  {
    b.(add := Some(b.add.value.(size := size)))
  }

  function Empty(n: nat): seq<Cell> {
    seq(n, i => Cell(0, 0))
  }

  // ---------------------------------------------------------------- capacity of the overflow array

  /** Capacity of the first overflow array, and of the one that replaces a full one. */
  datatype Caps = Caps(init: nat, grow: nat -> nat)

  ghost predicate GoodCaps(caps: Caps) {
    caps.init >= 1 && forall c: nat :: c >= 1 ==> caps.grow(c) > c
  }

  /** Cells of the first allocation of 64 bytes, for cells of cs bytes after a 16-byte header; the array type
      has one cell already, and the subtraction is on 64 bits. */
  function InitCap(cs: nat): nat
    requires cs > 0
  {
    (64 - (16 + cs)) % 0x1_0000_0000_0000_0000 / cs + 1
  }

  /** Cells after the allocation is doubled. */
  function GrowCap(cs: nat, cap: nat): nat
    requires cs > 0 && cap >= 1
  {
    var oldsize := 16 + cs + (cap - 1) * cs;
    var newsize := oldsize * 2;
    assert newsize >= 16 + cs by { assert (cap - 1) * cs >= 0; }
    (newsize - (16 + cs)) / cs + 1
  }

  function CapsFor(cs: nat): Caps
    requires cs > 0
  {
    Caps(InitCap(cs), cap => if cap >= 1 then GrowCap(cs, cap) else 1)
  }

  // ---------------------------------------------------------------- steps

  /** What one handle sees: the bucket, the lock and itself. */
  datatype Local = Local(b: Bucket, lock: Lock, x: Handle)

  function Goto(l: Local, pc: Pc): Local {
    l.(x := l.x.(pc := pc))
  }

  function Unlock(l: Local, pc: Pc): Local {
    Goto(l.(lock := l.lock.(writer := None)), pc)
  }

  function ReadUnlock(l: Local, me: nat, pc: Pc): Local {
    Goto(l.(lock := l.lock.(readers := l.lock.readers - {me})), pc)
  }

  /** The next step of handle me in acquire. */
  predicate AcquireStep(caps: Caps, me: nat, l: Local, l': Local) {
    SearchStep(me, l, l') || LockedStep(l, l') || CreateStep(caps, l, l')
  }

  /** Looking for the key without the write lock. */
  predicate SearchStep(me: nat, l: Local, l': Local) {
    var addr := l.x.addr;
    match l.x.pc
    case Start => l' == Goto(l, if l.x.remove then WantLock else ReadEmbed(0))
    // lock-free look at the embedded cells
    case ReadEmbed(i) =>
      l' == Goto(l, if CellAt(l.b, Embed(i)).addr == addr then Found(i)
                    else if i + 1 < BUCKET_SIZE then ReadEmbed(i + 1) else CheckAdd)
    case CheckAdd => l' == Goto(l, if l.b.add.Some? then WantRead else WantLock)
    // read-locked look at the overflow array
    case WantRead =>
      && l.lock.writer.None?
      && l' == Goto(l.(lock := l.lock.(readers := l.lock.readers + {me})), ScanAdd(0))
    case ScanAdd(i) =>
      if i < Size(l.b) then l' == Goto(l, if CellAt(l.b, Added(i)).addr == addr then FoundAdd(i) else ScanAdd(i + 1))
      else l' == ReadUnlock(l, me, WantLock)
    case WantLock =>
      && l.lock == Lock(None, {})
      && l' == Goto(l.(lock := l.lock.(writer := Some(me))), LockedEmbed(0))
    case _ => false
  }

  /** Looking again with it. */
  predicate LockedStep(l: Local, l': Local) {
    var addr := l.x.addr;
    match l.x.pc
    case LockedEmbed(i) =>
      l' == Goto(l, if CellAt(l.b, Embed(i)).addr == addr then (if l.x.remove then Removing(Embed(i)) else Retry)
                    else if i + 1 < BUCKET_SIZE then LockedEmbed(i + 1) else LockedAdd(0))
    case LockedAdd(i) =>
      l' == Goto(l, if i < Size(l.b) then
                      (if CellAt(l.b, Added(i)).addr == addr then (if l.x.remove then Removing(Added(i)) else Retry)
                       else LockedAdd(i + 1))
                    else if l.x.remove || !l.x.create then Absent else FindFree(0))
    case Retry => l' == Unlock(l, ReadEmbed(0))
    case Absent => l' == Unlock(l, Missing)
    case _ => false
  }

  /** Finding or making a free cell. */
  predicate CreateStep(caps: Caps, l: Local, l': Local) {
    match l.x.pc
    case FindFree(i) =>
      l' == Goto(l, if CellAt(l.b, Embed(i)).addr == 0 then Created(Embed(i))
                    else if i + 1 < BUCKET_SIZE then FindFree(i + 1) else PrepareAdd)
    case PrepareAdd =>
      l' == Goto(if l.b.add.Some? then l else l.(b := l.b.(add := Some(Add(0, Empty(caps.init))))), GrowAdd)
    case GrowAdd =>
      && l.b.add.Some? && Cap(l.b) >= 1
      && l' == Goto(if Size(l.b) == Cap(l.b) then l.(b := Grown(l.b, caps.grow(Cap(l.b)))) else l, StoreAdd)
    case StoreAdd =>
      && l.b.add.Some?
      && l' == if CellAt(l.b, Added(Size(l.b))).addr != 0 then Goto(l, Crashed)
               else Goto(l.(b := SetSize(l.b, Size(l.b) + 1)), Created(Added(Size(l.b))))
    case _ => false
  }

  /** The array copied into a larger one. */
  function Grown(b: Bucket, cap: nat): Bucket
    requires b.add.Some?
  {
    var add := b.add.value;
    b.(add := Some(Add(add.size, if cap >= |add.cells| then add.cells + Empty(cap - |add.cells|) else add.cells)))
  }

  /** The owner of a handle uses it, or takes the next step of its release. */
  predicate ReleaseStep(me: nat, l: Local, l': Local) {
    UseStep(me, l, l') || TidyStep(l, l')
  }

  predicate UseStep(me: nat, l: Local, l': Local) {
    var addr := l.x.addr;
    match l.x.pc
    case Found(i) => l' == Goto(l, if CellAt(l.b, Embed(i)).addr == addr then Released else Crashed)
    case FoundAdd(i) =>
      l' == if CellAt(l.b, Added(i)).addr == addr then ReadUnlock(l, me, Released) else Goto(l, Crashed)
    case Missing => l' == Goto(l, Released)
    case Created(r) =>
      && InBucket(l.b, r)
      && var c := CellAt(l.b, r);
         || l' == l.(b := Put(l.b, r, c.(val := CellAt(l'.b, r).val)))
         || l' == if c.addr != 0 then Goto(l, Crashed) else Goto(l.(b := Put(l.b, r, c.(addr := addr))), UnlockAfter)
    case Removing(r) =>
      && InBucket(l.b, r)
      && var c := CellAt(l.b, r);
         l' == if c.addr != addr then Goto(l, Crashed) else Goto(l.(b := Put(l.b, r, c.(addr := 0))), Zeroed(r))
    case UnlockAfter => l' == Unlock(l, Released)
    case _ => false
  }

  /** Filling the cell that a removal freed. */
  predicate TidyStep(l: Local, l': Local) {
    match l.x.pc
    // an embedded cell became free: the last overflow cell moves in
    case Zeroed(Embed(i)) =>
      if Size(l.b) == 0 then l' == Goto(l, UnlockAfter)
      else
        var last := Size(l.b) - 1;
        && InBucket(l.b, Embed(i))
        && l' == Goto(l.(b := SetSize(Put(l.b, Embed(i), Cell(CellAt(l.b, Embed(i)).addr, CellAt(l.b, Added(last)).val)), last)),
                      Moving(i))
    case Moving(i) =>
      && InBucket(l.b, Embed(i))
      && l' == Goto(l.(b := Put(l.b, Embed(i), CellAt(l.b, Embed(i)).(addr := CellAt(l.b, Added(Size(l.b))).addr))),
                    Published(i))
    case Published(i) => InBucket(l.b, Added(Size(l.b))) && l' == Goto(l.(b := ClearLast(l.b)), UnlockAfter)
    // an overflow cell became free: the last one moves in
    case Zeroed(Added(i)) =>
      && Size(l.b) > 0 && InBucket(l.b, Added(i))
      && var last := Size(l.b) - 1;
         l' == if i == last then Goto(l.(b := SetSize(l.b, last)), UnlockAfter)
               else Goto(l.(b := SetSize(Put(l.b, Added(i), CellAt(l.b, Added(last))), last)), Compacted(i))
    case Compacted(i) => InBucket(l.b, Added(Size(l.b))) && l' == Goto(l.(b := ClearLast(l.b)), UnlockAfter)
    case _ => false
  }

  /** Clears the address of the cell just past the size. */
  function ClearLast(b: Bucket): Bucket
    requires InBucket(b, Added(Size(b)))
  {
    Put(b, Added(Size(b)), CellAt(b, Added(Size(b))).(addr := 0))
  }

  /** A remove may not overtake a reader of the same key. */
  predicate NoReader(s: State, addr: nat) {
    forall h | h in s.handles :: s.handles[h].pc.Found? ==> s.handles[h].addr != addr
  }

  predicate StepBy(caps: Caps, s: State, s': State, me: nat)
  {
    && me in s.handles && me in s'.handles
    && s'.handles == s.handles[me := s'.handles[me]]
    && var l, l' := Local(s.bucket, s.lock, s.handles[me]), Local(s'.bucket, s'.lock, s'.handles[me]);
       && (l.x.pc.Removing? ==> NoReader(s, l.x.addr))
       && (AcquireStep(caps, me, l, l') || ReleaseStep(me, l, l'))
  }

  /** A new handle, for a key that is not zero. */
  predicate Opens(s: State, s': State, me: nat) {
    && (me in s.handles ==> s.handles[me].pc.Released?)
    && s'.bucket == s.bucket && s'.lock == s.lock
    && me in s'.handles && s'.handles[me].addr != 0 && s'.handles[me].pc.Start?
    && s'.handles == s.handles[me := s'.handles[me]]
  }

  predicate Init(s: State) {
    s == State(Bucket(Empty(BUCKET_SIZE), None), Lock(None, {}), map[])
  }

  ghost predicate Next(caps: Caps, s: State, s': State)
  {
    exists me: nat :: StepBy(caps, s, s', me) || Opens(s, s', me)
  }

  ghost predicate IsRun(caps: Caps, run: seq<State>)
  {
    && |run| > 0 && Init(run[0])
    && forall k | 0 < k < |run| :: NextAt(caps, run, k)
  }

  ghost predicate NextAt(caps: Caps, run: seq<State>, k: nat)
    requires 0 < k < |run|
  {
    Next(caps, run[k - 1], run[k])
  }
}
