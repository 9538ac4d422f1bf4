/** The table of labels by key: an array of buckets, each a chain of entries that point at label
    records. Records live in an array, so a pointer is an index. */
module HashTable {
  import opened Arith
  import opened Options
  import opened Expressions
  import opened Labels

  /** Expression and input offsets remembered for a label. */
  datatype Cached = Cached(expr: Expr, deps: set<nat>)

  /** One label record. The key never changes after the record is written; the other fields do. */
  datatype LabelInfo = LabelInfo(key: Key, flipped: bool, cached: Option<Cached>)

  /** Entries of one bucket, newest first. */
  datatype Chain = End | Entry(record: nat, lbl: Label, next: Chain)

  function OpCode(op: Op): nat {
    match op
    case Input => 0 case Not => 1 case Negate => 2
    case Add => 11 case Sub => 13 case Mul => 15 case UDiv => 17 case SDiv => 18
    case URem => 20 case SRem => 21 case Shl => 23 case LShr => 24 case AShr => 25
    case And => 26 case Or => 27 case Xor => 28 case Trunc => 36 case ZExt => 37 case SExt => 38
    case ICmp(p) => p * 256 + 51
    case Load => 67 case Extract => 68 case Concat => 69 case FMemcmp => 70 case FSize => 71
    case Unsupported(c) => c
  }

  /** The bucket of a key among size buckets, size a power of two. */
  function Hash(key: Key, size: nat): (h: nat)
    requires size > 0
    ensures h < size
  {
    var sum := ((key.l1 + key.l2) % 0x1_0000_0000 + key.op1 + key.op2) % 0x1_0000_0000_0000_0000;
    BitAnd(BitXor(BitXor(sum, OpCode(key.op) * 8), key.size), size - 1)
  }

  predicate ChainOk(c: Chain, limit: nat) {
    c.End? || (c.record < limit && ChainOk(c.next, limit))
  }

  /** Label of the newest entry whose record has this key. */
  function Find(c: Chain, mem: seq<LabelInfo>, key: Key): Option<Label> {
    match c
    case End => None
    case Entry(p, l, next) => if p < |mem| && mem[p].key == key then Some(l) else Find(next, mem, key)
  }

  function Get(m: map<Key, Label>, key: Key): Option<Label> {
    if key in m then Some(m[key]) else None
  }

  /** Records may be appended and their other fields overwritten, but no key changes. */
  predicate SameKeys(mem: seq<LabelInfo>, mem': seq<LabelInfo>) {
    |mem| <= |mem'| && forall p | 0 <= p < |mem| :: mem'[p].key == mem[p].key
  }

  lemma {:induction false} FindStable(c: Chain, mem: seq<LabelInfo>, mem': seq<LabelInfo>, key: Key)
    requires ChainOk(c, |mem|) && SameKeys(mem, mem')
    ensures ChainOk(c, |mem'|) && Find(c, mem', key) == Find(c, mem, key)
  {
    if c.Entry? { FindStable(c.next, mem, mem', key); }
  }

  /** The buckets hold exactly the finite map m. */
  ghost predicate Holds(buckets: seq<Chain>, mem: seq<LabelInfo>, m: map<Key, Label>) {
    && |buckets| > 0
    && (forall i | 0 <= i < |buckets| :: ChainOk(buckets[i], |mem|))
    && (forall key: Key :: Find(buckets[Hash(key, |buckets|)], mem, key) == Get(m, key))
  }

  /** The table stays the same map while callers append records and rewrite flags and caches. */
  lemma HoldsStable(buckets: seq<Chain>, mem: seq<LabelInfo>, mem': seq<LabelInfo>, m: map<Key, Label>)
    requires Holds(buckets, mem, m) && SameKeys(mem, mem')
    ensures Holds(buckets, mem', m)
  {
    forall key: Key ensures Find(buckets[Hash(key, |buckets|)], mem', key) == Get(m, key) {
      FindStable(buckets[Hash(key, |buckets|)], mem, mem', key);
    }
    forall i | 0 <= i < |buckets| ensures ChainOk(buckets[i], |mem'|) {
      FindStable(buckets[i], mem, mem', Key(0, 0, Input, 0, 0, 0));
    }
  }

  /** Putting an entry in front of its bucket is a map update, also when the key was there before. */
  lemma InsertHolds(buckets: seq<Chain>, mem: seq<LabelInfo>, m: map<Key, Label>, record: nat, lbl: Label)
    requires Holds(buckets, mem, m) && record < |mem|
    ensures
      var key := mem[record].key;
      var h := Hash(key, |buckets|);
      Holds(buckets[h := Entry(record, lbl, buckets[h])], mem, m[key := lbl])
  {
    var key := mem[record].key;
    var h := Hash(key, |buckets|);
    var buckets' := buckets[h := Entry(record, lbl, buckets[h])];
    forall k: Key ensures Find(buckets'[Hash(k, |buckets'|)], mem, k) == Get(m[key := lbl], k) {
      assert Find(buckets[Hash(k, |buckets|)], mem, k) == Get(m, k);
    }
  }

  class UnionHashtable {
    const bucketSize: nat
    const bucket: array<Chain>

    ghost predicate Valid(mem: seq<LabelInfo>, m: map<Key, Label>)
      reads this, bucket
    {
      bucket.Length == bucketSize && Holds(bucket[..], mem, m)
    }

    constructor (n: nat)
      requires n > 0
      ensures fresh(bucket) && forall mem :: Valid(mem, map[])
    {
      bucketSize := n;
      bucket := new Chain[n](i => End);
      new;
      assert forall i | 0 <= i < n :: bucket[..][i] == End;
    }

    /** Adds a record under its key. */
    method Insert(mem: seq<LabelInfo>, record: nat, entry: Label, ghost m: map<Key, Label>)
      requires Valid(mem, m) && record < |mem|
      modifies bucket
      ensures Valid(mem, m[mem[record].key := entry])
    {
      var index := Hash(mem[record].key, bucketSize);
      InsertHolds(bucket[..], mem, m, record, entry);
      ghost var after := bucket[..][index := Entry(record, entry, bucket[index])];
      bucket[index] := Entry(record, entry, bucket[index]);
      assert bucket[..] == after;
    }

    /** Looks a key up by walking its bucket. */
    method Lookup(mem: seq<LabelInfo>, key: Key, ghost m: map<Key, Label>) returns (r: Option<Label>)
      requires Valid(mem, m)
      ensures r == Get(m, key)
    {
      var index := Hash(key, bucketSize);
      var curr := bucket[index];
      assert ChainOk(bucket[..][index], |mem|);
      assert Find(bucket[..][Hash(key, |bucket[..]|)], mem, key) == Get(m, key);
      while curr.Entry?
        invariant ChainOk(curr, |mem|) && Find(curr, mem, key) == Get(m, key)
        decreases curr
      {
        if mem[curr.record].key == key {
          return Some(curr.lbl);
        }
        curr := curr.next;
      }
      return None;
    }
  }
}
