/** At most sixteen visits of a branch in one calling context are traced. */
module BranchFilter {
  const MAX_BRANCH_COUNT: nat := 16

  /** Hash of the call stack, and the address of the branch. */
  type Context = (nat, nat)

  type Branches = map<Context, nat>

  function CountOf(b: Branches, c: Context): nat {
    if c in b then b[c] else 0
  }

  /** Whether a visit is traced, and the counts afterwards. */
  function Visit(b: Branches, c: Context): (bool, Branches) {
    if c !in b then (true, b[c := 1])
    else if b[c] < MAX_BRANCH_COUNT then (true, b[c := b[c] + 1])
    else (false, b)
  }

  function VisitAll(b: Branches, cs: seq<Context>): (seq<bool>, Branches)
    decreases |cs|
  {
    if cs == [] then ([], b)
    else
      var (t, b') := Visit(b, cs[0]);
      var (ts, b'') := VisitAll(b', cs[1..]);
      ([t] + ts, b'')
  }

  /** Visits of c, and traced visits of c. */
  function Visits(cs: seq<Context>, c: Context): nat {
    if cs == [] then 0 else (if cs[0] == c then 1 else 0) + Visits(cs[1..], c)
  }

  function Traced(cs: seq<Context>, ts: seq<bool>, c: Context): nat {
    if cs == [] || ts == [] then 0
    else (if cs[0] == c && ts[0] then 1 else 0) + Traced(cs[1..], ts[1..], c)
  }

  function Min(a: int, b: int): int { if a < b then a else b }

  /** Over any run from the start, whatever other branches are visited in between, exactly the first sixteen
      visits of a context are traced. */
  lemma SixteenTraced(cs: seq<Context>, c: Context)
    ensures |VisitAll(map[], cs).0| == |cs|
    ensures Traced(cs, VisitAll(map[], cs).0, c) == if Visits(cs, c) <= 16 then Visits(cs, c) else 16
    ensures forall k | 0 <= k < |cs| && cs[k] == c :: VisitAll(map[], cs).0[k] <==> Visits(cs[..k], c) < 16
  {
    TracedIsCapped(map[], cs, c);
    forall k | 0 <= k < |cs| && cs[k] == c ensures VisitAll(map[], cs).0[k] <==> Visits(cs[..k], c) < 16 {
      TracedAt(map[], cs, c, k);
    }
  }

  lemma {:induction false} TracedAt(b: Branches, cs: seq<Context>, c: Context, k: nat)
    requires k < |cs| && cs[k] == c && CountOf(b, c) <= MAX_BRANCH_COUNT
    ensures |VisitAll(b, cs).0| == |cs|
    ensures VisitAll(b, cs).0[k] <==> CountOf(b, c) + Visits(cs[..k], c) < MAX_BRANCH_COUNT
    decreases |cs|
  {
    var (t, b') := Visit(b, cs[0]);
    TracedIsCapped(b, cs, c);
    if k > 0 {
      TracedAt(b', cs[1..], c, k - 1);
      assert cs[..k][1..] == cs[1..][..k - 1];
    }
  }

  /** From any counts: the first visits of a context up to the limit are traced. */
  lemma {:induction false} TracedIsCapped(b: Branches, cs: seq<Context>, c: Context)
    requires CountOf(b, c) <= MAX_BRANCH_COUNT
    ensures |VisitAll(b, cs).0| == |cs|
    ensures Traced(cs, VisitAll(b, cs).0, c) == Min(Visits(cs, c), MAX_BRANCH_COUNT - CountOf(b, c))
    ensures CountOf(VisitAll(b, cs).1, c) == CountOf(b, c) + Traced(cs, VisitAll(b, cs).0, c)
    decreases |cs|
  {
    if cs != [] {
      var (t, b') := Visit(b, cs[0]);
      var ts := VisitAll(b', cs[1..]).0;
      TracedIsCapped(b', cs[1..], c);
      assert VisitAll(b, cs).0 == [t] + ts && ([t] + ts)[1..] == ts;
    }
  }
}
