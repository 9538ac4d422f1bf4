# Kirenenko: a model in Dafny

Kirenenko runs a program on one input file, tracks which values depend on which input bytes, and asks
a solver for inputs that take branches the other way. This project models the parts of it that are
hard to get right and proves what they promise. `dafny verify dfyconfig.toml` checks everything.

**The taint runtime** (`Options`, `Expressions`, `BitVectors`, `Labels`, `Operators`, `LoadStore`,
`LoadMeaning`, `LoadTheorems`, `LoadInstances`, `WideLoads`, `HashTable`, `Memo`, `Slicing`,
`BranchFilter`, `Runtime`).
A label is an index into an append-only table of operations; `Labels.Build` gives the expression a
label stands for by plain recursion and `Labels.Eval` its value on an input, with `None` where the
program raises an exception; `Operators` says what that value is for every operator in plain
integers. `Labels.Union`, `LoadStore.UnionLoad` and `LoadStore.UnionStore` say which table and label
an operation leaves. `Runtime.TaintRuntime` is the state the program keeps and its methods are the
program's functions, proved against those. Three fast forms are proved to agree with simple ones:
cached against recursive serialization, the load paths against byte-by-byte concatenation, and the
slice of constraints against the whole path.

**The concurrent maps** (`Paths`, `AddrHashMap`, `AddrHashMapProofs`, `AddrHashMapSolo`, `ByteMap`).
One bucket of the address map and the two-level byte map, each as a machine whose steps are single
loads, stores and lock operations of any number of threads. The safety theorems are about every run;
the others say where each operation ends when it runs undisturbed.

**Integer arithmetic** (`Arith`, `Words`, `Division`, `WideDivision`, `Multiplication`,
`SignedArith`).
Generic in the word width: w = 32 is `__udivmoddi4`, `__divdi3` and `__moddi3`, w = 64 is
`__udivmodti4`; h = 16 is `__muldsi3` and `__muldi3`, h = 32 is `__mulddi3`, `__multi3` and the
double-precision `wideMultiply`.

**Soft floating point** (`FloatFormat`, `IntToFloat`, `DivSf3`).
Encodings are numbers, values are exact, and nearest with ties to even is section 4.3.1 of
IEEE 754-2008.

## What was found

- `__divsf3` says it flushes denormal results to zero. It flushes everything up to and including
  2^-126, so the smallest normal number divided by one gives zero (`DivSf3.DivideMinNormalByOne`);
  `DivSf3.Divide` states exactly when the result is the correctly rounded one.
- `memcmp` and `strcmp` record the number of bytes compared as the size of their result
  (dfsan_custom.cc:187, 210 and 262), whose expression has 32 bits (dfsan.cc:671-675). Where the two
  differ, loading all the recorded bytes of such a result returns a label of another width, a wrong
  value on every input (`LoadInstances.LowByteOfComparison`). `LoadTheorems.ExtractExact` and
  `LoadTheorems.SubrangeMeans` say exactly when loads of stored labels are right.
- A load whose first byte is concrete loses that byte: the concatenation path reads leading concrete
  bytes as zero, and the shape test reads byte 0 of the input instead. `LoadTheorems.ConcreteStartExact`
  and `LoadTheorems.ConcreteStartShape` say when the result is right all the same;
  `LoadInstances.SevenReadAsZero` and `LoadInstances.SevenReadFromFile` are instances.
- The shape test looks at first operands only and can take a sum for an input byte
  (`LoadInstances.ShapeConfusion`), also one past the end of the file
  (`LoadInstances.PastEndConfusion`); `LoadTheorems.ShapeExact` has the exact condition.
- Concatenations of 32 bytes and more have no value, since their width is kept in eight bits
  (`LoadTheorems.LongLoadHasNoValue`, `LoadInstances.ThirtyTwoBytes`). With exactly 31 concrete bytes
  in front, up to 63 bytes have one again (`LoadTheorems.ConcreteStartExact`).
- The concatenation path cuts every label but the first to the load, so a load over a wider label than
  itself returns all of it (`WideLoads.WideMeans`).
- Store then load returns another label for a `Load` label that starts at the constant
  (`LoadTheorems.StoreLoadExact`, `LoadInstances.ConstantLoadIsLost`), and every part of it is read one
  byte off (`LoadTheorems.SubrangeMeans`).
- Serializing a memory comparison hands the offsets of its first operand to the second, whose cached
  offsets can then be too large (`Runtime.SpilledOffsets`). They are never too small.
  `Runtime.TaintRuntime.Serialize` says exactly which offsets are returned, `Memo.ExactWhen` when they are
  those of the expression: while nothing below is cached (`Memo.UntouchedReturns`), and in every state for a label
  of which no part is handed offsets by a comparison (`Memo.ExactReturns`,
  `Runtime.ExactBesideComparison`).
- The first overflow array of the address map is sized by a subtraction that wraps for cells of more
  than 48 bytes (`AddrHashMapProofs.InitCapFits`).

## Premises

- The input is a file: label 0 is the constant and labels 1 to n are its n bytes in order.
- No label is `kInitializingLabel`, there are no file-size labels, and both operands of a memory
  comparison are tainted. Label sizes fit 16 bits, so loads are below 8192 bytes.
- Shadow labels are at least eight bits wide; the theorems about loads that say "byte" need exactly
  eight. `LoadTheorems.LoadMeans` is about loads that start with a tainted byte and, where they pass the
  shape test, hold no created label with a concrete first operand; `LoadTheorems.ConcreteStartSlow`,
  `LoadTheorems.ConcreteStartShape` and `LoadTheorems.ShapeExact` are about the others.
- The solver is a function that answers each check. A model assigns only bytes that occur in the
  formulas, every completion of it satisfies them, and "unsatisfiable" is true. Where a statement needs
  a solver that never gives up it says so. `simplify()` changes nothing.
- Address map: keys are not zero, the cells counted by a capacity have memory, and a removal does not
  clear its cell while a read handle on the same key is live. Byte map: indices are in range and a byte is set once.
- Machine steps are sequentially consistent.

## Model

| member | source | states |
|---|---|---|
| `Expressions.DenoteSort` | llvm_mode/dfsan_rt/dfsan/dfsan.cc:607-739 | every expression the solver accepts has a value of its sort on every input |
| `Expressions.DenoteDepends` | llvm_mode/dfsan_rt/dfsan/dfsan.cc:607-739 | the value of an expression depends on the bytes it mentions only |
| `Labels.RunWf` | llvm_mode/dfsan_rt/dfsan/dfsan.cc:219-263 | over every run of label requests the table stays well formed, no two created labels share a key, and every request gets the label with its key, or label 0 exactly when both operands are concrete |
| `Labels.RunCanonical` | llvm_mode/dfsan_rt/dfsan/dfsan.cc:219-263 | two requests of a run get the same label if and only if they are equal up to the order of commutative operands and the concrete values a tainted operand hides |
| `Labels.KeyDecidesRequest` | llvm_mode/dfsan_rt/dfsan/dfsan.cc:221-230 | ordering operands by label and dropping hidden concrete values gives two requests one key if and only if they are the same request |
| `Labels.SwapKeepsMeaning` | llvm_mode/dfsan_rt/dfsan/dfsan.h:173-186 | swapping the operands keeps a node's value on every input, and whether it has one, for every commutative operator except Not |
| `Labels.SwapsThatMatter` | llvm_mode/dfsan_rt/dfsan/dfsan.h:173-186 | a request and the one with its operands exchanged share a key if and only if the operator is Not, And, Or, Xor, Add, Mul or a memory comparison, or the labels are equal |
| `Labels.NotReadsTaintedOperand` | llvm_mode/dfsan_rt/dfsan/dfsan.cc:646-655 | for Not the swap puts the tainted operand second, the only one that is read |
| `Labels.RunKeepsMeaning` | llvm_mode/dfsan_rt/dfsan/dfsan.cc:243-261 | no run changes the value of a label that existed before it |
| `Labels.BuildStable` | llvm_mode/dfsan_rt/dfsan/dfsan.cc:243-261 | the expression of a label does not change when labels are appended |
| `Labels.BuildSorted` | llvm_mode/dfsan_rt/dfsan/dfsan.cc:587-747 | whatever is built is well sorted |
| `Labels.BuildMentions` | llvm_mode/dfsan_rt/dfsan/dfsan.cc:604-624 | the bytes a label's expression mentions lie in the file |
| `Operators.ArithmeticValue` | llvm_mode/dfsan_rt/dfsan/dfsan.cc:726-735 | on every input a label for Add, Sub, Mul, UDiv, URem, SDiv, SRem, Shl, LShr or AShr has the number that operator gives on the values of its operands, said in integers: sums, differences and products modulo the width, signed quotients truncated toward zero, shifts as multiplication and division by powers of two, the values for a zero divisor; it has one if and only if the operands are numbers of one width and the size is not a multiple of 256 |
| `Operators.BitwiseValue` | llvm_mode/dfsan_rt/dfsan/dfsan.cc:723-725 | And, Or and Xor combine the operands bit by bit, or as truth values in one-bit operations, and when there is no value |
| `Operators.ComparisonValue` | llvm_mode/dfsan_rt/dfsan/dfsan.cc:560-578 | a comparison with predicate number 32 to 41 has the truth value of the integer relation, unsigned or signed, that the number stands for; it has a value if and only if the number is one of these, the operands have one width or both are truth values compared for equality, and the size is not a multiple of 256 |
| `Operators.ConcatValue` | llvm_mode/dfsan_rt/dfsan/dfsan.cc:692-739 | the second operand above the first, with a concrete operand filling the recorded size, and when the widths count |
| `Operators.ZeroExtendValue` | llvm_mode/dfsan_rt/dfsan/dfsan.cc:625-632 | widening with zeros keeps the number, a truth value becomes one or zero |
| `Operators.SignExtendValue` | llvm_mode/dfsan_rt/dfsan/dfsan.cc:633-637 | widening with the sign keeps the signed number |
| `Operators.CutValue` | llvm_mode/dfsan_rt/dfsan/dfsan.cc:638-645 | truncation and extraction divide by a power of two and keep size bits; they have a value if and only if the operand has those bits |
| `Operators.NegationValue` | llvm_mode/dfsan_rt/dfsan/dfsan.cc:646-663 | Not is the other truth value, in one bit only; Neg the negation modulo the width |
| `Operators.MemcmpValue` | llvm_mode/dfsan_rt/dfsan/dfsan.cc:665-675 | a memory comparison is zero if the blocks are equal, else one, in 32 bits |
| `Operators.InputValue` | llvm_mode/dfsan_rt/dfsan/dfsan.cc:604-624 | an input byte is that byte of the file, a load the little-endian number of its bytes, the constant has no value |
| `Operators.UnsupportedValue` | llvm_mode/dfsan_rt/dfsan/dfsan.cc:740-743 | other operators have none |
| `Operators.ArithmeticRequest` | llvm_mode/dfsan_rt/dfsan/dfsan.cc:219-263 | whatever was requested before, the label returned for an arithmetic request has the operator applied to the arguments of the caller in the order of the caller, also when the label is an old one |
| `Operators.BitwiseRequest` | llvm_mode/dfsan_rt/dfsan/dfsan.cc:219-263 | the same for And, Or and Xor |
| `Operators.ComparisonRequest` | llvm_mode/dfsan_rt/dfsan/dfsan.cc:219-263 | the same for comparisons |
| `BitVectors.SignedDivLaw` | llvm_mode/dfsan_rt/dfsan/dfsan.cc:733-733 | signed division of bit-vectors in integers |
| `BitVectors.ArithShiftLaw` | llvm_mode/dfsan_rt/dfsan/dfsan.cc:728-728 | shifting with copies of the sign divides the signed number, rounding down |
| `BitVectors.BitwiseLaw` | llvm_mode/dfsan_rt/dfsan/dfsan.cc:723-725 | and, or and exclusive or, bit by bit |
| `HashTable.Hash` | llvm_mode/dfsan_rt/dfsan/union_hashtable.cc:14-18 | the bucket number is in range |
| `HashTable.HoldsStable` | llvm_mode/dfsan_rt/dfsan/union_util.cc:42-50 | the buckets stay the same finite map while records are appended and their flags and caches are rewritten |
| `HashTable.InsertHolds` | llvm_mode/dfsan_rt/dfsan/union_hashtable.cc:20-28 | putting an entry in front of its bucket is a map update |
| `HashTable.UnionHashtable.constructor` | llvm_mode/dfsan_rt/dfsan/union_hashtable.cc:7-12 | a new table is the empty map |
| `HashTable.UnionHashtable.Insert` | llvm_mode/dfsan_rt/dfsan/union_hashtable.cc:20-28 | updates the map at the record's key |
| `HashTable.UnionHashtable.Lookup` | llvm_mode/dfsan_rt/dfsan/union_hashtable.cc:30-41 | returns what the map holds for the key, or none |
| `LoadMeaning.LoadWf` | llvm_mode/dfsan_rt/dfsan/dfsan.cc:266-356 | a load only appends to the table and keeps it well formed and hash-consed, if and only if it does not take labels for input bytes past the end of the file |
| `LoadTheorems.ShapeMeans` | llvm_mode/dfsan_rt/dfsan/dfsan.cc:288-309 | a load on the input-byte path denotes the concatenation of its bytes |
| `LoadTheorems.ExtractExact` | llvm_mode/dfsan_rt/dfsan/dfsan.cc:311-328 | a load on the all-extract path returns the label the bytes are cut from; it has the value of the bytes if and only if its expression is as wide as its record says |
| `LoadMeaning.SlowMeaning` | llvm_mode/dfsan_rt/dfsan/dfsan.cc:330-355 | the concatenation loop joins the byte values from any start, as long as no width on the way is a multiple of 256 bits |
| `LoadTheorems.LoadMeans` | llvm_mode/dfsan_rt/dfsan/dfsan.cc:266-356 | a load that starts with a tainted byte, of any length, appends only; it denotes the little-endian concatenation of its bytes if and only if: input bytes always; all the bytes of one label, if that label is as wide as recorded; other bytes, if they are fewer than 32 or have no joint value |
| `LoadTheorems.UntaintedLoad` | llvm_mode/dfsan_rt/dfsan/dfsan.cc:275-285 | for every range a load returns label 0 if and only if all its labels are 0, or its one label is a byte cut from the constant, which no store creates; then the table is unchanged |
| `WideLoads.WideMeans` | llvm_mode/dfsan_rt/dfsan/dfsan.cc:330-355 | a load over labels of any whole number of bytes that takes neither fast path denotes its pieces joined little-endian: the first label whole, even if wider than the load, what fits of the others, concrete bytes in between |
| `LoadTheorems.LongLoadHasNoValue` | llvm_mode/dfsan_rt/dfsan/dfsan.cc:692-702 | a concatenation of 32 bytes or more that starts with a tainted byte has no value, because the width is kept in eight bits (ConcreteStartSlow has the loads that start with a concrete one) |
| `LoadTheorems.ShapeExact` | llvm_mode/dfsan_rt/dfsan/dfsan.cc:288-309 | a load that passes the shape test leaves a well-formed table if and only if it ends inside the file, and then is right on exactly the inputs where every byte equals the file byte the test takes it for; bytes may have no value, but those that are bit-vectors have eight bits |
| `LoadTheorems.ConcreteStartShape` | llvm_mode/dfsan_rt/dfsan/dfsan.cc:288-309 | a load whose first byte is concrete and that passes the shape test is right if and only if that byte equals byte 0 of the input |
| `LoadTheorems.ConcreteStartSlow` | llvm_mode/dfsan_rt/dfsan/dfsan.cc:330-355 | what a concatenation of any length that starts with concrete bytes denotes: zeros in their place, as many bits as eight bits count, and nothing once a width is a multiple of 256 |
| `LoadTheorems.ConcreteStartExact` | llvm_mode/dfsan_rt/dfsan/dfsan.cc:330-355 | such a concatenation is right if and only if some byte of it has no bit-vector value, or its leading concrete bytes are zero and there are at most 31 bytes, or at most 63 of which exactly the first 31 are concrete |
| `LoadMeaning.StoreWf` | llvm_mode/dfsan_rt/dfsan/dfsan.cc:359-401 | a store keeps the table well formed; it writes existing labels if and only if it does not store a Load into more bytes than there are labels from its first on |
| `LoadTheorems.StoreConstant` | llvm_mode/dfsan_rt/dfsan/dfsan.cc:371-376 | storing the constant writes the constant everywhere and leaves the table alone |
| `LoadTheorems.StoreLoadIdentity` | llvm_mode/dfsan_rt/dfsan/dfsan.cc:359-401 | loading the bytes just stored returns the stored label itself |
| `LoadTheorems.StoreLoadBroken` | llvm_mode/dfsan_rt/dfsan/dfsan.cc:385-395 | it does not for a Load whose first operand is the constant |
| `LoadTheorems.StoreLoadExact` | llvm_mode/dfsan_rt/dfsan/dfsan.cc:359-401 | store then load is the identity on multi-byte labels if and only if the label is not such a Load |
| `LoadTheorems.StoreLoadByte` | llvm_mode/dfsan_rt/dfsan/dfsan.cc:378-400 | a label of eight bits is stored as itself; loading it returns it if and only if it is not cut at bit 0 from a label of eight bits, and that label otherwise |
| `LoadTheorems.StoredByteMeans` | llvm_mode/dfsan_rt/dfsan/dfsan.cc:378-400 | a shadow byte written by a store of any size denotes its eight bits of the label if and only if the expression of the label has them; for a Load that starts at the constant, if and only if that byte of the input equals the one before it, or the concrete byte at the start |
| `LoadTheorems.SubrangeMeans` | llvm_mode/dfsan_rt/dfsan/dfsan.cc:266-401 | loading any sub-range of the bytes of a stored label denotes that bit slice of it if and only if: a Load always, but one that starts at the constant only where the input bytes equal those before them (zero at the start, and then two to 31 bytes); the whole of another label, if it is as wide as recorded; up to 31 bytes, if its expression has them; more, if it has no bits at all |
| `LoadInstances.ShapeConfusion` | llvm_mode/dfsan_rt/dfsan/dfsan.cc:298-298 | a concrete table in which a sum is taken for an input byte and the load has a wrong value |
| `LoadInstances.PastEndConfusion` | llvm_mode/dfsan_rt/dfsan/dfsan.cc:288-309 | the same past the end of the file |
| `LoadInstances.SevenReadFromFile` | llvm_mode/dfsan_rt/dfsan/dfsan.cc:288-309 | a concrete 7 before byte 1 of the input is loaded as byte 0 |
| `LoadInstances.SevenReadAsZero` | llvm_mode/dfsan_rt/dfsan/dfsan.cc:330-355 | a concrete 7 before byte 0 of the input is loaded as zero |
| `LoadInstances.ThirtyTwoBytes` | llvm_mode/dfsan_rt/dfsan/dfsan.cc:692-702 | thirty-two bytes with values whose load has none |
| `LoadInstances.LowByteOfComparison` | llvm_mode/dfsan_rt/dfsan/dfsan_custom.cc:187-187 | loading the lowest byte of the result of an eight-byte memcmp returns all 32 bits of it, on every input a wrong value |
| `LoadInstances.ConstantLoadIsLost` | llvm_mode/dfsan_rt/dfsan/dfsan.cc:385-395 | a Load over a concrete first byte does not survive a store and a load |
| `Memo.DepsDecideValue` | llvm_mode/dfsan_rt/dfsan/dfsan.cc:581-585 | two inputs that agree on the offsets returned by serialization give the label the same value |
| `Memo.CacheKeepsOk` | llvm_mode/dfsan_rt/dfsan/dfsan.cc:581-585 | remembering a right result keeps every cache right: the expression of the recursion, offsets that cover its bytes and the caches of everything below it, and no others unless a comparison hands some to what the label is built from |
| `Memo.AppendKeepsOk` | llvm_mode/dfsan_rt/dfsan/dfsan.cc:243-261 | new labels keep every cached expression and offset set right |
| `Memo.ExactStable` | llvm_mode/dfsan_rt/dfsan/dfsan.cc:243-261 | new labels can take exactness of the offsets away from a label, never give it |
| `Memo.HandOn` | llvm_mode/dfsan_rt/dfsan/dfsan.cc:625-716 | an operand that is serialized into the set of its label is handed no offsets unless a comparison hands them to the label |
| `Memo.HandAcross` | llvm_mode/dfsan_rt/dfsan/dfsan.cc:667-671 | the second operand of a memory comparison may be handed any offsets |
| `Memo.ExactWhen` | llvm_mode/dfsan_rt/dfsan/dfsan.cc:587-602 | the returned offsets are those the expression mentions if and only if it mentions all that was handed in and all that the caches below the label hold |
| `Memo.UntouchedReturns` | llvm_mode/dfsan_rt/dfsan/dfsan.cc:587-747 | where nothing below the label is cached they are the ones handed in and those mentioned, with or without memory comparisons |
| `Memo.ExactReturns` | llvm_mode/dfsan_rt/dfsan/dfsan.cc:587-747 | in every state, a label of which no part is handed offsets by a comparison gets exactly those handed in and its own |
| `Memo.CachedStores` | llvm_mode/dfsan_rt/dfsan/dfsan.cc:597-602 | a cached set is what the expression mentions and what the caches below hold, so that using it loses and adds nothing |
| `Memo.StoredGrew` | llvm_mode/dfsan_rt/dfsan/dfsan.cc:707-716 | serializing one operand adds to the caches below another only offsets that it returned |
| `Memo.LoadStep` | llvm_mode/dfsan_rt/dfsan/dfsan.cc:612-624 | a load builds the concatenation of its bytes, all of them in the file |
| `Memo.MemcmpStep` | llvm_mode/dfsan_rt/dfsan/dfsan.cc:665-675 | a memory comparison needs both operands and mentions the bytes of both |
| `Slicing.ComponentIsReachable` | llvm_mode/dfsan_rt/dfsan/dfsan.cc:845-859 | the least closed set around the seed is what walks along constraints reach |
| `Slicing.CollectInputs` | llvm_mode/dfsan_rt/dfsan/dfsan.cc:845-859 | the worklist terminates with exactly the connected component of the seed |
| `Slicing.AddDeps` | llvm_mode/dfsan_rt/dfsan/dfsan.cc:852-858 | one byte's dependencies are inserted and the new ones queued; nothing outside the component enters |
| `Slicing.ComponentLinked` | llvm_mode/dfsan_rt/dfsan/dfsan.cc:903-917 | recording a closed set joins only bytes that the constraints themselves connect |
| `Slicing.RecordKeepsInv` | llvm_mode/dfsan_rt/dfsan/dfsan.cc:809-821 | recording at a constraint's own bytes, or at their whole component, keeps the store's invariant |
| `Slicing.SliceEquisatisfiable` | llvm_mode/dfsan_rt/dfsan/dfsan.cc:871-884 | flipping a condition is satisfiable with its slice if and only if it is with all recorded constraints |
| `Slicing.SliceDecidesPath` | llvm_mode/dfsan_rt/dfsan/dfsan.cc:871-886 | the slice is satisfiable if and only if some input flips the condition and keeps the whole path |
| `Slicing.PatchSound` | llvm_mode/dfsan_rt/dfsan/dfsan.cc:768-780 | the original input patched with a model of the slice flips the condition and satisfies every recorded constraint, sent to the solver or not |
| `Slicing.OptimisticPatch` | llvm_mode/dfsan_rt/dfsan/dfsan.cc:891-894 | a model of the condition alone still flips it |
| `Slicing.Gather` | llvm_mode/dfsan_rt/dfsan/dfsan.cc:871-884 | collects exactly the constraints recorded at the component |
| `Slicing.RecordAt` | llvm_mode/dfsan_rt/dfsan/dfsan.cc:904-916 | records a constraint at all given bytes and nowhere else |
| `Slicing.Query` | llvm_mode/dfsan_rt/dfsan/dfsan.cc:861-901 | each outcome keeps its promise: every file takes the branch the other way, one for the whole path keeps the path and changes bytes of the component only, one for the branch alone changes bytes of the condition only; no file exactly when the first check is not satisfiable, a file for the branch alone only when the second is not; with a solver that always decides, no file if and only if no input flips the branch, one for the whole path if and only if some input also keeps it, one for the branch alone if and only if some flips it and none keeps the path |
| `Runtime.TaintRuntime.constructor` | llvm_mode/dfsan_rt/dfsan/dfsan.cc:1220-1228 | one label per input byte, an empty path, no branch counted and a consistent state |
| `Runtime.TaintRuntime.Union` | llvm_mode/dfsan_rt/dfsan/dfsan.cc:219-263 | returns the label and leaves the table that the specification of a request gives; old records are untouched |
| `Runtime.TaintRuntime.NewLabel` | llvm_mode/dfsan_rt/dfsan/dfsan.cc:243-262 | appends one record and keeps table, index and cache consistent |
| `Runtime.TaintRuntime.UnionLoad` | llvm_mode/dfsan_rt/dfsan/dfsan.cc:266-356 | returns the label and leaves the table that the specification of a load gives; what that label is and denotes is in LoadMeans, UntaintedLoad, WideMeans, ShapeExact and ConcreteStartExact |
| `Runtime.TaintRuntime.LoadSlow` | llvm_mode/dfsan_rt/dfsan/dfsan.cc:330-355 | the concatenation loop agrees with its recursive specification |
| `Runtime.TaintRuntime.LoadNext` | llvm_mode/dfsan_rt/dfsan/dfsan.cc:333-353 | one turn: the next label or a concrete byte |
| `Runtime.TaintRuntime.LoadTainted` | llvm_mode/dfsan_rt/dfsan/dfsan.cc:337-347 | as much of the next label as the load has room for |
| `Runtime.TaintRuntime.IsShape` | llvm_mode/dfsan_rt/dfsan/dfsan.cc:288-303 | decides the shape test |
| `Runtime.TaintRuntime.CoveredByExtracts` | llvm_mode/dfsan_rt/dfsan/dfsan.cc:313-323 | the bits covered by the leading run of extracts |
| `Runtime.TaintRuntime.UnionStore` | llvm_mode/dfsan_rt/dfsan/dfsan.cc:359-401 | writes the shadow labels and leaves the table that the specification of a store gives |
| `Runtime.TaintRuntime.StoreExtracts` | llvm_mode/dfsan_rt/dfsan/dfsan.cc:397-400 | the fall-through loop agrees with its recursive specification |
| `Runtime.TaintRuntime.CacheExpr` | llvm_mode/dfsan_rt/dfsan/dfsan.cc:581-585 | remembers a result and keeps every cached result right |
| `Runtime.TaintRuntime.Remember` | llvm_mode/dfsan_rt/dfsan/dfsan.cc:581-585 | a result built from the operands is fit to be cached |
| `Runtime.TaintRuntime.Serialize` | llvm_mode/dfsan_rt/dfsan/dfsan.cc:587-747 | the memoised expression equals the one of the cache-free recursion, whose value the laws of Operators give in integers; the offsets are exactly those handed in, those it mentions and those in the caches below the label, hence just the first two unless a comparison hands offsets to a part of it; a success leaves everything below cached, only labels below get caches, none is changed |
| `Runtime.TaintRuntime.SerializeCreated` | llvm_mode/dfsan_rt/dfsan/dfsan.cc:597-747 | the same for labels of operations, from the cache or by operator; a label has a value exactly where Operators says |
| `Runtime.TaintRuntime.SerializeInput` | llvm_mode/dfsan_rt/dfsan/dfsan.cc:588-611 | an input byte, not cached, and the constant, which has no expression |
| `Runtime.TaintRuntime.SerializeLoad` | llvm_mode/dfsan_rt/dfsan/dfsan.cc:612-624 | consecutive input bytes, low byte first |
| `Runtime.TaintRuntime.SerializeUnary` | llvm_mode/dfsan_rt/dfsan/dfsan.cc:625-645 | widening, truncation, extraction |
| `Runtime.TaintRuntime.SerializeNegation` | llvm_mode/dfsan_rt/dfsan/dfsan.cc:646-663 | negations of the second operand, with their exceptions |
| `Runtime.TaintRuntime.SerializeMemcmp` | llvm_mode/dfsan_rt/dfsan/dfsan.cc:665-675 | a memory comparison; a second operand that had no cache and is not part of the first is left with all that the comparison collected, which are its own offsets if and only if it mentions the rest itself |
| `Runtime.TaintRuntime.SerializeBlocks` | llvm_mode/dfsan_rt/dfsan/dfsan.cc:667-671 | both operands into one set: exactly the offsets handed in, mentioned and stored below |
| `Runtime.SpilledOffsets` | llvm_mode/dfsan_rt/dfsan/dfsan.cc:667-671 | on a file of four bytes, comparing bytes 0 and 1 with bytes 2 and 3 leaves the second load with four cached offsets although it mentions two |
| `Runtime.ExactBesideComparison` | llvm_mode/dfsan_rt/dfsan/dfsan.cc:667-671 | in a table with a comparison, its first operand and labels apart from it keep exact offsets, the second operand does not |
| `Runtime.TaintRuntime.SerializeCommon` | llvm_mode/dfsan_rt/dfsan/dfsan.cc:692-746 | two-operand operators: the expression of the recursion, whose value is that of Operators.ArithmeticValue, BitwiseValue, ComparisonValue and ConcatValue |
| `Runtime.TaintRuntime.SerializeOperands` | llvm_mode/dfsan_rt/dfsan/dfsan.cc:692-720 | constant widths, and the second operand with its own offset set: exactly the offsets handed in, mentioned and stored below |
| `Runtime.TaintRuntime.AddConstraints` | llvm_mode/dfsan_rt/dfsan/dfsan.cc:802-827 | once per label, appends its condition to the path; a true condition keeps the path satisfied by the original input; a label with exact offsets is recorded for its own bytes only |
| `Runtime.TaintRuntime.SolveCond` | llvm_mode/dfsan_rt/dfsan/dfsan.cc:829-925 | skips marked labels only; fails on labels without a condition; otherwise delivers the outcome of the two checks with its promise about branch and path, extends the path by the branch as taken, for its own bytes if its offsets are exact, and marks the label unless there was an exception |
| `Runtime.TaintRuntime.Decide` | llvm_mode/dfsan_rt/dfsan/dfsan.cc:845-917 | component, query and nested recording of one condition, with the outcome of the query for its slice |
| `Runtime.TaintRuntime.RecordTaken` | llvm_mode/dfsan_rt/dfsan/dfsan.cc:903-917 | the branch as taken, recorded at its component |
| `Runtime.TaintRuntime.Admit` | llvm_mode/dfsan_rt/dfsan/dfsan.cc:934-941 | the per-context counter |
| `Runtime.TaintRuntime.TraceCond` | llvm_mode/dfsan_rt/dfsan/dfsan.cc:957-975 | a branch on a label: the counters afterwards, when it is ignored, which label is marked, what is delivered, and that the original input keeps satisfying the path |
| `Runtime.TaintRuntime.TraceCmp` | llvm_mode/dfsan_rt/dfsan/dfsan.cc:928-954 | a comparison of a switch: the same, with the result of the integer relation between the concrete operands; the path grows only for the case taken |
| `Runtime.ComparisonMatches` | llvm_mode/dfsan_rt/dfsan/dfsan.cc:945-949 | the label of a comparison has, on the original input, the truth value of the integer relation between the concrete operands, without reference to the table of predicates |
| `BranchFilter.TracedIsCapped` | llvm_mode/dfsan_rt/dfsan/dfsan.cc:934-941 | the same from any counters, for the number of traced visits |
| `BranchFilter.SixteenTraced` | llvm_mode/dfsan_rt/dfsan/dfsan.cc:934-941 | over every run from the start a visit of a context is traced if and only if fewer than 16 visits of it came before, so at most 16 are |
| `AddrHashMapProofs.RunSafe` | llvm_mode/dfsan_rt/sanitizer_common/sanitizer_addrhashmap.h:167-343 | in every interleaving no check fails, and whenever the bucket is not write-locked no address is in two cells, overflow cells below the size are in use and the others empty, and a non-empty overflow array means that all three embedded cells are full |
| `AddrHashMapProofs.RunInv` | llvm_mode/dfsan_rt/sanitizer_common/sanitizer_addrhashmap.h:167-343 | the invariant behind it, with the shape of the bucket at every step of a creation, removal or move |
| `AddrHashMapProofs.WriterKeeps` | llvm_mode/dfsan_rt/sanitizer_common/sanitizer_addrhashmap.h:211-337 | every step under the write lock keeps it and leaves all embedded cells but the removed one alone |
| `AddrHashMapProofs.OthersKeep` | llvm_mode/dfsan_rt/sanitizer_common/sanitizer_addrhashmap.h:182-209 | every step without the write lock changes no cell |
| `AddrHashMapProofs.AbsenceIsTrue` | llvm_mode/dfsan_rt/sanitizer_common/sanitizer_addrhashmap.h:246-250 | absence is reported only to a handle that is to remove or not to create, and at an instant when the address is in no cell |
| `AddrHashMapProofs.StepRefinesMap` | llvm_mode/dfsan_rt/sanitizer_common/sanitizer_addrhashmap.h:167-343 | every step is one operation of a map or none: completing a creation adds an absent key and only for a handle that asked to create, clearing a cell removes a present one and only for a handle that asked to remove, moving an element changes nothing |
| `AddrHashMapProofs.ChangesAreAsked` | llvm_mode/dfsan_rt/sanitizer_common/sanitizer_addrhashmap.h:211-343 | over every run a key appears only by a handle with create and without remove, and disappears only by one with remove |
| `AddrHashMapProofs.AskedKept` | llvm_mode/dfsan_rt/sanitizer_common/sanitizer_addrhashmap.h:167-343 | no step changes what a handle was asked to do |
| `AddrHashMapSolo.AcquireAlone` | llvm_mode/dfsan_rt/sanitizer_common/sanitizer_addrhashmap.h:167-294 | acquire without interference ends, for every bucket and every combination of create and remove: at the cell of its key, write-locked if it is to be removed; without a cell if there is none and it is not to be created; else at a reserved empty cell, the map unchanged |
| `AddrHashMapSolo.RetryAlone` | llvm_mode/dfsan_rt/sanitizer_common/sanitizer_addrhashmap.h:215-244 | a handle that finds under the lock a key created since its first look lets go and finds it again without the lock |
| `AddrHashMapSolo.ReleaseAlone` | llvm_mode/dfsan_rt/sanitizer_common/sanitizer_addrhashmap.h:296-337 | release without interference ends with the lock free and the bucket in order: the new key is in the map after a creation, the key is gone after a removal, all other keys keep their values |
| `AddrHashMapSolo.ReadReleaseAlone` | llvm_mode/dfsan_rt/sanitizer_common/sanitizer_addrhashmap.h:338-343 | releasing a read handle changes nothing but its read lock |
| `AddrHashMapSolo.OneWay` | llvm_mode/dfsan_rt/sanitizer_common/sanitizer_addrhashmap.h:167-343 | each of these ends is passed by every run of the handle alone that goes on for long enough, since no step leaves a choice |
| `AddrHashMapProofs.Functional` | llvm_mode/dfsan_rt/sanitizer_common/sanitizer_addrhashmap.h:315-333 | a key has one value, also while its element is in two cells |
| `AddrHashMapProofs.KeyPersists` | llvm_mode/dfsan_rt/sanitizer_common/sanitizer_addrhashmap.h:296-343 | over any stretch of any run a key keeps its value until it is removed |
| `AddrHashMapProofs.ReaderSeesMap` | llvm_mode/dfsan_rt/sanitizer_common/sanitizer_addrhashmap.h:186-207 | a read handle refers to the cell that holds its key |
| `AddrHashMapProofs.ReaderUndisturbed` | llvm_mode/dfsan_rt/sanitizer_common/sanitizer_addrhashmap.h:338-342 | no step of another handle changes the cell of a read handle |
| `AddrHashMapProofs.OvertakenReaderCrashes` | llvm_mode/dfsan_rt/sanitizer_common/sanitizer_addrhashmap.h:338-342 | clearing a cell under a live reader of its key makes the reader's check fail |
| `AddrHashMapProofs.CellsExist` | llvm_mode/dfsan_rt/sanitizer_common/sanitizer_addrhashmap.h:287-337 | the cells a handle is about to touch exist |
| `AddrHashMapProofs.GrowCapValue` | llvm_mode/dfsan_rt/sanitizer_common/sanitizer_addrhashmap.h:274-286 | growing more than doubles the capacity, and the cells fit the allocation, for every cell size |
| `AddrHashMapProofs.SourceCaps` | llvm_mode/dfsan_rt/sanitizer_common/sanitizer_addrhashmap.h:264-286 | the capacities computed by the program are as the invariant needs them, for every cell size; for cells of more than 48 bytes the first one counts cells without memory, as InitCapFits says, and runs with such cells are not covered |
| `AddrHashMapProofs.InitCapFits` | llvm_mode/dfsan_rt/sanitizer_common/sanitizer_addrhashmap.h:264-272 | the first cells fit their allocation if and only if a cell has at most 48 bytes; for larger ones the subtraction wraps |
| `ByteMap.RunSafe` | llvm_mode/dfsan_rt/sanitizer_common/sanitizer_allocator_bytemap.h:65-70 | in every interleaving of write-once sets and gets no check fails |
| `ByteMap.PublishedOnce` | llvm_mode/dfsan_rt/sanitizer_common/sanitizer_allocator_bytemap.h:86-98 | a first-level slot is published at most once |
| `ByteMap.SetIsKept` | llvm_mode/dfsan_rt/sanitizer_common/sanitizer_allocator_bytemap.h:65-70 | a completed set is never lost |
| `ByteMap.StepRefinesFlat` | llvm_mode/dfsan_rt/sanitizer_common/sanitizer_allocator_bytemap.h:19-37 | every step is one permitted set of the flat map, or leaves it unchanged |
| `ByteMap.GetRefinesFlat` | llvm_mode/dfsan_rt/sanitizer_common/sanitizer_allocator_bytemap.h:72-77 | a get returns what the flat map holds at one instant of the call |
| `ByteMap.CallAlone` | llvm_mode/dfsan_rt/sanitizer_common/sanitizer_allocator_bytemap.h:65-98 | from every reachable state in which nobody else holds the lock a call can run alone to its end: a set with its byte in the map and all others as they were, a get with the byte of the map |
| `Division.SignTrick` | llvm_mode/dfsan_rt/builtins/udivmoddi4.c:223-225 | the sign of the wrapped d - r - 1 decides r >= d |
| `Division.LoopStart` | llvm_mode/dfsan_rt/builtins/udivmoddi4.c:202-207 | the initial words satisfy the loop invariant |
| `Division.LoopTurn` | llvm_mode/dfsan_rt/builtins/udivmoddi4.c:209-226 | one turn of the loop keeps it, without losing a bit |
| `Division.LoopEnd` | llvm_mode/dfsan_rt/builtins/udivmoddi4.c:227-230 | the final words are quotient and remainder |
| `Division.UDivWord` | llvm_mode/dfsan_rt/builtins/udivsi3.c:23-64 | the exact quotient for words of any width, zero for a zero divisor |
| `Division.DivideWord` | llvm_mode/dfsan_rt/builtins/udivsi3.c:43-63 | the loop on single words |
| `WideDivision.UDivMod` | llvm_mode/dfsan_rt/builtins/udivmoddi4.c:24-231 | exact quotient and remainder of two-word numbers for every word width and every non-zero divisor (w = 64 is udivmodti4.c, lines 26 to 236) |
| `WideDivision.DivideByHigh` | llvm_mode/dfsan_rt/builtins/udivmoddi4.c:57-118 | divisors that end in a zero word |
| `WideDivision.DivideByLow` | llvm_mode/dfsan_rt/builtins/udivmoddi4.c:121-169 | divisors of a single word |
| `WideDivision.DivideByBoth` | llvm_mode/dfsan_rt/builtins/udivmoddi4.c:170-200 | divisors that use both words |
| `WideDivision.InitialShift` | llvm_mode/dfsan_rt/builtins/udivmoddi4.c:143-169 | the three ways to shift a pair apart |
| `WideDivision.PairTurn` | llvm_mode/dfsan_rt/builtins/udivmoddi4.c:211-225 | one turn on halves is one turn on the numbers |
| `WideDivision.DividePair` | llvm_mode/dfsan_rt/builtins/udivmoddi4.c:208-230 | the loop on halves |
| `Multiplication.MulWords` | llvm_mode/dfsan_rt/builtins/muldi3.c:21-39 | the full double-width product |
| `Multiplication.MulDigits` | llvm_mode/dfsan_rt/builtins/multi3.c:23-41 | the same with no carry lost, for any half-word base |
| `Multiplication.AddCross` | llvm_mode/dfsan_rt/builtins/muldi3.c:27-31 | adding a cross product half a word up, with its carry |
| `Multiplication.WideMultiply` | llvm_mode/dfsan_rt/builtins/fp_lib.h:87-99 | high and low word of the product |
| `SignedArith.MulSigned` | llvm_mode/dfsan_rt/builtins/muldi3.c:44-54 | the product modulo the width for all signed operands |
| `SignedArith.MulOverflow` | llvm_mode/dfsan_rt/builtins/mulodi4.c:22-58 | the wrapped product, and the flag if and only if the true product is out of range |
| `SignedArith.TruncLaw` | llvm_mode/dfsan_rt/builtins/divdi3.c:20-29 | quotient and remainder truncate toward zero and belong together (section 6.5.5 of C11) |
| `SignedArith.DivSigned` | llvm_mode/dfsan_rt/builtins/divdi3.c:20-29 | the truncated quotient, except that the most negative number divided by -1 gives itself |
| `SignedArith.ModSigned` | llvm_mode/dfsan_rt/builtins/moddi3.c:20-30 | the truncated remainder for all operands |
| `FloatFormat.ValueMono` | llvm_mode/dfsan_rt/builtins/fp_lib.h:216-230 | larger encodings denote larger values |
| `FloatFormat.NearestByNeighbours` | llvm_mode/dfsan_rt/builtins/fp_lib.h:216-230 | nearest among all encodings if it beats its two neighbours, ties to even |
| `FloatFormat.NearestUnique` | llvm_mode/dfsan_rt/builtins/fp_lib.h:216-230 | the nearest encoding, ties to even, is unique |
| `IntToFloat.RoundedIsNearest` | llvm_mode/dfsan_rt/builtins/floatundisf.c:33-73 | rounding the leading digits half to even gives the nearest encoding, carry into the exponent included |
| `IntToFloat.KeepGuardBits` | llvm_mode/dfsan_rt/builtins/floatundisf.c:43-53 | shifting right keeps what is lost in a sticky bit |
| `IntToFloat.RoundToDigits` | llvm_mode/dfsan_rt/builtins/floatundisf.c:33-70 | or-ing, incrementing in the word and renormalising rounds half to even, in words of at least three bits more than are kept |
| `IntToFloat.FloatUnsigned` | llvm_mode/dfsan_rt/builtins/floatundisf.c:26-75 | the conversion for any precision and any word of at least three bits more is convertFromInt of section 5.4.1 of IEEE 754-2008 |
| `IntToFloat.FloatUnDiSf` | llvm_mode/dfsan_rt/builtins/floatundisf.c:26-75 | 64 bits to binary32 |
| `IntToFloat.FloatDiSf` | llvm_mode/dfsan_rt/builtins/floatdisf.c:26-78 | signed 64 bits to binary32, the most negative number included |
| `IntToFloat.FloatUnTiSf` | llvm_mode/dfsan_rt/builtins/floatuntisf.c:28-77 | 128 bits to binary32, infinity exactly from 2^128 - 2^103 on |
| `IntToFloat.FloatUnTiDf` | llvm_mode/dfsan_rt/builtins/floatuntidf.c:28-78 | 128 bits to binary64, built from two half words |
| `IntToFloat.FloatUnSiSf` | llvm_mode/dfsan_rt/builtins/floatunsisf.c:22-48 | 32 bits to binary32 by comparing with half |
| `IntToFloat.RoundedRightShift` | llvm_mode/dfsan_rt/builtins/floatunsisf.c:37-43 | the comparison with half rounds half to even |
| `IntToFloat.ConvertBothWays` | llvm_mode/dfsan_rt/builtins/floatunsisf.c:22-48 | both algorithms give the same bits for every 32-bit number |
| `DivSf3.ReciprocalBelow` | llvm_mode/dfsan_rt/builtins/divsf3.c:81-105 | three Newton steps and the final bump give a reciprocal strictly below the true one, within a fixed bound |
| `DivSf3.QuotientBelow` | llvm_mode/dfsan_rt/builtins/divsf3.c:107-119 | the truncated product is below the true quotient, by less than one and a quarter units |
| `DivSf3.NoTie` | llvm_mode/dfsan_rt/builtins/divsf3.c:130-131 | an exact half never occurs |
| `DivSf3.RoundResidual` | llvm_mode/dfsan_rt/builtins/divsf3.c:157-163 | comparing the doubled residual with the divisor rounds to nearest |
| `DivSf3.Invert` | llvm_mode/dfsan_rt/builtins/divsf3.c:81-105 | the reciprocal of any normalised divisor, with wrapping arithmetic |
| `DivSf3.RoundedQuotient` | llvm_mode/dfsan_rt/builtins/divsf3.c:119-141 | significand, rounding bit and shift; the wrapped 32-bit residual is exact |
| `DivSf3.Normalize` | llvm_mode/dfsan_rt/builtins/fp_lib.h:242-246 | the shifted significand and its exponent |
| `DivSf3.Unpack` | llvm_mode/dfsan_rt/builtins/divsf3.c:25-75 | significand and exponent of any finite non-zero operand, subnormal ones included |
| `DivSf3.DivideSpecial` | llvm_mode/dfsan_rt/builtins/divsf3.c:34-61 | NaN, infinite and zero operands, down to the bits of the result |
| `DivSf3.Pack` | llvm_mode/dfsan_rt/builtins/divsf3.c:143-166 | infinity above the range, zero below it, fields in between |
| `DivSf3.DivideFinite` | llvm_mode/dfsan_rt/builtins/divsf3.c:73-166 | the quotient of finite non-zero operands is correctly rounded if and only if it is above 2^-126 or rounds to zero anyway |
| `DivSf3.Divide` | llvm_mode/dfsan_rt/builtins/divsf3.c:22-167 | the same for all operands, with sign and special cases |
| `DivSf3.DivideMinNormalByOne` | llvm_mode/dfsan_rt/builtins/divsf3.c:150-154 | the smallest normal number divided by one gives zero |

## Left out

- The solver, its timeouts, file writing in `generate_input` (only the patched bytes are modelled) and file-size constraints.
- Standard input mode, where labels are created later, and `kInitializingLabel`.
- Running out of labels or memory, which ends the program.
- The `tree_size` and `hash` fields of a label, which nothing modelled here reads.
- The numbers of LLVM's opcodes enter the bucket number only; they come from a header that is not part of this model.
- Exclusive or of two booleans follows current solver bindings, where it is the logical one.
- `__taint_trace_gep` after its early return, `__taint_trace_indcall` and the wrappers of C library functions.
- Memory ordering weaker than sequential consistency in the concurrent maps, and freeing of the overflow array.
- Division by zero in `__udivmoddi4`, which is undefined there.
- Quad and double precision division, which repeat the argument for single precision with more steps.
- The LLVM passes, the compiler wrapper and Pin mode.
- Slicing.Query: constraints are collected before the second check in one set, so the order in which the solver receives them is not modelled.
- Shadow labels and program bytes are passed to a load as sequences; the layout of shadow memory is not modelled.
- Runtime.TaintRuntime.UnionLoad: a range taken for input bytes past the end of the file is left to `LoadMeaning.LoadWf`, since the state is not well formed after it and recording a condition on the label raises an exception that is not caught.
- LoadTheorems.ShapeExact: bytes that are bit-vectors of another width than eight, whose joint width could match by accident, are excluded.
- AddrHashMapProofs.SourceCaps: runs with cells of more than 48 bytes, which the program does not have memory for, are not modelled.
- AddrHashMapProofs.GrowCapValue: allocations of 2^63 bytes and more, where doubling wraps, are not modelled.
