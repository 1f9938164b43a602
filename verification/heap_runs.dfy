/** What malloc, free and realloc do to a whole heap whose chains are marked complete, as
    steps on values, and what every run of such steps keeps. The counters follow the
    source, including the second adjustment of a shrinking realloc (heap.c:318-320). The
    same with the chains marked as the source marks them is `HeapAsWritten`. */
module HeapRuns {
  import opened Common
  import opened BlockTable

  /** The 4096 bytes of one block. */
  datatype Block = Block(bytes: seq<bv8>)

  function ZeroBlock(): Block { Block(seq(BLOCK_SIZE, _ => 0)) }

  datatype State = State(table: seq<BlockEntry>, data: seq<Block>, used: nat, free: nat)

  ghost predicate Inv(st: State) {
    WellFormed(st.table) && |st.data| == |st.table|
  }

  /** The value of a `size_t` after an addition or a subtraction. */
  function Wrap(x: int): (r: nat)
    ensures r < WORD
    ensures 0 <= x < WORD ==> r == x
  {
    x % WORD
  }

  function Counted(st: State, taken: int): State {
    st.(used := Wrap(st.used + taken), free := Wrap(st.free - taken))
  }

  /** Blocks needed for `size` bytes. */
  function BlocksFor(size: nat): nat { (size + BLOCK_SIZE - 1) / BLOCK_SIZE }

  /** The block count that malloc and realloc compute for `size` bytes: rounding up a size
      in the last block's worth of `size_t` wraps to 0. */
  function Requested(size: nat): (n: nat)
    ensures size <= WORD - BLOCK_SIZE ==> n == BlocksFor(size)
    ensures WORD - BLOCK_SIZE < size < WORD ==> n == 0
  {
    BlocksFor(size) % (WORD / BLOCK_SIZE)
  }

  /** The allocation at `s` becomes one of `m` blocks at the same place; none for `m` = 0. */
  function Resized(t: seq<BlockEntry>, s: nat, m: nat): (r: seq<BlockEntry>)
    requires s < |t|
    ensures |r| == |t|
  {
    MarkTaken(MarkFree(t, s, ChainLength(t, s)), s, m)
  }

  /** The allocation at `s` has moved to the free run of `m` blocks at `d`. */
  function Moved(t: seq<BlockEntry>, s: nat, d: nat, m: nat): (r: seq<BlockEntry>)
    requires s < |t|
    ensures |r| == |t|
  {
    MarkFree(MarkTaken(t, d, m), s, ChainLength(t, s))
  }

  /** `c` blocks copied, the rest of the `m` new blocks zeroed. */
  function Copied(data: seq<Block>, from: nat, to: nat, c: nat, m: nat): (r: seq<Block>)
    requires from + c <= |data| && c <= m && to + m <= |data|
    ensures |r| == |data|
    ensures forall i :: 0 <= i < |data| ==>
      r[i] == if to <= i < to + c then data[from + (i - to)] else if to <= i < to + m then ZeroBlock() else data[i]
  {
    seq(|data|, i requires 0 <= i < |data| =>
      if to <= i < to + c then data[from + (i - to)] else if to <= i < to + m then ZeroBlock() else data[i])
  }

  function Zeroed(data: seq<Block>, s: nat, n: nat): (r: seq<Block>)
    ensures |r| == |data|
    ensures forall i :: 0 <= i < |data| ==> r[i] == if s <= i < s + n then ZeroBlock() else data[i]
  {
    seq(|data|, i requires 0 <= i < |data| => if s <= i < s + n then ZeroBlock() else data[i])
  }

  /** memset of `size` bytes to zero from block `s` on: whole blocks, then the start of one. */
  function ZeroedBytes(data: seq<Block>, s: nat, size: nat): (r: seq<Block>)
    ensures |r| == |data|
    ensures forall i :: 0 <= i < |data| ==> r[i] == ZeroedAt(data[i], i, s, size)
    ensures size % BLOCK_SIZE == 0 ==> r == Zeroed(data, s, size / BLOCK_SIZE)
  {
    seq(|data|, i requires 0 <= i < |data| => ZeroedAt(data[i], i, s, size))
  }

  function ZeroedAt(b: Block, i: nat, s: nat, size: nat): Block {
    if s <= i < s + size / BLOCK_SIZE then ZeroBlock()
    else if i == s + size / BLOCK_SIZE && size % BLOCK_SIZE != 0 then ZeroedPart(b, size % BLOCK_SIZE)
    else b
  }

  function ZeroedPart(b: Block, n: nat): Block {
    Block(seq(|b.bytes|, i requires 0 <= i < |b.bytes| => if i < n then 0 else b.bytes[i]))
  }

  ghost function MallocStep(st: State, n: nat): State {
    var s := FirstFit(st.table, n);
    if s < 0 then st else Counted(st.(table := MarkTaken(st.table, s, n)), n)
  }

  ghost function FreeStep(st: State, s: nat): State
    requires s < |st.table|
  {
    var n := ChainLength(st.table, s);
    Counted(st.(table := MarkFree(st.table, s, n)), -(n as int))
  }

  /** The three paths of realloc to `m` blocks, `s` being a live start; the second
      result is the new start, -1 when realloc returns NULL. `m` is 0 for a size that
      wraps: every block is freed and the old pointer returned. */
  ghost function ReallocStep(st: State, s: nat, m: nat): (State, int)
    requires Inv(st) && s in Allocs(st.table)
  {
    var c := ChainLength(st.table, s);
    if m <= c then (Counted(st.(table := Resized(st.table, s, m)), -2 * (c - m)), s)
    else if FreeRun(st.table, s + c, m - c) then (Counted(st.(table := Resized(st.table, s, m)), m - c), s)
    else
      var d := FirstFit(st.table, m);
      if d < 0 then (st, -1)
      else (Counted(st.(table := Moved(st.table, s, d, m), data := Copied(st.data, s, d, c, m)), m - c), d)
  }

  // ---------------------------------------------------------------- realloc

  /** Growing or shrinking in place. */
  lemma ResizedAllocs(t: seq<BlockEntry>, s: nat, m: nat)
    requires WellFormed(t) && s in Allocs(t)
    requires m <= Allocs(t)[s] || FreeRun(t, s + Allocs(t)[s], m - Allocs(t)[s])
    ensures s + m <= |t|
    ensures WellFormed(Resized(t, s, m))
    ensures Allocs(Resized(t, s, m)) == if m == 0 then Allocs(t) - {s} else Allocs(t)[s := m]
    ensures Used(Resized(t, s, m)) == Used(t) - Allocs(t)[s] + m
  {
    hide WellFormed, MarkTaken, MarkFree, Taken, First, HasNext, ChainEntry;
    var c := Allocs(t)[s];
    var u := MarkFree(t, s, c);
    AllocTaken(t, s);
    MarkFreeAllocs(t, s);
    MarkFreeUsed(t, s, c);
    if m == 0 {
      assert MarkTaken(u, s, 0) == u;
      return;
    }
    assert FreeRun(u, s, m);
    MarkTakenAllocs(u, s, m);
    MarkTakenUsed(u, s, m);
    assert (Allocs(t) - {s})[s := m] == Allocs(t)[s := m];
  }

  /** Every allocation but the one at `s` keeps its bytes. */
  ghost predicate OthersKeepBytes(st: State, after: State, s: nat) {
    forall o, i :: o in Allocs(st.table) && o != s && o <= i < o + Allocs(st.table)[o]
      ==> i < |st.data| && i < |after.data| && after.data[i] == st.data[i]
  }

  /** The allocation at `s` has become one of `m` blocks at `d` that starts with the old
      bytes; every other allocation keeps its place and its bytes. */
  ghost predicate Reallocated(st: State, after: State, s: nat, d: nat, m: nat)
    requires s in Allocs(st.table)
  {
    var c := Allocs(st.table)[s];
    && Inv(after)
    && Allocs(after.table) == (Allocs(st.table) - {s})[d := m]
    && d + m <= |after.data| && s + c <= |st.data|
    && after.data[d..d + Min(c, m)] == st.data[s..s + Min(c, m)]
    && OthersKeepBytes(st, after, s)
  }

  /** Realloc on all three paths: on failure the state is untouched; otherwise the old
      allocation is replaced by one of `m` blocks that starts with the old bytes, and
      every other allocation keeps its place and its bytes. For `m` = 0 the allocation is
      gone, although its address is returned. */
  lemma ReallocCorrect(st: State, s: nat, m: nat)
    requires Inv(st) && s in Allocs(st.table)
    ensures var (after, d) := ReallocStep(st, s, m);
            && (d < 0 ==> after == st && m > Allocs(st.table)[s] && !exists r: nat :: FreeRun(st.table, r, m))
            && (d >= 0 && m > 0 ==> Reallocated(st, after, s, d, m))
            && (m == 0 ==>
                  d == s && Inv(after) && after.data == st.data && Allocs(after.table) == Allocs(st.table) - {s})
  {
    var t := st.table;
    var c := ChainLength(t, s);
    hide WellFormed, Wrap, Resized, Moved, Copied, First, HasNext, Taken, ChainEntry, Reallocated;
    var d := ReallocStep(st, s, m).1;
    if m == 0 {
      ResizedAllocs(t, s, 0);
    } else if m <= c || FreeRun(t, s + c, m - c) {
      InPlaceCorrect(st, s, m);
    } else if d < 0 {
      forall r: nat ensures !FreeRun(t, r, m) {
        if FreeRun(t, r, m) { FirstFitExists(t, r, m); }
      }
    } else {
      MoveCorrect(st, s, d, m);
    }
  }

  lemma InPlaceCorrect(st: State, s: nat, m: nat)
    requires Inv(st) && s in Allocs(st.table) && m > 0
    requires m <= Allocs(st.table)[s] || FreeRun(st.table, s + Allocs(st.table)[s], m - Allocs(st.table)[s])
    ensures Reallocated(st, ReallocStep(st, s, m).0, s, s, m)
  {
    hide WellFormed, Wrap, Resized, Moved, Copied, First, HasNext, Taken, ChainEntry;
    ResizedAllocs(st.table, s, m);
    AllocsInside(st.table);
    assert (Allocs(st.table) - {s})[s := m] == Allocs(st.table)[s := m];
  }

  lemma MoveCorrect(st: State, s: nat, d: nat, m: nat)
    requires Inv(st) && s in Allocs(st.table) && m > Allocs(st.table)[s] && FreeRun(st.table, d, m)
    ensures forall u, f :: Reallocated(st,
      State(Moved(st.table, s, d, m), Copied(st.data, s, d, Allocs(st.table)[s], m), u, f), s, d, m)
  {
    hide WellFormed, Moved, Copied, First, HasNext, Taken, ChainEntry;
    MovedAllocs(st.table, s, d, m);
    CopiedKeeps(st.table, st.data, s, d, m);
    AllocsInside(st.table);
  }

  lemma AllocsInside(t: seq<BlockEntry>)
    ensures forall o :: o in Allocs(t) ==> o + Allocs(t)[o] <= |t|
  {
  }

  /** The blocks of a live allocation are taken. */
  lemma AllocTaken(t: seq<BlockEntry>, s: nat)
    requires WellFormed(t) && s in Allocs(t)
    ensures forall i :: s <= i < s + Allocs(t)[s] ==> Taken(t[i]) && t[i] != FREE
  {
    assert EntryOk(t, s);
    ChainShape(t, s);
  }

  /** Moving: the new chain at `d`, then the old one at `s` freed. */
  lemma MovedAllocs(t: seq<BlockEntry>, s: nat, d: nat, m: nat)
    requires WellFormed(t) && s in Allocs(t) && m >= 1 && FreeRun(t, d, m)
    ensures WellFormed(Moved(t, s, d, m)) && Allocs(Moved(t, s, d, m)) == (Allocs(t) - {s})[d := m]
    ensures Used(Moved(t, s, d, m)) == Used(t) + m - Allocs(t)[s]
  {
    hide WellFormed, MarkTaken, MarkFree, Taken, First, HasNext, ChainEntry;
    var u := MarkTaken(t, d, m);
    MarkTakenAllocs(t, d, m);
    MarkTakenUsed(t, d, m);
    AllocTaken(t, s);
    assert s != d by { assert t[d] == FREE; }
    assert s in Allocs(u) && Allocs(u)[s] == Allocs(t)[s];
    AllocTaken(u, s);
    MarkFreeAllocs(u, s);
    MarkFreeUsed(u, s, Allocs(u)[s]);
    assert Allocs(t)[d := m] - {s} == (Allocs(t) - {s})[d := m];
  }

  lemma CopiedKeeps(t: seq<BlockEntry>, data: seq<Block>, s: nat, d: nat, m: nat)
    requires WellFormed(t) && s in Allocs(t) && m > Allocs(t)[s] && FreeRun(t, d, m) && |data| == |t|
    ensures s + Allocs(t)[s] <= |t|
    ensures var c := Allocs(t)[s];
            var data' := Copied(data, s, d, c, m);
            && data'[d..d + c] == data[s..s + c]
            && (forall o, i :: o in Allocs(t) && o <= i < o + Allocs(t)[o] ==> data'[i] == data[i])
  {
    hide WellFormed, First, HasNext, Taken, ChainEntry;
    var c := Allocs(t)[s];
    var data' := Copied(data, s, d, c, m);
    var copy, original := data'[d..d + c], data[s..s + c];
    forall i | 0 <= i < c
      ensures copy[i] == original[i]
    {
      assert data'[d + i] == data[s + (d + i - d)];
    }
    forall o, i | o in Allocs(t) && o <= i < o + Allocs(t)[o]
      ensures data'[i] == data[i]
    {
      AllocTaken(t, o);
      assert t[i] != FREE;
    }
  }

  // ------------------------------------------------------------------- runs

  datatype Op = Malloc(n: nat) | Free(s: nat) | Realloc(s: nat, m: nat)

  ghost predicate LegalOp(st: State, op: Op) {
    Inv(st) && match op
      case Malloc(_) => true
      case Free(s) => s in Allocs(st.table)
      case Realloc(s, _) => s in Allocs(st.table)
  }

  ghost function Step(st: State, op: Op): State
    requires LegalOp(st, op)
  {
    match op
    case Malloc(n) => MallocStep(st, n)
    case Free(s) => FreeStep(st, s)
    case Realloc(s, m) => ReallocStep(st, s, m).0
  }

  /** Blocks by which the operation shrinks an allocation. */
  ghost function Shrink(st: State, op: Op): nat
    requires LegalOp(st, op)
  {
    if op.Realloc? && op.m < Allocs(st.table)[op.s] then Allocs(st.table)[op.s] - op.m else 0
  }

  /** Live allocations after one operation. */
  lemma StepCorrect(st: State, op: Op)
    requires LegalOp(st, op)
    ensures var after := Step(st, op);
            && Inv(after) && |after.table| == |st.table|
            && (op.Malloc? ==>
                  var s := FirstFit(st.table, op.n);
                  Allocs(after.table) == if s < 0 then Allocs(st.table) else Allocs(st.table)[s as nat := op.n])
            && (op.Free? ==> Allocs(after.table) == Allocs(st.table) - {op.s})
            && (op.Free? || op.Malloc? ==> after.data == st.data)
  {
    match op
    case Malloc(n) =>
      var s := FirstFit(st.table, n);
      if s >= 0 { MarkTakenAllocs(st.table, s, n); }
    case Free(s) => MarkFreeAllocs(st.table, s);
    case Realloc(s, m) => ReallocCorrect(st, s, m);
  }

  /** The counters, off by `drift` blocks. */
  ghost predicate CountsOff(st: State, drift: int) {
    st.used == Wrap(Used(st.table) - drift) && st.free == Wrap(|st.table| - Used(st.table) + drift)
  }

  lemma WrapAdd(x: int, y: int)
    ensures Wrap(Wrap(x) + y) == Wrap(x + y)
  {
    assert x % WORD + y == x + y - WORD * (x / WORD);
  }

  /** Counting `taken` blocks when the table gained `shrink` more than that. */
  lemma CountsShift(st: State, after: State, taken: int, drift: int, shrink: int)
    requires CountsOff(st, drift) && |after.table| == |st.table|
    requires Used(after.table) == Used(st.table) + taken + shrink
    requires after.used == Wrap(st.used + taken) && after.free == Wrap(st.free - taken)
    ensures CountsOff(after, drift + shrink)
  {
    hide Wrap;
    WrapAdd(Used(st.table) - drift, taken);
    WrapAdd(|st.table| - Used(st.table) + drift, -taken);
  }

  lemma StepCounts(st: State, op: Op, drift: int)
    requires LegalOp(st, op) && CountsOff(st, drift)
    ensures CountsOff(Step(st, op), drift + Shrink(st, op))
  {
    hide WellFormed, CountsOff, Wrap, FreeRun, Moved, Resized, MarkTaken, MarkFree, Taken, First, HasNext, ChainEntry,
         Used, Copied;
    var t, after := st.table, Step(st, op);
    match op {
      case Malloc(n) =>
        if FirstFit(t, n) >= 0 {
          MarkTakenUsed(t, FirstFit(t, n), n);
          CountsShift(st, after, n, drift, 0);
        }
      case Free(s) =>
        AllocTaken(t, s);
        MarkFreeUsed(t, s, ChainLength(t, s));
        CountsShift(st, after, -(ChainLength(t, s) as int), drift, 0);
      case Realloc(s, m) => ReallocCounts(st, s, m, drift);
    }
  }

  lemma ReallocCounts(st: State, s: nat, m: nat, drift: int)
    requires Inv(st) && s in Allocs(st.table) && CountsOff(st, drift)
    ensures CountsOff(ReallocStep(st, s, m).0, drift + if m < Allocs(st.table)[s] then Allocs(st.table)[s] - m else 0)
  {
    hide WellFormed, CountsOff, Wrap, Moved, Resized, MarkTaken, MarkFree, Taken, First, HasNext, ChainEntry, Used,
         Copied;
    var t, after, c := st.table, ReallocStep(st, s, m).0, Allocs(st.table)[s];
    if m <= c {
      ResizedAllocs(t, s, m);
      CountsShift(st, after, -2 * (c - m), drift, c - m);
    } else if FreeRun(t, s + c, m - c) {
      ResizedAllocs(t, s, m);
      CountsShift(st, after, m - c, drift, 0);
    } else if FirstFit(t, m) >= 0 {
      MovedAllocs(t, s, FirstFit(t, m), m);
      CountsShift(st, after, m - c, drift, 0);
    }
  }

  ghost predicate LegalRun(st: State, ops: seq<Op>)
    decreases |ops|
  {
    ops == [] || (LegalOp(st, ops[0]) && LegalRun(Step(st, ops[0]), ops[1..]))
  }

  ghost function Run(st: State, ops: seq<Op>): State
    requires LegalRun(st, ops)
    decreases |ops|
  {
    if ops == [] then st else Run(Step(st, ops[0]), ops[1..])
  }

  ghost function Shrunk(st: State, ops: seq<Op>): nat
    requires LegalRun(st, ops)
    decreases |ops|
  {
    if ops == [] then 0 else Shrink(st, ops[0]) + Shrunk(Step(st, ops[0]), ops[1..])
  }

  /** Every run keeps the table well formed, and leaves the counters off by exactly the
      blocks that reallocs shrank away. */
  lemma {:induction false} RunCorrect(st: State, ops: seq<Op>, drift: int)
    requires Inv(st) && CountsOff(st, drift) && LegalRun(st, ops)
    ensures Inv(Run(st, ops)) && |Run(st, ops).table| == |st.table|
    ensures CountsOff(Run(st, ops), drift + Shrunk(st, ops))
    decreases |ops|
  {
    hide WellFormed, Step, Shrink, CountsOff;
    if ops != [] {
      StepCorrect(st, ops[0]);
      StepCounts(st, ops[0], drift);
      RunCorrect(Step(st, ops[0]), ops[1..], drift + Shrink(st, ops[0]));
    }
  }

  function Fresh(data: seq<Block>): (st: State)
    ensures Inv(st)
  {
    State(seq(|data|, _ => FREE), data, 0, |data|)
  }

  lemma {:induction false} FreshUsed(t: seq<BlockEntry>, k: nat)
    requires k <= |t| && forall i :: 0 <= i < k ==> t[i] == FREE
    ensures CountTaken(t, k) == 0
    decreases k
  {
    if k > 0 { FreshUsed(t, k - 1); }
  }

  /** From a fresh heap, `used_blocks` is the number of taken entries and `free_blocks`
      the number of free ones exactly when the blocks shrunk away so far add up to zero
      modulo the word size; in particular until the first shrinking realloc. */
  lemma CountsExactIff(data: seq<Block>, ops: seq<Op>)
    requires |data| < WORD && LegalRun(Fresh(data), ops)
    ensures var end := Run(Fresh(data), ops);
            && (end.used == Used(end.table) <==> Shrunk(Fresh(data), ops) % WORD == 0)
            && (end.free == |end.table| - Used(end.table) <==> Shrunk(Fresh(data), ops) % WORD == 0)
            && Wrap(end.used + end.free) == |end.table|
  {
    hide Wrap, Inv, Run, LegalRun, Shrunk;
    var st := Fresh(data);
    FreshUsed(st.table, |st.table|);
    RunCorrect(st, ops, 0);
    OffExactIff(Run(st, ops), Shrunk(st, ops));
  }

  lemma OffExactIff(st: State, d: nat)
    requires CountsOff(st, d) && |st.table| < WORD
    ensures st.used == Used(st.table) <==> d % WORD == 0
    ensures st.free == |st.table| - Used(st.table) <==> d % WORD == 0
    ensures Wrap(st.used + st.free) == |st.table|
  {
    hide Wrap;
    var u, f := Used(st.table), |st.table| - Used(st.table);
    ModShift(u, -(d as int));
    ModShift(f, d);
    WrapAdd(u - d, st.free);
    WrapAdd(f + d, u - d);
  }

  lemma ModShift(x: nat, d: int)
    requires x < WORD
    ensures Wrap(x + d) == x <==> d % WORD == 0
    ensures (-d) % WORD == 0 <==> d % WORD == 0
  {
    var q := (x + d) / WORD;
    assert x + d == WORD * q + Wrap(x + d);
    if Wrap(x + d) == x {
      assert d == WORD * q;
    }
    if d % WORD == 0 {
      assert d == WORD * (d / WORD);
      assert x + d == x + WORD * (d / WORD);
    }
  }

  // ---------------------------------------- one block at a time, many times

  /** The table after `k` attempts to allocate a single block. */
  ghost function TakeSingles(t: seq<BlockEntry>, k: nat): seq<BlockEntry> {
    if k == 0 then t
    else
      var u := TakeSingles(t, k - 1);
      var s := FirstFit(u, 1);
      if s < 0 then u else MarkTaken(u, s, 1)
  }

  lemma {:induction false} SinglesUsed(t: seq<BlockEntry>, k: nat)
    requires AllLegal(t)
    ensures AllLegal(TakeSingles(t, k)) && |TakeSingles(t, k)| == |t|
    ensures WellFormed(t) ==> WellFormed(TakeSingles(t, k))
    ensures Used(TakeSingles(t, k)) == Min(|t|, Used(t) + k)
    decreases k
  {
    hide WellFormed, AllLegal, MarkTaken, Used;
    if k > 0 {
      SinglesUsed(t, k - 1);
      var u := TakeSingles(t, k - 1);
      OneBlockFits(u);
      if FirstFit(u, 1) >= 0 {
        MarkTakenLegal(u, FirstFit(u, 1), 1);
        if WellFormed(u) { MarkTakenAllocs(u, FirstFit(u, 1), 1); }
        MarkTakenUsed(u, FirstFit(u, 1), 1);
      }
    }
  }

  /** Some of `n` successive single-block allocations fails exactly when `n` exceeds the
      entries that are really free; the second pass of multiheap.c checks `n` against
      `free_blocks` instead, and panics on the failure. */
  lemma SinglesFailIff(t: seq<BlockEntry>, n: nat)
    requires AllLegal(t)
    ensures (exists k: nat :: k < n && FirstFit(TakeSingles(t, k), 1) < 0) <==> n > |t| - Used(t)
  {
    hide WellFormed, AllLegal, Used;
    if n > |t| - Used(t) {
      var k := |t| - Used(t);
      SinglesUsed(t, k);
      OneBlockFits(TakeSingles(t, k));
    }
    if k: nat :| k < n && FirstFit(TakeSingles(t, k), 1) < 0 {
      SinglesUsed(t, k);
      OneBlockFits(TakeSingles(t, k));
    }
  }

  /** Two blocks allocated, the allocation shrunk to one: `free_blocks` is 2 while one
      entry is free. */
  lemma ShrinkOverstatesFree(data: seq<Block>)
    requires |data| == 2
    ensures LegalRun(Fresh(data), [Malloc(2), Realloc(0, 1)])
    ensures var end := Run(Fresh(data), [Malloc(2), Realloc(0, 1)]);
            end.free == 2 && Used(end.table) == 1
  {
    var st, ops := Fresh(data), [Malloc(2), Realloc(0, 1)];
    FreshUsed(st.table, 2);
    assert FreeRun(st.table, 0, 2);
    FirstFitExists(st.table, 0, 2);
    var mid := Step(st, ops[0]);
    MarkTakenAllocs(st.table, 0, 2);
    MarkTakenUsed(st.table, 0, 2);
    assert mid.free == 0;
    ResizedAllocs(mid.table, 0, 1);
    var end := Step(mid, ops[1]);
    assert end.free == 2 && Used(end.table) == 1;
    assert ops[1..] == [Realloc(0, 1)] && ops[1..][1..] == [];
    assert Run(mid, ops[1..]) == end;
  }
}
