/** The block heap with its chains marked as heap_mark_blocks_taken marks them
    (heap.c:186-211): every operation, on every table such runs can reach, and how far the
    counters are off after any run. Nothing here assumes well-formed chains. */
module HeapAsWritten {
  import opened Common
  import opened BlockTable
  import opened HeapRuns

  /** What holds in every state: legal bytes, one data block per entry. */
  ghost predicate Sound(st: State) {
    AllLegal(st.table) && |st.data| == |st.table|
  }

  function Linked(e: BlockEntry): BlockEntry { e | HAS_NEXT }

  function Unlinked(e: BlockEntry): BlockEntry { e & !HAS_NEXT }

  /** heap.c:308-315: the blocks from `s + m` on freed, the chain ended before them. */
  function CutTable(t: seq<BlockEntry>, s: nat, m: nat): (r: seq<BlockEntry>)
    requires s + m < |t|
    ensures |r| == |t|
  {
    var u := MarkFree(t, s + m, ChainLength(t, s + m));
    if m > 0 then u[s + m - 1 := Unlinked(u[s + m - 1])] else u
  }

  /** heap.c:330-339: the free blocks `s + c .. s + m` appended to the `c` blocks before. */
  function GrownTable(t: seq<BlockEntry>, s: nat, c: nat, m: nat): (r: seq<BlockEntry>)
    requires 0 < c < m && s + m <= |t|
    ensures |r| == |t|
    ensures forall k :: 0 <= k < |t| ==>
      r[k] == if k == s + m - 1 then TAKEN else if s + c <= k < s + m then Linked(TAKEN)
              else if k == s + c - 1 then Linked(t[k]) else t[k]
  {
    seq(|t|, k requires 0 <= k < |t| =>
      if k == s + m - 1 then TAKEN else if s + c <= k < s + m then Linked(TAKEN)
      else if k == s + c - 1 then Linked(t[k]) else t[k])
  }

  ghost function MallocStepAsWritten(st: State, n: nat): State {
    var s := FirstFit(st.table, n);
    if s < 0 then st else Counted(st.(table := MarkTakenAsWritten(st.table, s, n)), n)
  }

  /** With complete chains, or as written; no different for one block. */
  ghost function MallocStepBy(complete: bool, st: State, n: nat): State {
    if complete then MallocStep(st, n) else MallocStepAsWritten(st, n)
  }

  lemma OneBlockEither(complete: bool, st: State)
    ensures MallocStepBy(complete, st, 1) == MallocStep(st, 1) == MallocStepAsWritten(st, 1)
    ensures forall b: nat :: MarkTakenAsWritten(st.table, b, 1) == MarkTaken(st.table, b, 1)
  {
    forall b: nat
      ensures MarkTakenAsWritten(st.table, b, 1) == MarkTaken(st.table, b, 1)
    {
    }
  }

  /** Realloc of the pointer to block `s` to `m` blocks (heap.c:286-363). */
  ghost function ReallocStepAsWritten(st: State, s: nat, m: nat): (State, int)
    requires Sound(st) && s < |st.table| && Taken(st.table[s])
  {
    var t := st.table;
    var c := BlockCount(t, s);
    if m == c then (st, s)
    else if m < c then
      (Counted(st.(table := CutTable(t, s, m)), -((ChainLength(t, s + m) + (c - m)) as int)), s)
    else if FreeRun(t, s + c, m - c) then (Counted(st.(table := GrownTable(t, s, c, m)), m - c), s)
    else
      var d := FirstFit(t, m);
      if d < 0 then (st, -1)
      else
        var u := MarkTakenAsWritten(t, d, m);
        (FreeStep(Counted(st.(table := u, data := Copied(st.data, s, d, c, m)), m), s), d)
  }

  /** Any block of the pool may be passed to free, any taken one to realloc. */
  ghost predicate Callable(st: State, op: Op) {
    Sound(st) && match op
      case Malloc(_) => true
      case Free(s) => s < |st.table|
      case Realloc(s, _) => s < |st.table| && Taken(st.table[s])
  }

  ghost function StepAsWritten(st: State, op: Op): State
    requires Callable(st, op)
  {
    match op
    case Malloc(n) => MallocStepAsWritten(st, n)
    case Free(s) => FreeStep(st, s)
    case Realloc(s, m) => ReallocStepAsWritten(st, s, m).0
  }

  /** Blocks that the operation counts as freed beyond those it frees: the free block in
      which a chain ends, and all that a shrinking realloc frees. */
  ghost function Excess(st: State, op: Op): (x: nat)
    requires Callable(st, op)
  {
    var t := st.table;
    match op
    case Malloc(_) => 0
    case Free(s) => ChainLength(t, s) - BlockCount(t, s)
    case Realloc(s, m) =>
      var c := BlockCount(t, s);
      if m < c then ChainLength(t, s + m)
      else if Relocates(st, s, m) then ChainLength(t, s) - c
      else 0
  }

  /** Realloc takes its last path and finds room. */
  ghost predicate Relocates(st: State, s: nat, m: nat)
    requires s < |st.table|
  {
    var c := BlockCount(st.table, s);
    c < m && !FreeRun(st.table, s + c, m - c) && FirstFit(st.table, m) >= 0
  }

  // ------------------------------------------------------ chains of any table

  /** A chain is taken blocks up to its last, which alone may be free; the count misses
      exactly that one. */
  lemma {:induction false} CountedChain(t: seq<BlockEntry>, i: nat)
    requires AllLegal(t) && i < |t|
    ensures var n := ChainLength(t, i);
            && (forall k :: i <= k < i + n - 1 ==> Taken(t[k]))
            && BlockCount(t, i) == if Taken(t[i + n - 1]) then n else n - 1
    decreases |t| - i
  {
    assert Legal(t[i]);
    if HasNext(t[i]) && i + 1 < |t| {
      CountedChain(t, i + 1);
    }
  }

  lemma {:induction false} TailOfChain(t: seq<BlockEntry>, i: nat, m: nat)
    requires AllLegal(t) && i < |t| && m < ChainLength(t, i)
    ensures ChainLength(t, i + m) == ChainLength(t, i) - m
    ensures m <= BlockCount(t, i) && BlockCount(t, i + m) == BlockCount(t, i) - m
    decreases m
  {
    assert Legal(t[i]);
    if m > 0 {
      TailOfChain(t, i + 1, m - 1);
    }
  }

  /** Freeing a chain takes away its taken blocks, whatever else it counts. */
  lemma FreedUsed(t: seq<BlockEntry>, s: nat)
    requires AllLegal(t) && s < |t|
    ensures AllLegal(MarkFree(t, s, ChainLength(t, s)))
    ensures Used(MarkFree(t, s, ChainLength(t, s))) == Used(t) - BlockCount(t, s)
  {
    CountedChain(t, s);
    CountChange(MarkFree(t, s, ChainLength(t, s)), t, s, BlockCount(t, s), |t|);
  }

  lemma MarkedUsed(t: seq<BlockEntry>, s: nat, n: nat)
    requires AllLegal(t) && FreeRun(t, s, n)
    ensures AllLegal(MarkTakenAsWritten(t, s, n))
    ensures Used(MarkTakenAsWritten(t, s, n)) == Used(t) + n
  {
    CountChange(t, MarkTakenAsWritten(t, s, n), s, n, |t|);
  }

  lemma FlagFacts(e: BlockEntry)
    requires Legal(e) && Taken(e)
    ensures Legal(Unlinked(e)) && Taken(Unlinked(e))
    ensures Legal(Linked(e)) && Taken(Linked(e))
    ensures Legal(TAKEN) && Legal(Linked(TAKEN)) && Taken(TAKEN) && Taken(Linked(TAKEN)) && !Taken(FREE)
  {
  }

  lemma CutUsed(t: seq<BlockEntry>, s: nat, m: nat)
    requires AllLegal(t) && s < |t| && m < BlockCount(t, s)
    ensures AllLegal(CutTable(t, s, m))
    ensures Used(CutTable(t, s, m)) == Used(t) - (BlockCount(t, s) - m)
  {
    hide Taken, First, HasNext, Legal, Linked, Unlinked, MarkFree, ChainLength, BlockCount;
    var u, r := MarkFree(t, s + m, ChainLength(t, s + m)), CutTable(t, s, m);
    TailOfChain(t, s, m);
    FreedUsed(t, s + m);
    if m > 0 {
      CountedChain(t, s);
      var e := t[s + m - 1];
      assert u[s + m - 1] == e && Legal(e) && Taken(e);
      FlagFacts(e);
      assert forall i :: 0 <= i < |t| ==> r[i] == if i == s + m - 1 then Unlinked(e) else u[i];
      SameTaken(u, r, |t|);
    }
  }

  lemma {:induction false} SameTaken(t: seq<BlockEntry>, u: seq<BlockEntry>, k: nat)
    requires |t| == |u| && k <= |t|
    requires forall i :: 0 <= i < |t| ==> Taken(t[i]) == Taken(u[i])
    ensures CountTaken(t, k) == CountTaken(u, k)
    decreases k
  {
    if k > 0 {
      SameTaken(t, u, k - 1);
    }
  }

  lemma GrownUsed(t: seq<BlockEntry>, s: nat, m: nat)
    requires AllLegal(t) && s < |t| && Taken(t[s]) && BlockCount(t, s) < m
    requires FreeRun(t, s + BlockCount(t, s), m - BlockCount(t, s))
    ensures AllLegal(GrownTable(t, s, BlockCount(t, s), m))
    ensures Used(GrownTable(t, s, BlockCount(t, s), m)) == Used(t) + m - BlockCount(t, s)
  {
    hide Taken, First, HasNext, Legal, Linked, Unlinked, GrownTable, ChainLength, BlockCount;
    var c := BlockCount(t, s);
    CountedChain(t, s);
    assert Taken(t[s + c - 1]) && Legal(t[s + c - 1]);
    FlagFacts(t[s + c - 1]);
    CountChange(t, GrownTable(t, s, c, m), s + c, m - c, |t|);
  }

  /** A new chain elsewhere leaves the old one as it was. */
  lemma RelocatedChain(t: seq<BlockEntry>, s: nat, d: nat, m: nat)
    requires AllLegal(t) && s < |t| && Taken(t[s]) && BlockCount(t, s) < m
    requires FreeRun(t, d, m) && !FreeRun(t, s + BlockCount(t, s), m - BlockCount(t, s))
    ensures var u := MarkTakenAsWritten(t, d, m);
            ChainLength(u, s) == ChainLength(t, s) && BlockCount(u, s) == BlockCount(t, s)
    ensures s + BlockCount(t, s) <= d || d + m <= s
  {
    hide Taken, First, HasNext, Legal, ChainEntry, MarkTakenAsWritten, ChainLength, BlockCount;
    FreeFacts();
    var u := MarkTakenAsWritten(t, d, m);
    CountedChain(t, s);
    MarkedUsed(t, d, m);
    assert !Taken(t[d]);
    LengthFrame(t, u, s);
    CountedChain(u, s);
  }

  // ------------------------------------------------------------- the counters

  /** One operation: bytes stay legal, and the counters drift by the excess. */
  lemma StepDrifts(st: State, op: Op, drift: int)
    requires Callable(st, op) && CountsOff(st, drift)
    ensures var after := StepAsWritten(st, op);
            Sound(after) && |after.table| == |st.table| && CountsOff(after, drift + Excess(st, op))
  {
    hide CountsOff, Wrap, AllLegal, MarkTakenAsWritten, MarkFree, Taken, First, HasNext, Used, FreeRun;
    var t, after := st.table, StepAsWritten(st, op);
    match op {
      case Malloc(n) =>
        var s := FirstFit(t, n);
        if s >= 0 {
          MarkedUsed(t, s, n);
          CountsShift(st, after, n, drift, 0);
        }
      case Free(s) =>
        FreeDrifts(st, s, drift);
      case Realloc(s, m) => ReallocDrifts(st, s, m, drift);
    }
  }

  lemma FreeDrifts(st: State, s: nat, drift: int)
    requires Sound(st) && s < |st.table| && CountsOff(st, drift)
    ensures Sound(FreeStep(st, s))
    ensures CountsOff(FreeStep(st, s), drift + ChainLength(st.table, s) - BlockCount(st.table, s))
  {
    hide CountsOff, Wrap, AllLegal, MarkFree, Taken, First, HasNext, Used;
    var n := ChainLength(st.table, s);
    FreedUsed(st.table, s);
    CountsShift(st, FreeStep(st, s), -(n as int), drift, n - BlockCount(st.table, s));
  }

  lemma ReallocDrifts(st: State, s: nat, m: nat, drift: int)
    requires Callable(st, Realloc(s, m)) && CountsOff(st, drift)
    ensures var after := ReallocStepAsWritten(st, s, m).0;
            && Sound(after) && |after.table| == |st.table|
            && CountsOff(after, drift + Excess(st, Realloc(s, m)))
  {
    hide CountsOff, Wrap, AllLegal, MarkTakenAsWritten, MarkFree, Taken, First, HasNext, Used, CutTable, GrownTable,
         Copied;
    var t, after, c := st.table, ReallocStepAsWritten(st, s, m).0, BlockCount(st.table, s);
    if m == c {
    } else if m < c {
      CutUsed(t, s, m);
      var tail := ChainLength(t, s + m);
      CountsShift(st, after, -((tail + (c - m)) as int), drift, tail);
    } else if FreeRun(t, s + c, m - c) {
      GrownUsed(t, s, m);
      CountsShift(st, after, m - c, drift, 0);
    } else if FirstFit(t, m) >= 0 {
      var d := FirstFit(t, m);
      var mid := Counted(st.(table := MarkTakenAsWritten(t, d, m), data := Copied(st.data, s, d, c, m)), m);
      MarkedUsed(t, d, m);
      CountsShift(st, mid, m, drift, 0);
      RelocatedChain(t, s, d, m);
      FreeDrifts(mid, s, drift);
    }
  }

  // --------------------------------------------------------------------- runs

  ghost predicate CallableRun(st: State, ops: seq<Op>)
    decreases |ops|
  {
    ops == [] || (Callable(st, ops[0]) && CallableRun(StepAsWritten(st, ops[0]), ops[1..]))
  }

  ghost function RunAsWritten(st: State, ops: seq<Op>): State
    requires CallableRun(st, ops)
    decreases |ops|
  {
    if ops == [] then st else RunAsWritten(StepAsWritten(st, ops[0]), ops[1..])
  }

  ghost function TotalExcess(st: State, ops: seq<Op>): nat
    requires CallableRun(st, ops)
    decreases |ops|
  {
    if ops == [] then 0 else Excess(st, ops[0]) + TotalExcess(StepAsWritten(st, ops[0]), ops[1..])
  }

  /** Any run of the code as it is written leaves the counters off by the sum of what its
      operations counted in excess. */
  lemma {:induction false} RunDrifts(st: State, ops: seq<Op>, drift: int)
    requires Sound(st) && CountsOff(st, drift) && CallableRun(st, ops)
    ensures var end := RunAsWritten(st, ops);
            Sound(end) && |end.table| == |st.table| && CountsOff(end, drift + TotalExcess(st, ops))
    decreases |ops|
  {
    hide Sound, StepAsWritten, Excess, CountsOff;
    if ops != [] {
      StepDrifts(st, ops[0], drift);
      RunDrifts(StepAsWritten(st, ops[0]), ops[1..], drift + Excess(st, ops[0]));
    }
  }

  /** From a fresh heap and for every run of the code as it is written: each counter is
      exact exactly when the excess adds up to zero modulo the word size. */
  lemma CountsExactAsWrittenIff(data: seq<Block>, ops: seq<Op>)
    requires |data| < WORD && CallableRun(Fresh(data), ops)
    ensures var end := RunAsWritten(Fresh(data), ops);
            && (end.used == Used(end.table) <==> TotalExcess(Fresh(data), ops) % WORD == 0)
            && (end.free == |end.table| - Used(end.table) <==> TotalExcess(Fresh(data), ops) % WORD == 0)
            && Wrap(end.used + end.free) == |end.table|
  {
    hide Wrap, RunAsWritten, CallableRun, TotalExcess;
    var st := Fresh(data);
    FreshUsed(st.table, |st.table|);
    RunDrifts(st, ops, 0);
    OffExactIff(RunAsWritten(st, ops), TotalExcess(st, ops));
  }

  // -------------------------------------------------- against complete chains

  /** Table and counters come back when a fresh allocation is freed exactly when it has
      one block or ends with the heap. In every other case the free runs on into the block
      behind, and counts it even where it is free. */
  lemma FreeUndoesAsWrittenIff(st: State, n: nat)
    requires st.used < WORD && st.free < WORD && |st.table| < WORD && FirstFit(st.table, n) >= 0
    ensures var s := FirstFit(st.table, n);
            FreeStep(MallocStepAsWritten(st, n), s) == st <==> n == 1 || s + n == |st.table|
  {
    hide Wrap, ChainLength, MarkTakenAsWritten, MarkFree;
    var t, s := st.table, FirstFit(st.table, n);
    var u := MarkTakenAsWritten(t, s, n);
    AsWrittenLengthIff(t, s, n);
    BackIff(st.used, n, ChainLength(u, s));
    BackIff(st.free, -(n as int), -(ChainLength(u, s) as int));
    if n == 1 || s + n == |t| {
      FreeAsWrittenIff(t, s, n);
    }
  }

  /** The same when `x` free blocks have been freed in between, one by one. */
  lemma FreeUndoesCountedIff(st: State, n: nat, x: nat)
    requires st.used < WORD && st.free < WORD && 2 * |st.table| < WORD && x <= |st.table|
    requires FirstFit(st.table, n) >= 0
    ensures var s := FirstFit(st.table, n);
            FreeStep(Counted(MallocStepAsWritten(st, n), -(x as int)), s) == st <==>
            (n == 1 || s + n == |st.table|) && x == 0
  {
    hide Wrap, ChainLength, MarkTakenAsWritten, MarkFree, FirstFit;
    var t, s := st.table, FirstFit(st.table, n);
    var u := MarkTakenAsWritten(t, s, n);
    var len := ChainLength(u, s);
    AsWrittenLength(t, s, n, s);
    AsWrittenLengthIff(t, s, n);
    BackThrough(st.used, n, -(x as int), len);
    BackThrough(st.free, -(n as int), x, -(len as int));
    if n == 1 || s + n == |t| {
      FreeAsWrittenIff(t, s, n);
    }
  }

  lemma BackThrough(c: nat, n: int, x: int, len: int)
    requires c < WORD && n + x - len < WORD && len - n - x < WORD
    ensures Wrap(Wrap(Wrap(c + n) + x) - len) == c <==> n + x == len
  {
    WrapAdd(c + n, x);
    BackIff(c, n + x, len);
  }

  /** Blocks that are counted for a fresh chain beyond its own. */
  lemma CountBehind(t: seq<BlockEntry>, s: nat, n: nat)
    requires AllLegal(t) && n >= 1 && FreeRun(t, s, n)
    ensures BlockCount(MarkTakenAsWritten(t, s, n), s) ==
            n + if n == 1 || s + n == |t| then 0 else BlockCount(t, s + n)
    ensures BlockCount(MarkTakenAsWritten(t, s, n), s) == n <==> n == 1 || s + n == |t| || t[s + n] == FREE
  {
    CountBehindFrom(t, s, n, s);
    if s + n < |t| {
      assert Legal(t[s + n]);
    }
  }

  lemma {:induction false} CountBehindFrom(t: seq<BlockEntry>, s: nat, n: nat, i: nat)
    requires n >= 1 && s <= i < s + n <= |t|
    ensures BlockCount(MarkTakenAsWritten(t, s, n), i) ==
            s + n - i + if n == 1 || s + n == |t| then 0 else BlockCount(t, s + n)
    decreases s + n - i
  {
    var u := MarkTakenAsWritten(t, s, n);
    if i + 1 < s + n {
      CountBehindFrom(t, s, n, i + 1);
    } else if n > 1 && s + n < |t| {
      CountSuffix(t, u, s + n);
    }
  }

  lemma {:induction false} CountSuffix(t: seq<BlockEntry>, u: seq<BlockEntry>, i: nat)
    requires |t| == |u| && i < |t| && forall k :: i <= k < |t| ==> t[k] == u[k]
    ensures BlockCount(u, i) == BlockCount(t, i)
    decreases |t| - i
  {
    if i + 1 < |t| {
      CountSuffix(t, u, i + 1);
    }
  }

  /** Two blocks allocated before a live one: three are counted, and the free takes the
      live block with it. */
  lemma NeighbourFreed(t: seq<BlockEntry>)
    requires t == [FREE, FREE, ChainEntry(true, false)]
    ensures var u := MarkTakenAsWritten(t, 0, 2);
            BlockCount(u, 0) == 3 && MarkFree(u, 0, ChainLength(u, 0)) == [FREE, FREE, FREE]
  {
    CountBehind(t, 0, 2);
    CountedChain(MarkTakenAsWritten(t, 0, 2), 0);
  }

  lemma BackIff(x: nat, n: int, k: int)
    requires x < WORD && n - k < WORD && k - n < WORD
    ensures Wrap(Wrap(x + n) - k) == x <==> n == k
  {
    WrapAdd(x + n, -k);
    ModShift(x, n - k);
    assert n - k != 0 ==> (n - k) % WORD != 0;
  }

  /** Three free blocks, two allocated and freed again: the table is all free, and the
      counters say 4 free and 2^64 - 1 used. In between the table is no table of chains. */
  lemma FreeOverstatesFree(data: seq<Block>)
    requires |data| == 3
    ensures CallableRun(Fresh(data), [Malloc(2)]) && !WellFormed(RunAsWritten(Fresh(data), [Malloc(2)]).table)
    ensures CallableRun(Fresh(data), [Malloc(2), Free(0)])
    ensures RunAsWritten(Fresh(data), [Malloc(2), Free(0)]) == Fresh(data).(used := WORD - 1, free := 4)
  {
    var st, ops := Fresh(data), [Malloc(2), Free(0)];
    var mid, end := st.(table := MarkTakenAsWritten(st.table, 0, 2), used := 2, free := 1),
      st.(used := WORD - 1, free := 4);
    TwoOfThree(st, mid, end);
    hide *;
    assert [Malloc(2)][1..] == [] && ops[1..] == [Free(0)] && [Free(0)][1..] == [];
    OneStep(st, Malloc(2), []);
    OneStep(mid, Free(0), []);
    OneStep(st, Malloc(2), [Free(0)]);
  }

  lemma OneStep(st: State, op: Op, ops: seq<Op>)
    requires Callable(st, op) && CallableRun(StepAsWritten(st, op), ops)
    ensures CallableRun(st, [op] + ops)
    ensures RunAsWritten(st, [op] + ops) == RunAsWritten(StepAsWritten(st, op), ops)
  {
    assert ([op] + ops)[1..] == ops;
  }

  lemma TwoOfThree(st: State, mid: State, end: State)
    requires |st.data| == 3 && st == Fresh(st.data)
    requires mid == st.(table := MarkTakenAsWritten(st.table, 0, 2), used := 2, free := 1)
    requires end == st.(used := WORD - 1, free := 4)
    ensures Callable(st, Malloc(2)) && StepAsWritten(st, Malloc(2)) == mid && !WellFormed(mid.table)
    ensures Callable(mid, Free(0)) && StepAsWritten(mid, Free(0)) == end
  {
    hide MarkTakenAsWritten, MarkFree;
    var t := st.table;
    assert FreeRun(t, 0, 2);
    FirstFitExists(t, 0, 2);
    MarkedUsed(t, 0, 2);
    AsWrittenIff(t, 0, 2);
    AsWrittenLength(t, 0, 2, 0);
    FreeAsWrittenIff(t, 0, 2);
  }

  /** The operation allocates a new chain of two or more blocks. */
  ghost predicate AllocatesChain(st: State, op: Op)
    requires LegalOp(st, op)
  {
    && (op.Malloc? ==> op.n > 1 && FirstFit(st.table, op.n) >= 0)
    && !op.Free?
    && (op.Realloc? ==> Relocates(st, op.s, op.m))
  }

  lemma LegalCallable(st: State, op: Op)
    requires LegalOp(st, op)
    ensures Callable(st, op)
    ensures op.Realloc? ==> BlockCount(st.table, op.s) == ChainLength(st.table, op.s)
  {
    WellFormedLegal(st.table);
    if op.Realloc? {
      AllocTaken(st.table, op.s);
      CountedChain(st.table, op.s);
    }
  }

  /** On a well-formed table an operation as written does what the complete marking does,
      and keeps the table well formed, exactly when it allocates no new chain of two or
      more blocks. */
  lemma StepAsWrittenIff(st: State, op: Op)
    requires LegalOp(st, op) && st.used < WORD && st.free < WORD
    ensures Callable(st, op)
    ensures Inv(StepAsWritten(st, op)) <==> !AllocatesChain(st, op)
    ensures StepAsWritten(st, op) == Step(st, op) <==> !AllocatesChain(st, op)
  {
    hide WellFormed, Wrap, Copied, Resized, CutTable, GrownTable;
    LegalCallable(st, op);
    StepCorrect(st, op);
    match op
    case Malloc(n) =>
      var s := FirstFit(st.table, n);
      if s >= 0 {
        AsWrittenIff(st.table, s, n);
      }
    case Free(_) =>
    case Realloc(s, m) =>
      if Relocates(st, s, m) {
        MovedAsWritten(st.table, s, FirstFit(st.table, m), m);
      } else {
        InPlaceSame(st, s, m);
      }
  }

  lemma InPlaceSame(st: State, s: nat, m: nat)
    requires Inv(st) && s in Allocs(st.table) && st.used < WORD && st.free < WORD
    requires Callable(st, Realloc(s, m)) && !Relocates(st, s, m)
    ensures ReallocStepAsWritten(st, s, m).0 == ReallocStep(st, s, m).0
  {
    hide WellFormed, Wrap, Copied, Resized, CutTable, GrownTable;
    var t, c := st.table, ChainLength(st.table, s);
    LegalCallable(st, Realloc(s, m));
    if m == c {
      Resame(st, s);
    } else if m < c {
      TailOfChain(t, s, m);
      CutResized(t, s, m);
    } else if FreeRun(t, s + c, m - c) {
      GrownResized(t, s, m);
    }
  }

  lemma MovedAsWritten(t: seq<BlockEntry>, s: nat, d: nat, m: nat)
    requires WellFormed(t) && s in Allocs(t) && m > 1 && FreeRun(t, d, m)
    requires BlockCount(t, s) < m && !FreeRun(t, s + BlockCount(t, s), m - BlockCount(t, s))
    ensures var u := MarkTakenAsWritten(t, d, m);
            !WellFormed(MarkFree(u, s, ChainLength(u, s)))
  {
    AllocTaken(t, s);
    WellFormedLegal(t);
    RelocatedChain(t, s, d, m);
    var u := MarkFree(MarkTakenAsWritten(t, d, m), s, ChainLength(t, s));
    var last := d + m - 1;
    assert t[last] == FREE && t[d] == FREE;
    assert HasNext(u[last]);
    if last + 1 < |t| {
      assert EntryOk(t, last) && EntryOk(t, last + 1);
    }
    assert !EntryOk(u, last);
  }

  lemma Resame(st: State, s: nat)
    requires Inv(st) && s in Allocs(st.table) && st.used < WORD && st.free < WORD
    ensures ReallocStep(st, s, Allocs(st.table)[s]) == (st, s)
  {
    var t := st.table;
    assert EntryOk(t, s);
    ChainShape(t, s);
    assert Resized(t, s, Allocs(t)[s]) == t;
  }

  lemma CutResized(t: seq<BlockEntry>, s: nat, m: nat)
    requires WellFormed(t) && s in Allocs(t) && m < Allocs(t)[s]
    requires ChainLength(t, s + m) == Allocs(t)[s] - m
    ensures CutTable(t, s, m) == Resized(t, s, m)
  {
    assert EntryOk(t, s);
    ChainShape(t, s);
    ClearNext(m == 1);
  }

  lemma GrownResized(t: seq<BlockEntry>, s: nat, m: nat)
    requires WellFormed(t) && s in Allocs(t) && Allocs(t)[s] < m
    requires FreeRun(t, s + Allocs(t)[s], m - Allocs(t)[s])
    ensures GrownTable(t, s, Allocs(t)[s], m) == Resized(t, s, m)
  {
    assert EntryOk(t, s);
    ChainShape(t, s);
    ClearNext(true);
    ClearNext(false);
  }

  lemma ClearNext(first: bool)
    ensures ChainEntry(first, true) & !HAS_NEXT == ChainEntry(first, false)
    ensures ChainEntry(first, false) | HAS_NEXT == ChainEntry(first, true)
    ensures ChainEntry(false, true) == TAKEN | HAS_NEXT && ChainEntry(false, false) == TAKEN
  {
  }

  /** Every operation finds a well-formed table before and leaves one behind. */
  ghost predicate AlwaysWellFormed(st: State, ops: seq<Op>)
    requires CallableRun(st, ops)
    decreases |ops|
  {
    Inv(st) && (ops != [] ==> AlwaysWellFormed(StepAsWritten(st, ops[0]), ops[1..]))
  }

  /** As long as the table is well formed, callers pass starts of live allocations. */
  ghost predicate LivePointers(st: State, ops: seq<Op>)
    requires CallableRun(st, ops)
    decreases |ops|
  {
    ops != [] ==> (Inv(st) ==> LegalOp(st, ops[0])) && LivePointers(StepAsWritten(st, ops[0]), ops[1..])
  }

  /** Some operation of the run meets a well-formed table and allocates a new chain of two
      or more blocks. */
  ghost predicate EverAllocatesChain(st: State, ops: seq<Op>)
    requires CallableRun(st, ops)
    decreases |ops|
  {
    ops != [] && ((LegalOp(st, ops[0]) && AllocatesChain(st, ops[0]))
      || EverAllocatesChain(StepAsWritten(st, ops[0]), ops[1..]))
  }

  /** Over whole runs: the code as written keeps the table well formed throughout exactly
      when no operation allocates a new chain of two or more blocks; then, and only then,
      `RunCorrect` speaks of it, the run being the run with complete chains. */
  lemma {:induction false} RunAsWrittenIff(st: State, ops: seq<Op>)
    requires Inv(st) && st.used < WORD && st.free < WORD
    requires CallableRun(st, ops) && LivePointers(st, ops)
    ensures AlwaysWellFormed(st, ops) <==> !EverAllocatesChain(st, ops)
    ensures AlwaysWellFormed(st, ops) ==> LegalRun(st, ops) && RunAsWritten(st, ops) == Run(st, ops)
    decreases |ops|
  {
    hide Inv, StepAsWritten, Step, AllocatesChain, LegalOp, Callable;
    if ops != [] {
      StepAsWrittenIff(st, ops[0]);
      StepBounded(st, ops[0]);
      if !AllocatesChain(st, ops[0]) {
        RunAsWrittenIff(StepAsWritten(st, ops[0]), ops[1..]);
      } else {
        NotWellFormed(StepAsWritten(st, ops[0]), ops[1..]);
      }
    }
  }

  lemma NotWellFormed(st: State, ops: seq<Op>)
    requires CallableRun(st, ops) && !Inv(st)
    ensures !AlwaysWellFormed(st, ops)
  {
  }

  lemma StepBounded(st: State, op: Op)
    requires Callable(st, op) && st.used < WORD && st.free < WORD
    ensures StepAsWritten(st, op).used < WORD && StepAsWritten(st, op).free < WORD
  {
  }
}
