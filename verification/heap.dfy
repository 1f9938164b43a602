/** The block heap (memory/heap/heap.c): one flag byte per 4096-byte block.

    An allocation is a chain of table entries FIRST|HAS_NEXT, HAS_NEXT, ..., last.
    `BlockTable` holds the pure theory of such tables; `BlockHeap` is the heap object,
    whose methods run the source's loops and are proved against that theory. */
module BlockTable {

  const BLOCK_SIZE: nat := 4096
  /** One more than the largest `size_t`: the block counters wrap at this value. */
  const WORD: nat := 0x1_0000_0000_0000_0000

  type BlockEntry = bv8
  const FREE: BlockEntry := 0x00
  const TAKEN: BlockEntry := 0x01
  const IS_FIRST: BlockEntry := 0x40
  const HAS_NEXT: BlockEntry := 0x80

  predicate Taken(e: BlockEntry) { e & TAKEN != 0 }
  predicate First(e: BlockEntry) { e & IS_FIRST != 0 }
  predicate HasNext(e: BlockEntry) { e & HAS_NEXT != 0 }

  /** The entry of a block inside a chain. */
  function ChainEntry(first: bool, next: bool): (e: BlockEntry)
    ensures Taken(e) && First(e) == first && HasNext(e) == next
    ensures e & 0x0f != FREE
  {
    TAKEN | (if first then IS_FIRST else 0) | (if next then HAS_NEXT else 0)
  }

  predicate Legal(e: BlockEntry) {
    e == FREE || e == ChainEntry(First(e), HasNext(e))
  }

  lemma FreeFacts()
    ensures !Taken(FREE) && !First(FREE) && !HasNext(FREE)
  {
  }

  /** What the source relies on at block `i`: a legal byte, a successor where HAS_NEXT
      promises one, a predecessor where IS_FIRST is missing. */
  predicate EntryOk(t: seq<BlockEntry>, i: nat)
    requires i < |t|
  {
    && Legal(t[i])
    && (HasNext(t[i]) ==> i + 1 < |t| && Taken(t[i + 1]) && !First(t[i + 1]))
    && (Taken(t[i]) && !First(t[i]) ==> i > 0 && HasNext(t[i - 1]))
  }

  ghost predicate WellFormed(t: seq<BlockEntry>) {
    forall i :: 0 <= i < |t| ==> EntryOk(t, i)
  }

  /** Legal bytes, in whatever order: what is left of `WellFormed` once a chain has been
      marked as the source marks it. */
  ghost predicate AllLegal(t: seq<BlockEntry>) {
    forall i :: 0 <= i < |t| ==> Legal(t[i])
  }

  lemma WellFormedLegal(t: seq<BlockEntry>)
    requires WellFormed(t)
    ensures AllLegal(t)
  {
    forall i | 0 <= i < |t|
      ensures Legal(t[i])
    {
      assert EntryOk(t, i);
    }
  }

  /** Number of blocks from `i` to the end of its chain. */
  function ChainLength(t: seq<BlockEntry>, i: nat): (n: nat)
    requires i < |t|
    ensures 1 <= n <= |t| - i
    decreases |t| - i
  {
    if HasNext(t[i]) && i + 1 < |t| then 1 + ChainLength(t, i + 1) else 1
  }

  /** Number of taken blocks from `i` to the end of its chain: what
      heap_allocation_block_count returns (heap.c:152-179). */
  function BlockCount(t: seq<BlockEntry>, i: nat): (n: nat)
    requires i < |t|
    ensures n <= ChainLength(t, i) <= |t| - i
    decreases |t| - i
  {
    (if Taken(t[i]) then 1 else 0) + if HasNext(t[i]) && i + 1 < |t| then BlockCount(t, i + 1) else 0
  }

  /** The live allocations: first block to number of blocks. */
  ghost function Allocs(t: seq<BlockEntry>): map<nat, nat> {
    map s: nat | s < |t| && First(t[s]) :: ChainLength(t, s)
  }

  predicate FreeRun(t: seq<BlockEntry>, s: nat, n: nat) {
    s + n <= |t| && forall k :: s <= k < s + n ==> t[k] == FREE
  }

  ghost predicate LeastFreeRun(t: seq<BlockEntry>, s: nat, n: nat) {
    n > 0 && FreeRun(t, s, n) && forall k: nat :: k < s ==> !FreeRun(t, k, n)
  }

  /** First fit; -1 when there is none (always so for n = 0). */
  ghost function FirstFit(t: seq<BlockEntry>, n: nat): (r: int)
    ensures r >= 0 ==> LeastFreeRun(t, r, n)
    ensures r < 0 ==> r == -1 && forall s: nat :: !LeastFreeRun(t, s, n)
  {
    if s: nat :| LeastFreeRun(t, s, n) then s else -1
  }

  function MarkTaken(t: seq<BlockEntry>, s: nat, n: nat): (r: seq<BlockEntry>)
    ensures |r| == |t|
    ensures forall i :: 0 <= i < |t| ==> r[i] == if s <= i < s + n then ChainEntry(i == s, i < s + n - 1) else t[i]
  {
    seq(|t|, i requires 0 <= i < |t| => if s <= i < s + n then ChainEntry(i == s, i < s + n - 1) else t[i])
  }

  /** What heap_mark_blocks_taken writes (heap.c:186-211): its loop sets HAS_NEXT for the
      block after `i` whenever `i` itself is not the last, so the last block of every
      chain of two or more carries HAS_NEXT as well. */
  function MarkTakenAsWritten(t: seq<BlockEntry>, s: nat, n: nat): (r: seq<BlockEntry>)
    ensures |r| == |t|
    ensures forall i :: 0 <= i < |t| ==> r[i] == if s <= i < s + n then ChainEntry(i == s, n > 1) else t[i]
  {
    seq(|t|, i requires 0 <= i < |t| => if s <= i < s + n then ChainEntry(i == s, n > 1) else t[i])
  }

  function MarkFree(t: seq<BlockEntry>, s: nat, n: nat): (r: seq<BlockEntry>)
    ensures |r| == |t|
    ensures forall i :: 0 <= i < |t| ==> r[i] == if s <= i < s + n then FREE else t[i]
  {
    seq(|t|, i requires 0 <= i < |t| => if s <= i < s + n then FREE else t[i])
  }

  /** Taken entries among the first `k`. */
  function CountTaken(t: seq<BlockEntry>, k: nat): (c: nat)
    requires k <= |t|
    ensures c <= k
  {
    if k == 0 then 0 else CountTaken(t, k - 1) + (if Taken(t[k - 1]) then 1 else 0)
  }

  function Used(t: seq<BlockEntry>): (c: nat)
    ensures c <= |t|
  {
    CountTaken(t, |t|)
  }

  // ---------------------------------------------------------------- chains

  /** A live chain is exactly FIRST, then continuation blocks, HAS_NEXT on all but the last. */
  lemma {:induction false} ChainShape(t: seq<BlockEntry>, s: nat)
    requires WellFormed(t) && s < |t| && Taken(t[s])
    ensures var n := ChainLength(t, s);
            forall k :: s <= k < s + n ==> t[k] == ChainEntry(k == s && First(t[s]), k < s + n - 1)
    decreases |t| - s
  {
    assert EntryOk(t, s);
    if HasNext(t[s]) {
      ChainShape(t, s + 1);
    }
  }

  lemma {:induction false} ShapeLength(t: seq<BlockEntry>, s: nat, n: nat)
    requires 1 <= n && s + n <= |t|
    requires forall k :: s <= k < s + n ==> (HasNext(t[k]) <==> k < s + n - 1)
    ensures ChainLength(t, s) == n
    decreases n
  {
    if n > 1 {
      ShapeLength(t, s + 1, n - 1);
    }
  }

  /** Chains do not look past their own end. */
  lemma {:induction false} LengthFrame(t: seq<BlockEntry>, u: seq<BlockEntry>, s: nat)
    requires |t| == |u| && s < |t|
    requires forall k :: s <= k < s + ChainLength(t, s) ==> HasNext(t[k]) == HasNext(u[k])
    ensures ChainLength(u, s) == ChainLength(t, s)
    decreases |t| - s
  {
    if HasNext(t[s]) && s + 1 < |t| {
      LengthFrame(t, u, s + 1);
    }
  }

  /** Live allocations are pairwise disjoint and inside the heap. */
  lemma AllocsDisjoint(t: seq<BlockEntry>, a: nat, b: nat)
    requires WellFormed(t)
    requires a in Allocs(t) && b in Allocs(t) && a < b
    ensures a + Allocs(t)[a] <= b
    ensures b + Allocs(t)[b] <= |t|
  {
    assert EntryOk(t, a);
    assert EntryOk(t, b);
    ChainShape(t, a);
    if b < a + ChainLength(t, a) {
      assert false;
    }
  }

  /** A free block lies in no live allocation, and every taken block lies in one. */
  lemma {:induction false} TakenIsOwned(t: seq<BlockEntry>, i: nat) returns (s: nat)
    requires WellFormed(t) && i < |t| && Taken(t[i])
    ensures s in Allocs(t) && s <= i < s + Allocs(t)[s]
    decreases i
  {
    assert EntryOk(t, i);
    if First(t[i]) {
      s := i;
    } else {
      assert EntryOk(t, i - 1);
      s := TakenIsOwned(t, i - 1);
      assert EntryOk(t, s);
      ChainShape(t, s);
    }
  }

  // ------------------------------------------------------- parsing a table

  datatype Segment = Hole | Chain(blocks: nat)

  predicate SegmentsOk(segs: seq<Segment>) {
    forall i :: 0 <= i < |segs| && segs[i].Chain? ==> segs[i].blocks >= 1
  }

  function Blocks(n: nat): (r: seq<BlockEntry>)
    ensures |r| == n
    ensures forall i :: 0 <= i < n ==> r[i] == ChainEntry(i == 0, i < n - 1)
  {
    seq(n, i => ChainEntry(i == 0, i < n - 1))
  }

  /** The table that a list of free blocks and complete chains is written as. */
  function Encode(segs: seq<Segment>): seq<BlockEntry> {
    if segs == [] then []
    else EncodeOne(segs[0]) + Encode(segs[1..])
  }

  function EncodeOne(seg: Segment): seq<BlockEntry> {
    match seg case Hole => [FREE] case Chain(n) => Blocks(n)
  }

  lemma EncodeCons(seg: Segment, segs: seq<Segment>)
    ensures Encode([seg] + segs) == EncodeOne(seg) + Encode(segs)
  {
    assert ([seg] + segs)[1..] == segs;
  }

  lemma {:induction false} EncodeWellFormed(segs: seq<Segment>)
    requires SegmentsOk(segs)
    ensures WellFormed(Encode(segs))
    ensures Encode(segs) != [] && Taken(Encode(segs)[0]) ==> First(Encode(segs)[0])
    decreases |segs|
  {
    if segs != [] {
      EncodeWellFormed(segs[1..]);
      hide *;
      EncodeParts(segs);
      var rest := Encode(segs[1..]);
      WholeSegment(segs[0]);
      HeadOk(EncodeOne(segs[0]), rest);
      RestOk(EncodeOne(segs[0]), rest);
      JoinOk(EncodeOne(segs[0]), rest);
    }
  }

  lemma EncodeParts(segs: seq<Segment>)
    requires SegmentsOk(segs) && segs != []
    ensures Encode(segs) == EncodeOne(segs[0]) + Encode(segs[1..])
    ensures SegmentsOk([segs[0]])
  {
  }

  /** What one segment looks like from outside. */
  ghost predicate Whole(head: seq<BlockEntry>) {
    && head != [] && (Taken(head[0]) ==> First(head[0])) && !HasNext(head[|head| - 1])
    && forall i :: 0 <= i < |head| ==> EntryOk(head, i)
  }

  lemma WholeSegment(seg: Segment)
    requires SegmentsOk([seg])
    ensures Whole(EncodeOne(seg))
  {
    hide Taken, First, HasNext, ChainEntry;
    FreeFacts();
    assert [seg][0] == seg;
  }

  lemma HeadOk(head: seq<BlockEntry>, rest: seq<BlockEntry>)
    requires Whole(head)
    ensures forall i :: 0 <= i < |head| ==> EntryOk(head + rest, i)
  {
    hide Taken, First, HasNext, Legal;
    forall i | 0 <= i < |head|
      ensures EntryOk(head + rest, i)
    {
      assert EntryOk(head, i);
    }
  }

  lemma RestOk(head: seq<BlockEntry>, rest: seq<BlockEntry>)
    requires Whole(head) && WellFormed(rest) && (rest != [] && Taken(rest[0]) ==> First(rest[0]))
    ensures forall i :: |head| <= i < |head| + |rest| ==> EntryOk(head + rest, i)
  {
    hide Taken, First, HasNext, Legal, Whole;
    var t := head + rest;
    forall i | |head| <= i < |t|
      ensures EntryOk(t, i)
    {
      assert t[i] == rest[i - |head|] && EntryOk(rest, i - |head|);
      if i + 1 < |t| { assert t[i + 1] == rest[i + 1 - |head|]; }
      if i > |head| { assert t[i - 1] == rest[i - 1 - |head|]; }
    }
  }

  lemma JoinOk(head: seq<BlockEntry>, rest: seq<BlockEntry>)
    requires Whole(head)
    requires forall i :: 0 <= i < |head| ==> EntryOk(head + rest, i)
    requires forall i :: |head| <= i < |head| + |rest| ==> EntryOk(head + rest, i)
    ensures WellFormed(head + rest) && (Taken((head + rest)[0]) ==> First((head + rest)[0]))
  {
    hide Taken, First, HasNext, Legal, EntryOk;
  }

  /** A place where a new segment may start. */
  predicate Boundary(t: seq<BlockEntry>, i: nat) {
    i < |t| && Taken(t[i]) ==> First(t[i])
  }

  lemma SegmentAt(t: seq<BlockEntry>, i: nat) returns (seg: Segment, next: nat)
    requires WellFormed(t) && i < |t| && Boundary(t, i)
    ensures i < next <= |t| && Boundary(t, next)
    ensures SegmentsOk([seg]) && EncodeOne(seg) == t[i..next]
  {
    assert EntryOk(t, i);
    if Taken(t[i]) {
      var n := ChainLength(t, i);
      seg, next := Chain(n), i + n;
      ChainShape(t, i);
      ChainIs(t, i, n);
    } else {
      seg, next := Hole, i + 1;
    }
    hide Taken, First, HasNext, ChainEntry, EncodeOne;
    if next < |t| { assert EntryOk(t, next); }
  }

  lemma ChainIs(t: seq<BlockEntry>, i: nat, n: nat)
    requires n >= 1 && i + n <= |t| && forall k :: i <= k < i + n ==> t[k] == ChainEntry(k == i, k < i + n - 1)
    ensures Blocks(n) == t[i..i + n] && !HasNext(t[i + n - 1])
  {
    hide Taken, First, HasNext, ChainEntry;
    var part := t[i..i + n];
    forall k | 0 <= k < n
      ensures Blocks(n)[k] == part[k]
    {
      assert part[k] == t[i + k];
    }
  }

  lemma {:induction false} ParseFrom(t: seq<BlockEntry>, i: nat) returns (segs: seq<Segment>)
    requires WellFormed(t) && i <= |t| && Boundary(t, i)
    ensures SegmentsOk(segs) && Encode(segs) == t[i..]
    decreases |t| - i
  {
    if i == |t| {
      segs := [];
    } else {
      var seg, next := SegmentAt(t, i);
      var rest := ParseFrom(t, next);
      assert SegmentsOk([seg]) && ([seg][0] == seg);
      segs := [seg] + rest;
      EncodeCons(seg, rest);
      assert t[i..] == t[i..next] + t[next..];
    }
  }

  /** The local conditions of `WellFormed` say exactly that the table can be read as a
      list of free blocks and complete chains. */
  lemma WellFormedIffParseable(t: seq<BlockEntry>)
    ensures WellFormed(t) <==> exists segs :: SegmentsOk(segs) && Encode(segs) == t
  {
    if WellFormed(t) {
      if |t| > 0 { assert EntryOk(t, 0); }
      var segs := ParseFrom(t, 0);
      assert t[0..] == t;
    }
    if segs :| SegmentsOk(segs) && Encode(segs) == t {
      EncodeWellFormed(segs);
    }
  }

  // ------------------------------------------------ allocating and freeing

  lemma MarkTakenLegal(t: seq<BlockEntry>, s: nat, n: nat)
    requires AllLegal(t)
    ensures AllLegal(MarkTaken(t, s, n))
  {
  }

  /** Marking a free run taken adds exactly one live allocation. */
  lemma MarkTakenAllocs(t: seq<BlockEntry>, s: nat, n: nat)
    requires WellFormed(t) && n >= 1 && FreeRun(t, s, n)
    ensures WellFormed(MarkTaken(t, s, n))
    ensures Allocs(MarkTaken(t, s, n)) == Allocs(t)[s := n]
  {
    hide Taken, First, HasNext, ChainEntry, MarkTaken;
    FreeFacts();
    var u := MarkTaken(t, s, n);
    assert EntryOk(t, s) && EntryOk(t, s + n - 1);
    forall i | 0 <= i < |u|
      ensures EntryOk(u, i)
    {
      assert EntryOk(t, i);
      if i + 1 < |u| { assert EntryOk(t, i + 1); }
      if i > 0 { assert EntryOk(t, i - 1); }
    }
    ShapeLength(u, s, n);
    forall a | a in Allocs(t)
      ensures a in Allocs(u) && Allocs(u)[a] == Allocs(t)[a]
    {
      assert EntryOk(t, a);
      ChainShape(t, a);
      LengthFrame(t, u, a);
    }
    forall a | a in Allocs(u) && a != s
      ensures a in Allocs(t)
    {
      assert First(u[a]);
    }
  }

  /** Freeing a live chain removes exactly that allocation. */
  lemma MarkFreeAllocs(t: seq<BlockEntry>, s: nat)
    requires WellFormed(t) && s in Allocs(t)
    ensures WellFormed(MarkFree(t, s, Allocs(t)[s]))
    ensures Allocs(MarkFree(t, s, Allocs(t)[s])) == Allocs(t) - {s}
  {
    hide Taken, First, HasNext, ChainEntry, MarkFree;
    FreeFacts();
    var n := ChainLength(t, s);
    var u := MarkFree(t, s, n);
    assert EntryOk(t, s);
    ChainShape(t, s);
    forall i | 0 <= i < |u|
      ensures EntryOk(u, i)
    {
      assert EntryOk(t, i);
      if i + 1 < |u| { assert EntryOk(t, i + 1); }
      if i > 0 { assert EntryOk(t, i - 1); }
    }
    forall a | a in Allocs(t) && a != s
      ensures a in Allocs(u) && Allocs(u)[a] == Allocs(t)[a]
    {
      if a < s { AllocsDisjoint(t, a, s); } else { AllocsDisjoint(t, s, a); }
      LengthFrame(t, u, a);
    }
  }

  /** Freeing a freshly allocated chain gives the table back unchanged. */
  lemma FreeUndoesAlloc(t: seq<BlockEntry>, s: nat, n: nat)
    requires WellFormed(t) && n >= 1 && FreeRun(t, s, n)
    ensures var u := MarkTaken(t, s, n);
            s in Allocs(u) && Allocs(u)[s] == n && MarkFree(u, s, Allocs(u)[s]) == t
  {
    MarkTakenAllocs(t, s, n);
  }

  // ------------------------------------------- the marking as it is written

  /** The marking as written agrees with a complete chain for single blocks only, and
      keeps the table well formed for single blocks only. */
  lemma AsWrittenIff(t: seq<BlockEntry>, s: nat, n: nat)
    requires WellFormed(t) && n >= 1 && FreeRun(t, s, n)
    ensures MarkTakenAsWritten(t, s, n) == MarkTaken(t, s, n) <==> n == 1
    ensures WellFormed(MarkTakenAsWritten(t, s, n)) <==> n == 1
  {
    var u, v := MarkTakenAsWritten(t, s, n), MarkTaken(t, s, n);
    if n == 1 {
      assert u == v;
      MarkTakenAllocs(t, s, n);
    } else {
      var last := s + n - 1;
      assert HasNext(u[last]) && !HasNext(v[last]);
      assert EntryOk(t, last);
      if last + 1 < |t| {
        assert u[last + 1] == t[last + 1];
        assert EntryOk(t, last + 1);
      }
      assert !EntryOk(u, last);
    }
  }

  lemma {:induction false} AsWrittenLength(t: seq<BlockEntry>, s: nat, n: nat, i: nat)
    requires n >= 1 && s <= i < s + n <= |t|
    ensures var u := MarkTakenAsWritten(t, s, n);
            ChainLength(u, i) == s + n - i + if n == 1 || s + n == |t| then 0 else ChainLength(t, s + n)
    decreases s + n - i
  {
    var u := MarkTakenAsWritten(t, s, n);
    if i + 1 < s + n {
      AsWrittenLength(t, s, n, i + 1);
    } else if n > 1 && s + n < |t| {
      LengthSuffix(t, u, s + n);
    }
  }

  /** A chain marked as written runs into whatever follows it, taken or not, unless it is
      a single block or ends with the heap. */
  lemma AsWrittenLengthIff(t: seq<BlockEntry>, s: nat, n: nat)
    requires n >= 1 && s + n <= |t|
    ensures ChainLength(MarkTakenAsWritten(t, s, n), s) == n <==> n == 1 || s + n == |t|
  {
    AsWrittenLength(t, s, n, s);
  }

  /** The table alone comes back when a chain marked as written is freed exactly when the
      chain has one block, or ends with the heap, or is followed by a free block;
      otherwise the allocation that follows is freed with it. Behind a free block the
      counters are off nevertheless (`HeapAsWritten.FreeUndoesAsWrittenIff`). */
  lemma FreeAsWrittenIff(t: seq<BlockEntry>, s: nat, n: nat)
    requires n >= 1 && FreeRun(t, s, n)
    ensures var u := MarkTakenAsWritten(t, s, n);
            MarkFree(u, s, ChainLength(u, s)) == t <==> n == 1 || s + n == |t| || t[s + n] == FREE
  {
    var u := MarkTakenAsWritten(t, s, n);
    AsWrittenLength(t, s, n, s);
    if n > 1 && s + n < |t| && t[s + n] != FREE {
      assert MarkFree(u, s, ChainLength(u, s))[s + n] == FREE;
    } else if n > 1 && s + n < |t| {
      assert !HasNext(t[s + n]);
    }
  }

  lemma {:induction false} LengthSuffix(t: seq<BlockEntry>, u: seq<BlockEntry>, i: nat)
    requires |t| == |u| && i < |t| && t[i..] == u[i..]
    ensures ChainLength(u, i) == ChainLength(t, i)
    decreases |t| - i
  {
    assert t[i] == t[i..][0] && u[i] == u[i..][0];
    if i + 1 < |t| {
      assert t[i + 1..] == t[i..][1..] && u[i + 1..] == u[i..][1..];
      LengthSuffix(t, u, i + 1);
    }
  }

  // -------------------------------------------------------------- counting

  function Overlap(k: nat, s: nat, n: nat): nat {
    if k <= s then 0 else if k <= s + n then k - s else n
  }

  /** Turning `n` free entries into taken ones adds `n` to the count. */
  lemma {:induction false} CountChange(t: seq<BlockEntry>, u: seq<BlockEntry>, s: nat, n: nat, k: nat)
    requires |t| == |u| && s + n <= |t| && k <= |t|
    requires forall i :: s <= i < s + n ==> !Taken(t[i]) && Taken(u[i])
    requires forall i :: 0 <= i < |t| && !(s <= i < s + n) ==> Taken(u[i]) == Taken(t[i])
    ensures CountTaken(u, k) == CountTaken(t, k) + Overlap(k, s, n)
    decreases k
  {
    if k > 0 {
      CountChange(t, u, s, n, k - 1);
    }
  }

  lemma MarkTakenUsed(t: seq<BlockEntry>, s: nat, n: nat)
    requires FreeRun(t, s, n)
    ensures Used(MarkTaken(t, s, n)) == Used(t) + n
  {
    CountChange(t, MarkTaken(t, s, n), s, n, |t|);
  }

  lemma MarkFreeUsed(t: seq<BlockEntry>, s: nat, n: nat)
    requires s + n <= |t| && forall i :: s <= i < s + n ==> Taken(t[i])
    ensures Used(MarkFree(t, s, n)) == Used(t) - n
  {
    CountChange(MarkFree(t, s, n), t, s, n, |t|);
  }

  lemma {:induction false} AllTakenCount(t: seq<BlockEntry>, k: nat)
    requires k <= |t|
    ensures CountTaken(t, k) == k <==> forall i :: 0 <= i < k ==> Taken(t[i])
    decreases k
  {
    if k > 0 {
      AllTakenCount(t, k - 1);
    }
  }

  lemma {:induction false} LeastExists(t: seq<BlockEntry>, s: nat, n: nat) returns (m: nat)
    requires n > 0 && FreeRun(t, s, n)
    ensures LeastFreeRun(t, m, n)
    decreases s
  {
    if k: nat :| k < s && FreeRun(t, k, n) {
      m := LeastExists(t, k, n);
    } else {
      m := s;
    }
  }

  lemma FirstFitExists(t: seq<BlockEntry>, s: nat, n: nat)
    requires n > 0 && FreeRun(t, s, n)
    ensures 0 <= FirstFit(t, n) <= s
  {
    var m := LeastExists(t, s, n);
  }

  lemma FirstFitIs(t: seq<BlockEntry>, s: nat, n: nat)
    requires LeastFreeRun(t, s, n)
    ensures FirstFit(t, n) == s
  {
    var r := FirstFit(t, n);
    assert r >= 0 && FreeRun(t, r, n);
  }

  /** A single block can be allocated exactly when the counts say that one is free. */
  lemma OneBlockFits(t: seq<BlockEntry>)
    requires AllLegal(t)
    ensures FirstFit(t, 1) >= 0 <==> Used(t) < |t|
  {
    AllTakenCount(t, |t|);
    if i :| 0 <= i < |t| && !Taken(t[i]) {
      assert Legal(t[i]);
      assert FreeRun(t, i, 1);
      FirstFitExists(t, i, 1);
    }
    if FirstFit(t, 1) >= 0 {
      assert t[FirstFit(t, 1)] == FREE;
    }
  }
}
