/** The heap object (memory/heap/heap.c). Its methods run the source's loops over the
    flag bytes. Those named AsWritten mark chains as the source does and are tied to
    `HeapAsWritten`; the others mark complete chains and are tied to `HeapRuns`. */
module BlockHeap {
  import opened Common
  import opened BlockTable
  import opened HeapRuns
  import opened HeapAsWritten

  class Heap {
    const entries: array<BlockEntry>
    /** Contents of the data pool, block by block. */
    const data: array<Block>
    const saddr: nat
    var usedBlocks: nat
    var freeBlocks: nat

    /** Holds however the chains are marked: legal bytes, counters of one word. */
    ghost predicate Sane()
      reads this, entries
    {
      && entries as object != data as object
      && entries.Length == data.Length
      && saddr % BLOCK_SIZE == 0
      && 0 < saddr && saddr + entries.Length * BLOCK_SIZE < WORD
      && AllLegal(entries[..])
      && usedBlocks < WORD && freeBlocks < WORD
    }

    ghost predicate Valid()
      reads this, entries, data
    {
      && entries as object != data as object
      && entries.Length == data.Length
      && saddr % BLOCK_SIZE == 0
      && 0 < saddr && saddr + entries.Length * BLOCK_SIZE < WORD
      && WellFormed(entries[..])
      && usedBlocks < WORD && freeBlocks < WORD
    }

    lemma ValidSane()
      requires Valid()
      ensures Sane()
    {
      WellFormedLegal(entries[..]);
    }

    /** `address` points to or into a block of the pool. */
    predicate InPool(address: nat) { address >= saddr && BlockOf(address) < entries.Length }

    ghost function View(): State
      reads this, entries, data
    {
      State(entries[..], data[..], usedBlocks, freeBlocks)
    }

    function Address(block: nat): (a: nat)
      ensures a >= saddr && BlockOf(a) == block
    {
      saddr + block * BLOCK_SIZE
    }

    function End(): nat { saddr + entries.Length * BLOCK_SIZE }

    /** The address returned for a start block, NULL for a failure. */
    function Pointer(start: int): nat { if start < 0 then 0 else Address(start) }

    function BlockOf(address: nat): nat
      requires address >= saddr
    {
      (address - saddr) / BLOCK_SIZE
    }

    /** `address` is the start of a live allocation. */
    ghost predicate Live(address: nat)
      reads this, entries, data
    {
      address >= saddr && Address(BlockOf(address)) == address && BlockOf(address) in Allocs(entries[..])
    }

    constructor (entries: array<BlockEntry>, data: array<Block>, saddr: nat)
      requires entries as object != data as object && entries.Length == data.Length
      requires saddr % BLOCK_SIZE == 0 && 0 < saddr && saddr + entries.Length * BLOCK_SIZE < WORD
      modifies entries
      ensures Valid() && this.entries == entries && this.data == data && this.saddr == saddr
      ensures View() == Fresh(data[..])
    {
      this.entries, this.data, this.saddr := entries, data, saddr;
      usedBlocks, freeBlocks := 0, entries.Length;
      new;
      for i := 0 to entries.Length
        invariant forall k :: 0 <= k < i ==> entries[k] == FREE
        invariant usedBlocks == 0 && freeBlocks == entries.Length
      {
        entries[i] := FREE;
      }
      assert entries[..] == Fresh(data[..]).table;
    }

    /** First fit: the least start of a run of `n` free blocks. */
    method GetStartBlock(n: nat) returns (start: int)
      requires Sane()
      ensures start >= 0 ==> start == FirstFit(entries[..], n) && LeastFreeRun(entries[..], start, n)
      ensures start < 0 <==> FirstFit(entries[..], n) < 0
      ensures start < 0 <==> n == 0 || !exists s: nat :: FreeRun(entries[..], s, n)
    {
      ghost var t := entries[..];
      var count, i := 0, 0;
      start := -1;
      while i < entries.Length
        invariant 0 <= i <= |t|
        invariant start == -1 ==> count == 0
        invariant start != -1 ==> 0 <= start < i && count == i - start && FreeRun(t, start, count)
        invariant n > 0 ==> count < n
        invariant n > 0 ==> forall k: nat :: k < (if start == -1 then i else start) ==> !FreeRun(t, k, n)
      {
        assert Legal(t[i]);
        if entries[i] & 0x0f != FREE {
          assert t[i] != FREE;
          count, start := 0, -1;
          i := i + 1;
          continue;
        }
        assert t[i] == FREE;
        if start == -1 {
          start := i;
        }
        count := count + 1;
        if count == n {
          break;
        }
        i := i + 1;
      }
      if count != n {
        start := -ENOMEM;
      } else if n > 0 {
        FirstFitIs(t, start, n);
      }
    }

    method MarkBlocksTaken(s: nat, n: nat)
      requires n >= 1 && s + n <= entries.Length
      modifies entries
      ensures entries[..] == MarkTaken(old(entries[..]), s, n)
    {
      var end := s + n - 1;
      var entry := TAKEN | IS_FIRST;
      if n > 1 {
        entry := entry | HAS_NEXT;
      }
      var i := s;
      while i <= end
        invariant s <= i <= end + 1
        invariant i <= end ==> entry == ChainEntry(i == s, i < end)
        invariant forall k :: 0 <= k < entries.Length ==>
          entries[k] == if s <= k < i then ChainEntry(k == s, k < end) else old(entries[k])
      {
        entries[i] := entry;
        entry := TAKEN;
        if i + 1 != end {
          entry := entry | HAS_NEXT;
        }
        i := i + 1;
      }
      assert entries[..] == MarkTaken(old(entries[..]), s, n);
    }

    /** heap.c:186-211 as written: the test is on the block just marked, not on the next. */
    method MarkBlocksTakenAsWritten(s: nat, n: nat)
      requires n >= 1 && s + n <= entries.Length
      modifies entries
      ensures entries[..] == MarkTakenAsWritten(old(entries[..]), s, n)
    {
      var end := s + n - 1;
      var entry := TAKEN | IS_FIRST;
      if n > 1 {
        entry := entry | HAS_NEXT;
      }
      var i := s;
      while i <= end
        invariant s <= i <= end + 1
        invariant i <= end ==> entry == ChainEntry(i == s, n > 1)
        invariant forall k :: 0 <= k < entries.Length ==>
          entries[k] == if s <= k < i then ChainEntry(k == s, n > 1) else old(entries[k])
      {
        entries[i] := entry;
        entry := TAKEN;
        if i != end {
          entry := entry | HAS_NEXT;
        }
        i := i + 1;
      }
      assert entries[..] == MarkTakenAsWritten(old(entries[..]), s, n);
    }

    method MallocBlocks(n: nat) returns (address: nat)
      requires Sane()
      modifies this, entries
      ensures Sane() && (old(Valid()) ==> Valid())
      ensures View() == MallocStep(old(View()), n)
      ensures address == Pointer(FirstFit(old(entries[..]), n))
    {
      hide WellFormed, AllLegal, MarkTaken, FirstFit, Wrap, Address, BlockOf;
      address := 0;
      var start := GetStartBlock(n);
      if start < 0 {
        return;
      }
      address := Address(start);
      MarkTakenLegal(entries[..], start, n);
      if Valid() { MarkTakenAllocs(entries[..], start, n); }
      MarkBlocksTaken(start, n);
      usedBlocks := Wrap(usedBlocks + n);
      freeBlocks := Wrap(freeBlocks - n);
      assert data[..] == old(data[..]);
    }

    /** heap.c:213-233 with the marking as it is written. */
    method MallocBlocksAsWritten(n: nat) returns (address: nat)
      requires Sane()
      modifies this, entries
      ensures Sane()
      ensures View() == MallocStepAsWritten(old(View()), n)
      ensures address == Pointer(FirstFit(old(entries[..]), n))
    {
      hide AllLegal, MarkTakenAsWritten, FirstFit, Wrap, Used, Address, BlockOf;
      address := 0;
      var start := GetStartBlock(n);
      if start < 0 {
        return;
      }
      address := Address(start);
      MarkedUsed(entries[..], start, n);
      MarkBlocksTakenAsWritten(start, n);
      usedBlocks := Wrap(usedBlocks + n);
      freeBlocks := Wrap(freeBlocks - n);
      assert data[..] == old(data[..]);
    }

    /** Frees from `s` to the end of its chain. */
    method MarkBlocksFree(s: nat)
      requires s < entries.Length
      modifies this, entries
      ensures entries[..] == MarkFree(old(entries[..]), s, ChainLength(old(entries[..]), s))
      ensures usedBlocks == Wrap(old(usedBlocks) - ChainLength(old(entries[..]), s))
      ensures freeBlocks == Wrap(old(freeBlocks) + ChainLength(old(entries[..]), s))
    {
      ghost var t := entries[..];
      var freed, i := 0, s;
      while i < entries.Length
        invariant s <= i <= entries.Length && freed == i - s
        invariant i < entries.Length ==> freed + ChainLength(t, i) == ChainLength(t, s)
        invariant i == entries.Length ==> freed == ChainLength(t, s)
        invariant forall k :: 0 <= k < entries.Length ==> entries[k] == if s <= k < i then FREE else t[k]
        invariant usedBlocks == old(usedBlocks) && freeBlocks == old(freeBlocks)
      {
        var entry := entries[i];
        entries[i] := FREE;
        freed := freed + 1;
        if entry & HAS_NEXT == 0 {
          break;
        }
        i := i + 1;
      }
      usedBlocks := Wrap(usedBlocks - freed);
      freeBlocks := Wrap(freeBlocks + freed);
      assert freed == ChainLength(t, s);
      assert entries[..] == MarkFree(t, s, freed);
    }

    /** Taken blocks from the block of `address` to the end of its chain. */
    method AllocationBlockCount(address: nat) returns (count: nat)
      requires Sane() && InPool(address)
      ensures count == BlockCount(entries[..], BlockOf(address))
    {
      ghost var t := entries[..];
      var start := BlockOf(address);
      count := 0;
      var i := start;
      while i < entries.Length
        invariant start <= i <= |t|
        invariant i < |t| ==> count + BlockCount(t, i) == BlockCount(t, start)
        invariant i == |t| ==> count == BlockCount(t, start)
      {
        var entry := entries[i];
        if entry & TAKEN != 0 {
          count := count + 1;
        }
        if entry & HAS_NEXT == 0 {
          break;
        }
        i := i + 1;
      }
    }

    method Malloc(size: nat) returns (address: nat)
      requires Sane() && size < WORD
      modifies this, entries
      ensures Sane() && (old(Valid()) ==> Valid())
      ensures View() == MallocStep(old(View()), Requested(size))
      ensures address == Pointer(FirstFit(old(entries[..]), Requested(size)))
    {
      var aligned := AlignUp(size);
      address := MallocBlocks(aligned / BLOCK_SIZE);
    }

    method MallocAsWritten(size: nat) returns (address: nat)
      requires Sane() && size < WORD
      modifies this, entries
      ensures Sane()
      ensures View() == MallocStepAsWritten(old(View()), Requested(size))
      ensures address == Pointer(FirstFit(old(entries[..]), Requested(size)))
    {
      var aligned := AlignUp(size);
      address := MallocBlocksAsWritten(aligned / BLOCK_SIZE);
    }

    /** Frees the chain of the block that `address` lies in, live or not. */
    method Free(address: nat)
      requires Sane() && InPool(address)
      modifies this, entries
      ensures Sane() && (old(Valid() && Live(address)) ==> Valid())
      ensures View() == FreeStep(old(View()), BlockOf(address))
    {
      hide WellFormed, AllLegal, MarkFree, ChainLength, BlockCount, Used, Address, BlockOf, Wrap;
      ghost var t := entries[..];
      var s := BlockOf(address);
      FreedUsed(t, s);
      MarkBlocksFree(s);
      if old(Valid() && Live(address)) {
        MarkFreeAllocs(t, s);
      }
      assert data[..] == old(data[..]);
    }

    /** Whether the blocks `start..=end` are free; the source reads past the table when
        `end` does, the bound is an added guard. */
    method IsBlockRangeFree(start: nat, end: nat) returns (free: bool)
      requires Sane()
      ensures free <==> start > end || FreeRun(entries[..], start, end + 1 - start)
    {
      if start <= end && end >= entries.Length {
        return false;
      }
      ghost var t := entries[..];
      var i := start;
      while i <= end
        invariant if start <= end then start <= i <= end + 1 else i == start
        invariant forall k :: start <= k < i ==> t[k] == FREE
      {
        assert Legal(t[i]);
        if entries[i] & TAKEN != 0 {
          assert t[i] != FREE;
          return false;
        }
        assert t[i] == FREE;
        i := i + 1;
      }
      return true;
    }

    /** heap.c:139-151 as written, without a bound: the reads stay in the table exactly when
        the range does or a block from `start` on is taken, and then the answer is that of
        `IsBlockRangeFree`. */
    method IsBlockRangeFreeAsWritten(start: nat, end: nat) returns (inside: bool, free: bool)
      requires Sane()
      ensures inside <==>
        start > end || end < entries.Length || exists k :: start <= k < entries.Length && entries[k] != FREE
      ensures inside ==> (free <==> start > end || FreeRun(entries[..], start, end + 1 - start))
    {
      ghost var t := entries[..];
      var i := start;
      while i <= end
        invariant if start <= end then start <= i <= end + 1 else i == start
        invariant start <= end ==> i <= start || i <= |t|
        invariant forall k :: start <= k < i ==> t[k] == FREE
      {
        if i >= entries.Length {
          return false, false;
        }
        assert Legal(t[i]);
        if entries[i] & TAKEN != 0 {
          assert t[i] != FREE;
          return true, false;
        }
        assert t[i] == FREE;
        i := i + 1;
      }
      return true, true;
    }

    /** memset to zero of `size` bytes from block `start` on. */
    method ClearBytes(start: nat, size: nat)
      requires start + BlocksFor(size) <= data.Length
      modifies data
      ensures data[..] == ZeroedBytes(old(data[..]), start, size)
    {
      var whole, i := size / BLOCK_SIZE, 0;
      while i < whole
        invariant 0 <= i <= whole
        invariant forall k :: 0 <= k < data.Length ==>
          data[k] == if start <= k < start + i then ZeroBlock() else old(data[..])[k]
      {
        data[start + i] := ZeroBlock();
        i := i + 1;
      }
      if size % BLOCK_SIZE != 0 {
        data[start + whole] := ZeroedPart(data[start + whole], size % BLOCK_SIZE);
      }
      assert data[..] == ZeroedBytes(old(data[..]), start, size);
    }

    method Zalloc(size: nat) returns (address: nat)
      requires Sane() && size < WORD
      modifies this, entries, data
      ensures Sane() && (old(Valid()) ==> Valid())
      ensures address == Pointer(FirstFit(old(entries[..]), Requested(size)))
      ensures var mid := MallocStep(old(View()), Requested(size));
              View() == if address == 0 then old(View())
                        else mid.(data := ZeroedBytes(mid.data, BlockOf(address), size))
    {
      hide WellFormed, AllLegal, MarkTaken, ZeroedBytes, Wrap;
      address := Malloc(size);
      ghost var table := entries[..];
      if address != 0 {
        ClearBytes(BlockOf(address), size);
      }
      assert entries[..] == table;
    }

    method ZallocAsWritten(size: nat) returns (address: nat)
      requires Sane() && size < WORD
      modifies this, entries, data
      ensures Sane()
      ensures address == Pointer(FirstFit(old(entries[..]), Requested(size)))
      ensures var mid := MallocStepAsWritten(old(View()), Requested(size));
              View() == if address == 0 then old(View())
                        else mid.(data := ZeroedBytes(mid.data, BlockOf(address), size))
    {
      hide AllLegal, MarkTakenAsWritten, ZeroedBytes, Wrap;
      address := MallocAsWritten(size);
      ghost var table := entries[..];
      if address != 0 {
        ClearBytes(BlockOf(address), size);
      }
      assert entries[..] == table;
    }

    /** heap.c:308-315: free the tail and end the chain before it. */
    method FreeTail(start: nat, total: nat)
      requires start + total < entries.Length
      modifies this, entries
      ensures entries[..] == CutTable(old(entries[..]), start, total)
      ensures usedBlocks == Wrap(old(usedBlocks) - ChainLength(old(entries[..]), start + total))
      ensures freeBlocks == Wrap(old(freeBlocks) + ChainLength(old(entries[..]), start + total))
    {
      MarkBlocksFree(start + total);
      if total > 0 {
        entries[start + total - 1] := entries[start + total - 1] & !HAS_NEXT;
      }
    }

    /** heap.c:298-322: the counts are adjusted a second time. */
    method Shrink(start: nat, current: nat, total: nat)
      requires Sane() && start < entries.Length && Taken(entries[start])
      requires current == BlockCount(entries[..], start) && total < current
      modifies this, entries
      ensures Sane() && View() == ReallocStepAsWritten(old(View()), start, total).0
    {
      hide AllLegal, Wrap, Taken, CutTable, ChainLength, BlockCount;
      CutUsed(entries[..], start, total);
      ghost var tail := ChainLength(entries[..], start + total);
      FreeTail(start, total);
      var freed := current - total;
      WrapAdd(old(usedBlocks) - tail, -freed);
      WrapAdd(old(freeBlocks) + tail, freed);
      usedBlocks := Wrap(usedBlocks - freed);
      freeBlocks := Wrap(freeBlocks + freed);
      assert data[..] == old(data[..]);
    }

    /** heap.c:330-339: mark the extension and link the old end to it. */
    method TakeTail(start: nat, current: nat, total: nat)
      requires 0 < current < total && start + total <= entries.Length
      modifies entries
      ensures entries[..] == GrownTable(old(entries[..]), start, current, total)
    {
      ghost var t := entries[..];
      var first, last := start + current, start + total - 1;
      var i := first;
      while i < last
        invariant first <= i <= last
        invariant forall k :: 0 <= k < entries.Length ==> entries[k] == if first <= k < i then Linked(TAKEN) else t[k]
      {
        entries[i] := TAKEN | HAS_NEXT;
        i := i + 1;
      }
      entries[last] := TAKEN;
      entries[first - 1] := entries[first - 1] | HAS_NEXT;
      assert entries[..] == GrownTable(t, start, current, total);
    }

    /** heap.c:324-345. */
    method Extend(start: nat, current: nat, total: nat)
      requires Sane() && start < entries.Length && Taken(entries[start])
      requires current == BlockCount(entries[..], start) && current < total
      requires FreeRun(entries[..], start + current, total - current)
      modifies this, entries
      ensures Sane() && View() == ReallocStepAsWritten(old(View()), start, total).0
    {
      hide AllLegal, Wrap, GrownTable;
      GrownUsed(entries[..], start, total);
      TakeTail(start, current, total);
      usedBlocks := Wrap(usedBlocks + (total - current));
      freeBlocks := Wrap(freeBlocks - (total - current));
      assert data[..] == old(data[..]);
    }

    /** memcpy of whole blocks between two disjoint ranges. */
    method CopyBlocks(from: nat, to: nat, count: nat)
      requires from + count <= data.Length && to + count <= data.Length
      requires from + count <= to || to + count <= from
      modifies data
      ensures data[..] == Pasted(old(data[..]), from, to, count)
    {
      var i := 0;
      while i < count
        invariant 0 <= i <= count
        invariant forall k :: 0 <= k < data.Length ==>
          data[k] == if to <= k < to + i then old(data[from + (k - to)]) else old(data[k])
      {
        assert data[from + i] == old(data[from + i]);
        data[to + i] := data[from + i];
        i := i + 1;
      }
      assert data[..] == Pasted(old(data[..]), from, to, count);
    }

    /** heap.c:351-359: a zeroed allocation with the old blocks copied into it. */
    method Duplicate(start: nat, current: nat, total: nat) returns (address: nat)
      requires Valid() && start in Allocs(entries[..]) && total * BLOCK_SIZE <= WORD - BLOCK_SIZE
      requires current == Allocs(entries[..])[start] && 0 < current < total
      modifies this, entries, data
      ensures Valid()
      ensures address == Pointer(FirstFit(old(entries[..]), total))
      ensures address == 0 ==> View() == old(View())
      ensures address != 0 ==>
        View() == MallocStep(old(View()),
          total).(data := Copied(old(data[..]), start, BlockOf(address), current, total))
    {
      hide WellFormed, Wrap, MarkTaken, MarkFree, Taken, First, HasNext, ChainEntry, ChainLength, Address, BlockOf,
           Pasted, Copied, Zeroed;
      ghost var st := View();
      ValidSane();
      address := Zalloc(total * BLOCK_SIZE);
      if address == 0 {
        return;
      }
      var to := BlockOf(address);
      MoveFits(st.table, start, to, total);
      ghost var table := entries[..];
      CopyBlocks(start, to, current);
      PastedCopied(st.data, start, to, current, total);
      assert entries[..] == table;
    }

    method DuplicateAsWritten(start: nat, current: nat, total: nat) returns (address: nat)
      requires Sane() && start < entries.Length && Taken(entries[start]) && total * BLOCK_SIZE <= WORD - BLOCK_SIZE
      requires current == BlockCount(entries[..], start) && current < total
      requires !FreeRun(entries[..], start + current, total - current)
      modifies this, entries, data
      ensures Sane()
      ensures address == Pointer(FirstFit(old(entries[..]), total))
      ensures address == 0 ==> View() == old(View())
      ensures address != 0 ==>
        View() == MallocStepAsWritten(old(View()), total).
                    (data := Copied(old(data[..]), start, BlockOf(address), current, total))
    {
      hide AllLegal, Wrap, MarkTakenAsWritten, Taken, BlockCount, Address, BlockOf, Pasted, Copied, Zeroed;
      ghost var st := View();
      address := ZallocAsWritten(total * BLOCK_SIZE);
      if address == 0 {
        return;
      }
      var to := BlockOf(address);
      RelocatedChain(st.table, start, to, total);
      ghost var table := entries[..];
      CopyBlocks(start, to, current);
      PastedCopied(st.data, start, to, current, total);
      assert entries[..] == table;
    }

    /** heap.c:347-364: duplicate, then free the old blocks. */
    method Move(start: nat, current: nat, total: nat) returns (address: nat)
      requires Valid() && start in Allocs(entries[..]) && total * BLOCK_SIZE <= WORD - BLOCK_SIZE
      requires current == Allocs(entries[..])[start] && current < total
      requires !FreeRun(entries[..], start + current, total - current)
      modifies this, entries, data
      ensures Valid()
      ensures View() == ReallocStep(old(View()), start, total).0
      ensures address == Pointer(ReallocStep(old(View()), start, total).1)
    {
      hide WellFormed, Wrap, Copied, MarkTaken, MarkFree, Taken, First, HasNext, ChainEntry, ChainLength, Address,
           BlockOf, AllLegal, FreeStep, MallocStep, ReallocStep, FreeRun, Legal;
      ghost var st := View();
      address := Duplicate(start, current, total);
      MovedState(st, start, total);
      if address == 0 {
        return;
      }
      ValidSane();
      Free(Address(start));
    }

    method MoveAsWritten(start: nat, current: nat, total: nat) returns (address: nat)
      requires Sane() && start < entries.Length && Taken(entries[start]) && total * BLOCK_SIZE <= WORD - BLOCK_SIZE
      requires current == BlockCount(entries[..], start) && current < total
      requires !FreeRun(entries[..], start + current, total - current)
      modifies this, entries, data
      ensures Sane()
      ensures View() == ReallocStepAsWritten(old(View()), start, total).0
      ensures address == Pointer(ReallocStepAsWritten(old(View()), start, total).1)
    {
      hide AllLegal, Wrap, Copied, MarkTakenAsWritten, Taken, ChainLength, BlockCount, Address, BlockOf, FreeStep;
      address := DuplicateAsWritten(start, current, total);
      if address == 0 {
        return;
      }
      Free(Address(start));
    }

    /** heap.c:272-364, with the extension range checked against the table. */
    method Realloc(oldPtr: nat, newSize: nat) returns (address: nat)
      requires Valid() && newSize < WORD
      requires oldPtr != 0 ==> Live(oldPtr)
      modifies this, entries, data
      ensures Valid()
      ensures oldPtr == 0 ==>
        && View() == MallocStep(old(View()), Requested(newSize))
        && address == Pointer(FirstFit(old(entries[..]), Requested(newSize)))
      ensures oldPtr != 0 && newSize == 0 ==> View() == FreeStep(old(View()), BlockOf(oldPtr)) && address == 0
      ensures oldPtr != 0 && newSize > 0 ==>
        var (after, start) := ReallocStep(old(View()), BlockOf(oldPtr), Requested(newSize));
        View() == after && address == Pointer(start)
    {
      hide WellFormed, AllLegal, Wrap, First, HasNext, Taken, ChainEntry, ReallocStep, MallocStep, FreeStep, Address,
           BlockOf, BlockCount, ChainLength, Requested, BlocksFor, ReallocStepAsWritten;
      ValidSane();
      if oldPtr == 0 {
        address := Malloc(newSize);
        assert data[..] == old(data[..]);
        return;
      }
      if newSize == 0 {
        Free(oldPtr);
        assert data[..] == old(data[..]);
        return 0;
      }
      var start := BlockOf(oldPtr);
      var total := AlignUp(newSize) / BLOCK_SIZE;
      ghost var st := View();
      LegalCallable(st, HeapRuns.Realloc(start, total));
      var current := AllocationBlockCount(oldPtr);
      var done := ReallocInPlace(start, current, total);
      if done {
        KeptPlace(st, start, total);
        return oldPtr;
      }
      address := Move(start, current, total);
    }

    /** heap.c:298-345: the three cases that keep the address. */
    method ReallocInPlace(start: nat, current: nat, total: nat) returns (done: bool)
      requires Sane() && start < entries.Length && Taken(entries[start])
      requires current == BlockCount(entries[..], start)
      modifies this, entries
      ensures done <==> total <= current || FreeRun(old(entries[..]), start + current, total - current)
      ensures done ==> Sane() && View() == ReallocStepAsWritten(old(View()), start, total).0
      ensures !done ==> Sane() && View() == old(View())
    {
      hide AllLegal, Wrap, Taken, ReallocStepAsWritten;
      if current >= total {
        if current != total {
          Shrink(start, current, total);
        } else {
          SameSize(View(), start);
        }
        return true;
      }
      CountedChain(entries[..], start);
      var end := start + current - 1;
      done := IsBlockRangeFree(end + 1, end + (total - current));
      if done {
        Extend(start, current, total);
      }
    }

    /** heap.c:272-364 as written, but for the check of the extension range against the
        table; any pointer to a taken block. */
    method ReallocAsWritten(oldPtr: nat, newSize: nat) returns (address: nat)
      requires Sane() && newSize < WORD
      requires oldPtr != 0 ==> InPool(oldPtr)
      requires oldPtr != 0 && newSize > 0 ==> Address(BlockOf(oldPtr)) == oldPtr && Taken(entries[BlockOf(oldPtr)])
      modifies this, entries, data
      ensures Sane()
      ensures oldPtr == 0 ==>
        && View() == MallocStepAsWritten(old(View()), Requested(newSize))
        && address == Pointer(FirstFit(old(entries[..]), Requested(newSize)))
      ensures oldPtr != 0 && newSize == 0 ==> View() == FreeStep(old(View()), BlockOf(oldPtr)) && address == 0
      ensures oldPtr != 0 && newSize > 0 ==>
        var (after, start) := ReallocStepAsWritten(old(View()), BlockOf(oldPtr), Requested(newSize));
        View() == after && address == Pointer(start)
    {
      hide AllLegal, Wrap, Taken, BlockCount, ReallocStepAsWritten, MallocStepAsWritten, FreeStep;
      if oldPtr == 0 {
        address := MallocAsWritten(newSize);
        assert data[..] == old(data[..]);
        return;
      }
      if newSize == 0 {
        Free(oldPtr);
        assert data[..] == old(data[..]);
        return 0;
      }
      var start := BlockOf(oldPtr);
      var total := AlignUp(newSize) / BLOCK_SIZE;
      var current := AllocationBlockCount(oldPtr);
      ghost var st := View();
      var done := ReallocInPlace(start, current, total);
      if done {
        StaysPut(st, start, total);
        return oldPtr;
      }
      address := MoveAsWritten(start, current, total);
    }

    /** heap.c:376-389: bytes in taken blocks. */
    method TotalUsed() returns (total: nat)
      requires Sane()
      ensures total == Used(entries[..]) * BLOCK_SIZE
    {
      total := 0;
      ghost var t := entries[..];
      for i := 0 to entries.Length
        invariant total == CountTaken(t, i) * BLOCK_SIZE
      {
        assert Legal(t[i]);
        if entries[i] & 0x0f == TAKEN {
          total := total + BLOCK_SIZE;
        }
      }
    }
  }

  lemma KeptPlace(st: State, s: nat, m: nat)
    requires Inv(st) && s in Allocs(st.table) && st.used < WORD && st.free < WORD
    requires m <= ChainLength(st.table, s)
      || FreeRun(st.table, s + ChainLength(st.table, s), m - ChainLength(st.table, s))
    ensures Callable(st, Realloc(s, m))
    ensures var after := ReallocStep(st, s, m);
            after.1 == s && ReallocStepAsWritten(st, s, m).0 == after.0 && Inv(after.0)
  {
    hide WellFormed, ReallocStepAsWritten, ChainLength, BlockCount, Resized, Moved, Copied, Wrap;
    LegalCallable(st, Realloc(s, m));
    InPlaceSame(st, s, m);
    StepCorrect(st, Realloc(s, m));
  }

  lemma SameSize(st: State, s: nat)
    requires Sound(st) && s < |st.table| && Taken(st.table[s])
    ensures ReallocStepAsWritten(st, s, BlockCount(st.table, s)).0 == st
  {
  }

  lemma StaysPut(st: State, s: nat, m: nat)
    requires Sound(st) && s < |st.table| && Taken(st.table[s])
    requires var c := BlockCount(st.table, s); m <= c || FreeRun(st.table, s + c, m - c)
    ensures ReallocStepAsWritten(st, s, m).1 == s
  {
  }

  function Pasted(data: seq<Block>, from: nat, to: nat, count: nat): (r: seq<Block>)
    requires from + count <= |data|
    ensures |r| == |data|
    ensures forall k :: 0 <= k < |data| ==> r[k] == if to <= k < to + count then data[from + (k - to)] else data[k]
  {
    seq(|data|, k requires 0 <= k < |data| => if to <= k < to + count then data[from + (k - to)] else data[k])
  }

  lemma PastedCopied(data: seq<Block>, s: nat, d: nat, c: nat, m: nat)
    requires c <= m && s + c <= |data| && d + m <= |data| && (s + c <= d || d + m <= s)
    ensures Pasted(Zeroed(data, d, m), s, d, c) == Copied(data, s, d, c, m)
  {
  }

  /** Realloc on its last path is an allocation with a copy, then a free. */
  lemma MovedState(st: State, s: nat, m: nat)
    requires Inv(st) && s in Allocs(st.table) && Allocs(st.table)[s] < m
    requires !FreeRun(st.table, s + Allocs(st.table)[s], m - Allocs(st.table)[s])
    ensures ReallocStep(st, s, m).1 == FirstFit(st.table, m)
    ensures FirstFit(st.table, m) < 0 ==> ReallocStep(st, s, m).0 == st
    ensures FirstFit(st.table, m) >= 0 ==>
      var mid := MallocStep(st, m).(data := Copied(st.data, s, FirstFit(st.table, m), Allocs(st.table)[s], m));
      s in Allocs(mid.table) && FreeStep(mid, s) == ReallocStep(st, s, m).0
  {
    hide WellFormed, Wrap, Copied, MarkTaken, MarkFree, Taken, First, HasNext, ChainEntry;
    var d, c := FirstFit(st.table, m), ChainLength(st.table, s);
    if d >= 0 {
      MoveFits(st.table, s, d, m);
      assert s in Allocs(st.table)[d as nat := m];
      WrapAdd(st.used + m, -(c as int));
      WrapAdd(st.free - m, c);
    }
  }

  lemma MoveFits(t: seq<BlockEntry>, s: nat, d: nat, m: nat)
    requires WellFormed(t) && s in Allocs(t) && m >= 1 && FreeRun(t, d, m)
    ensures Allocs(MarkTaken(t, d, m)) == Allocs(t)[d := m] && s != d
    ensures ChainLength(MarkTaken(t, d, m), s) == ChainLength(t, s)
    ensures s + Allocs(t)[s] <= d || d + m <= s
  {
    MarkTakenAllocs(t, d, m);
    AllocTaken(t, s);
    assert t[s] != FREE && t[d] == FREE;
    assert s in Allocs(t)[d := m];
    if d < s {
      assert forall k :: d <= k < d + m ==> t[k] == FREE;
    }
  }

  /** heap_align_value_to_upper: the sum is a `uintptr_t`. */
  function AlignUp(value: nat): (r: nat)
    requires value < WORD
    ensures r == Requested(value) * BLOCK_SIZE
  {
    if value % BLOCK_SIZE == 0 then value else (value - value % BLOCK_SIZE + BLOCK_SIZE) % WORD
  }
}
