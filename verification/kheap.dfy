/** Sizing of the kernel's first heap (memory/heap/kheap.c). */
module KernelHeap {
  import opened Common
  import opened BlockTable

  const MINIMAL_HEAP_ADDRESS: nat := 0x0110_0000
  const MINIMAL_HEAP_TABLE_ADDRESS: nat := 0x0100_0000
  const HEAP_MINIMUM_SIZE_BYTES: nat := 104857600

  /** A `size_t` difference of two pointers. */
  function Span(start: nat, end: nat): nat { (end - start) % WORD }

  function UpperPage(address: nat): nat {
    if address % BLOCK_SIZE == 0 then address else address + BLOCK_SIZE - address % BLOCK_SIZE
  }

  function LowerPage(address: nat): nat { address - address % BLOCK_SIZE }

  lemma PageFacts(address: nat)
    ensures UpperPage(address) % BLOCK_SIZE == 0 && LowerPage(address) % BLOCK_SIZE == 0
    ensures address % BLOCK_SIZE == 0 ==> UpperPage(address) == address == LowerPage(address)
  {
  }

  /** The checks of heap_create (heap.c:29-58): 0, or -EINVARG. */
  function HeapCreate(start: nat, end: nat, total: nat): int {
    if start % BLOCK_SIZE != 0 || end % BLOCK_SIZE != 0 then -EINVARG
    else if total != Span(start, end) / BLOCK_SIZE then -EINVARG
    else 0
  }

  /** kheap.c:60-92: the table is sized for the whole region, then for what it leaves, and
      the data starts on the next page. */
  method Sizing(table: nat, end: nat) returns (heap: nat, heapEnd: nat, entries: nat)
    requires table <= end < WORD - BLOCK_SIZE
    ensures HeapCreate(heap, heapEnd, entries) == 0
    ensures heapEnd == LowerPage(end)
    ensures heap == UpperPage(table + DataBlocks(end - table))
    ensures entries == Span(heap, heapEnd) / BLOCK_SIZE
  {
    hide UpperPage, LowerPage, Span;
    var size := end - table;
    var blocks := size / BLOCK_SIZE;
    var tableSize := blocks;
    var dataSize := size - tableSize;
    var dataBlocks := dataSize / BLOCK_SIZE;
    tableSize := dataBlocks;
    heap := table + tableSize;
    heapEnd := end;
    PageFacts(heap);
    PageFacts(heapEnd);
    if heap % BLOCK_SIZE != 0 {
      heap := UpperPage(heap);
    }
    if heapEnd % BLOCK_SIZE != 0 {
      heapEnd := LowerPage(heapEnd);
    }
    entries := Span(heap, heapEnd) / BLOCK_SIZE;
  }

  function DataBlocks(size: nat): nat { (size - size / BLOCK_SIZE) / BLOCK_SIZE }

  /** The entry table of a page-aligned region of `k` blocks ends at or below the first
      data block exactly when k is not one more than a multiple of 4097; otherwise it runs
      one entry over. */
  lemma TableFitsIff(table: nat, k: nat)
    requires table % BLOCK_SIZE == 0 && 1 <= k < 0x100_0000 && table + k * BLOCK_SIZE < WORD
    ensures var end := table + k * BLOCK_SIZE;
            var heap := UpperPage(table + DataBlocks(k * BLOCK_SIZE));
            var entries := Span(heap, end) / BLOCK_SIZE;
            && (table + entries <= heap <==> k % 4097 != 1)
            && (k % 4097 == 1 ==> table + entries == heap + 1)
            && heap + entries * BLOCK_SIZE == end
  {
    var d := DataBlocks(k * BLOCK_SIZE);
    DataBlocksIs(k);
    var c := (d + BLOCK_SIZE - 1) / BLOCK_SIZE;
    PageAfter(table, d);
    PagesOverTable(k, c);
    hide DataBlocks, UpperPage;
    BlocksBetween(table, c, k);
  }

  lemma BlocksBetween(table: nat, c: nat, k: nat)
    requires c <= k && table + k * BLOCK_SIZE < WORD
    ensures Span(table + c * BLOCK_SIZE, table + k * BLOCK_SIZE) == (k - c) * BLOCK_SIZE
    ensures Span(table + c * BLOCK_SIZE, table + k * BLOCK_SIZE) / BLOCK_SIZE == k - c
  {
  }

  lemma PageAfter(table: nat, d: nat)
    requires table % BLOCK_SIZE == 0
    ensures UpperPage(table + d) == table + (d + BLOCK_SIZE - 1) / BLOCK_SIZE * BLOCK_SIZE
  {
    assert (table + d) % BLOCK_SIZE == d % BLOCK_SIZE;
  }

  lemma DataBlocksIs(k: nat)
    ensures DataBlocks(k * BLOCK_SIZE) == k - (k + BLOCK_SIZE - 1) / BLOCK_SIZE
  {
    assert (k * BLOCK_SIZE) / BLOCK_SIZE == k;
  }

  lemma PagesOverTable(k: nat, c: nat)
    requires 1 <= k < 0x100_0000
    requires c == (k - (k + BLOCK_SIZE - 1) / BLOCK_SIZE + BLOCK_SIZE - 1) / BLOCK_SIZE
    ensures c <= k && (k - c <= c * BLOCK_SIZE <==> k % 4097 != 1)
    ensures k % 4097 == 1 ==> k - c == c * BLOCK_SIZE + 1
  {
    var q, r := k / 4097, k % 4097;
    assert k == 4096 * q + q + r && q < BLOCK_SIZE;
  }

  // ------------------------------------------------------- the other regions

  datatype Region = Region(base: nat, length: nat, usable: bool)

  /** multiheap_add (multiheap.c:222-240) hands heap_create a table of zero entries, so a
      page-aligned region is accepted exactly when it is empty. */
  lemma AddIff(start: nat, end: nat)
    requires start <= end < WORD && start % BLOCK_SIZE == 0 && end % BLOCK_SIZE == 0
    ensures HeapCreate(start, end, 0) == 0 <==> start == end
  {
    if start < end {
      assert end - start >= BLOCK_SIZE;
    }
  }

  /** kheap.c:14-29. */
  method MinimalRegion(regions: seq<Region>) returns (i: nat)
    ensures i <= |regions|
    ensures i < |regions| ==> regions[i].usable && regions[i].length > HEAP_MINIMUM_SIZE_BYTES
    ensures forall j :: 0 <= j < i ==> !(regions[j].usable && regions[j].length > HEAP_MINIMUM_SIZE_BYTES)
  {
    i := 0;
    while i < |regions|
      invariant i <= |regions|
      invariant forall j :: 0 <= j < i ==> !(regions[j].usable && regions[j].length > HEAP_MINIMUM_SIZE_BYTES)
    {
      if regions[i].usable && regions[i].length > HEAP_MINIMUM_SIZE_BYTES {
        return;
      }
      i := i + 1;
    }
  }

  /** The page-aligned part of a region that multiheap_add is called for. */
  function Bounds(r: Region): (nat, nat) {
    var start, end := UpperPage(r.base), LowerPage(r.base + r.length);
    (if start < MINIMAL_HEAP_ADDRESS then MINIMAL_HEAP_ADDRESS else start, end)
  }

  predicate Eligible(regions: seq<Region>, used: nat, i: nat)
    requires i < |regions|
  {
    i != used && regions[i].usable && Bounds(regions[i]).0 < Bounds(regions[i]).1
  }

  /** The eligible ones among the first `n` regions. */
  function EligibleRegions(regions: seq<Region>, used: nat, n: nat): set<nat>
    requires n <= |regions|
  {
    set i | 0 <= i < n && Eligible(regions, used, i)
  }

  lemma OneMoreRegion(regions: seq<Region>, used: nat, i: nat)
    requires i < |regions|
    ensures |EligibleRegions(regions, used, i + 1)| ==
            |EligibleRegions(regions, used, i)| + if Eligible(regions, used, i) then 1 else 0
  {
    var before, after := EligibleRegions(regions, used, i), EligibleRegions(regions, used, i + 1);
    assert after == before + if Eligible(regions, used, i) then {i} else {};
    assert i !in before;
  }

  /** kheap.c:105-138: how many further regions become heaps. With a table of the right
      size for each (`sized`) exactly the eligible ones would; with the table of zero entries that
      multiheap_add passes none does. */
  method AddRegions(regions: seq<Region>, used: nat, sized: bool) returns (added: nat)
    requires forall i :: 0 <= i < |regions| ==> regions[i].base + regions[i].length < WORD - BLOCK_SIZE
    ensures added == if sized then |EligibleRegions(regions, used, |regions|)| else 0
  {
    added := 0;
    for i := 0 to |regions|
      invariant added == if sized then |EligibleRegions(regions, used, i)| else 0
    {
      OneMoreRegion(regions, used, i);
      if i != used && regions[i].usable {
        var start, end := UpperPage(regions[i].base), LowerPage(regions[i].base + regions[i].length);
        if start < MINIMAL_HEAP_ADDRESS {
          start := MINIMAL_HEAP_ADDRESS;
        }
        if end <= start {
          continue;
        }
        var total := if sized then Span(start, end) / BLOCK_SIZE else 0;
        AddIff(start, end);
        if HeapCreate(start, end, total) == 0 {
          added := added + 1;
        }
      }
    }
  }
}
